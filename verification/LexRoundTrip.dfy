/** Printing tokens and lexing the print again. */
module LexRoundTrip {
  import opened LexSpec
  import opened LexFacts
  import opened LexMachine

  /** The texts of the tokens, one space between two of them and a newline at the end. */
  function Print(ts: seq<Token>): string {
    if ts == [] then "\n"
    else if |ts| == 1 then ts[0].text + "\n"
    else ts[0].text + " " + Print(ts[1..])
  }

  predicate StartsWithSpace(s: string) { s != [] && IsSpace(s[0]) }

  /** A run gathered from s is gathered again when white space follows it. */
  lemma RelexRun(text: string, cls: Class, s: string, after: string)
    requires StartsWithSpace(after)
    ensures var run := RunText(text, cls, s);
            && text <= run
            && RunText(text, cls, run[|text|..] + after) == run
            && RunRest(cls, run[|text|..] + after) == after
  {
    RunIsLongestPrefix(text, cls, s);
    var part := s[..|s| - |RunRest(cls, s)|];
    assert RunText(text, cls, s)[|text|..] == part;
    RunStops(text, cls, part, after);
  }

  /** What the lexeme that starts with c and goes on with s is lexed to when it is followed by
      `after`: itself if it is closed, and itself with a final newline if not. */
  predicate Rereads(lexed: Lexed, c: char, after: string) {
    && lexed.Lexeme?
    && var t := lexed.token;
    && t.text != [] && t.text[0] == c
    && var again := LexFrom(EMPTY, c, t.text[1..] + after);
    && if Closed(t) then again == Lexeme(t, after)
       else lexed.rest == [] && (after == "\n" ==> again.Lexeme? && again.token.text == t.text + after)
  }

  lemma RelexZero(s: string, after: string)
    requires StartsWithSpace(after)
    ensures var t := LexZero(ZERO, s).token;
            t.text != [] && t.text[0] == '0' && LexZero(ZERO, t.text[1..] + after) == Lexeme(t, after)
  {
    var t := LexZero(ZERO, s).token;
    if s == [] {
      RelexOctal('0', [], after);
    } else if In(Octal, s[0]) {
      RelexOctal(s[0], s[1..], after);
    } else if (s[0] == 'x' || s[0] == 'X') && |s| >= 2 && In(Hex, s[1]) {
      RelexHex(s, after);
    } else {
      assert t.text[1..] + after == after;
    }
  }

  lemma RelexOctal(second: char, s: string, after: string)
    requires In(Octal, second) && StartsWithSpace(after)
    ensures var text := RunText("0" + [second], Octal, s);
            text != [] && text[0] == '0' && LexZero(ZERO, text[1..] + after) == Lexeme(Token(text, Unknown), after)
  {
    RelexRun("0" + [second], Octal, s, after);
    var text := RunText("0" + [second], Octal, s);
    var again := text[1..] + after;
    assert again[0] == second && again[1..] == text[2..] + after;
  }

  lemma RelexHex(s: string, after: string)
    requires |s| >= 2 && (s[0] == 'x' || s[0] == 'X') && In(Hex, s[1]) && StartsWithSpace(after)
    ensures var t := LexZero(ZERO, s).token;
            t.text != [] && t.text[0] == '0' && LexZero(ZERO, t.text[1..] + after) == Lexeme(t, after)
  {
    var prefix := "0" + [s[0]] + [s[1]];
    RelexRun(prefix, Hex, s[2..], after);
    var text := RunText(prefix, Hex, s[2..]);
    var again := text[1..] + after;
    assert again[0] == s[0] && again[1] == s[1] && again[2..] == text[3..] + after;
  }

  lemma LexesLiteral(quote: char, s: string)
    requires IsQuote(quote)
    ensures LexFrom(EMPTY, quote, s) == LexLiteral(EMPTY, quote, s)
  {
  }

  lemma LexesMinus(s: string)
    ensures LexFrom(EMPTY, '-', s) == LexMinus(EMPTY, s)
  {
  }

  lemma RelexLiteral(quote: char, s: string, after: string)
    requires IsQuote(quote)
    ensures Rereads(LexLiteral(EMPTY, quote, s), quote, after)
  {
    var t := LexLiteral(EMPTY, quote, s).token;
    LiteralClosed(quote, s);
    assert t.text[1..] == Body(quote, s) && "" + [quote] == [quote];
    BodyRereads(quote, s, [quote], after);
    LexesLiteral(quote, t.text[1..] + after);
    if !Closed(t) && after == "\n" {
      assert LiteralText(t.text, quote, "\n") == t.text + "\n";
    }
  }

  lemma RelexOp(op: char, s: string, after: string)
    requires after != [] && after[0] != op
    ensures var t := LexOp(EMPTY, op, s).token;
            t.text != [] && t.text[0] == op && LexOp(EMPTY, op, t.text[1..] + after) == Lexeme(t, after)
  {
    var t := LexOp(EMPTY, op, s).token;
    assert "" + [op] == [op];
    if |t.text| == 1 {
      assert t.text[1..] + after == after;
    } else {
      assert t.text[1..] + after == [op] + after && ([op] + after)[1..] == after;
    }
  }

  lemma RelexMinus(s: string, after: string)
    requires StartsWithSpace(after)
    ensures Rereads(LexMinus(EMPTY, s), '-', after)
  {
    if s != [] && s[0] == '>' {
      assert "" + ['-'] + ['>'] == "->" && "->"[1..] + after == ['>'] + after;
      assert (['>'] + after)[1..] == after;
      LexesMinus(['>'] + after);
    } else {
      RelexOp('-', s, after);
      LexesMinus(LexOp(EMPTY, '-', s).token.text[1..] + after);
      assert "" + ['-'] == "-";
    }
  }

  lemma RelexFrom(c: char, s: string, after: string)
    requires !IsSpace(c) && LexFrom(EMPTY, c, s).Lexeme? && StartsWithSpace(after)
    ensures Rereads(LexFrom(EMPTY, c, s), c, after)
  {
    assert "" + [c] == [c];
    if SingleKind(c).Some? {
      assert [c][1..] + after == after;
    } else if c == '0' {
      RelexZero(s, after);
    } else if IsDigit(c) {
      RelexRun([c], Decimal, s, after);
    } else if IsAlpha(c) {
      RelexRun([c], WordChar, s, after);
    } else if IsQuote(c) {
      RelexLiteral(c, s, after);
    } else if IsDoubling(c) {
      RelexOp(c, s, after);
    } else {
      RelexMinus(s, after);
    }
  }

  /** A closed token of the lexer, followed by white space, is lexed to itself.  One that is
      not closed takes the white space in. */
  lemma {:induction false} Relex(s: string, after: string)
    requires LexOne(EMPTY, s, true).Lexeme? && StartsWithSpace(after)
    ensures var lexed := LexOne(EMPTY, s, true);
            && lexed.token.text != []
            && var again := LexOne(EMPTY, lexed.token.text + after, true);
               if Closed(lexed.token) then again == Lexeme(lexed.token, after)
               else lexed.rest == [] && (after == "\n" ==> again.Lexeme? && again.token.text == lexed.token.text + after)
    decreases |s|
  {
    var c, rest := s[0], s[1..];
    if c == '/' {
      if SkipComment(rest).Skipped? {
        Relex(SkipComment(rest).rest, after);
      } else {
        assert "" + ['/'] == "/" && ("/" + after)[1..] == after;
      }
    } else if IsSpace(c) || LexFrom(EMPTY, c, rest).End? {
      Relex(rest, after);
    } else {
      RelexFrom(c, rest, after);
      var text := LexFrom(EMPTY, c, rest).token.text;
      assert (text + after)[0] == c && (text + after)[1..] == text[1..] + after;
    }
  }

  /** White space in front changes nothing. */
  lemma TokensAfterSpace(s: string)
    ensures Tokens(" " + s, true) == Tokens(s, true)
    ensures Tokens("\n", true) == []
  {
    assert (" " + s)[1..] == s;
    assert LexOne(EMPTY, "\n", true) == End;
  }

  /** The first token of a print is read back exactly when it is closed. */
  lemma FirstPrinted(s: string, after: string)
    requires LexOne(EMPTY, s, true).Lexeme? && StartsWithSpace(after)
    requires after == "\n" || LexOne(EMPTY, s, true).rest != []
    ensures var t := LexOne(EMPTY, s, true).token;
            var again := Tokens(t.text + after, true);
            if Closed(t) then again == [t] + Tokens(after, true) else again != [] && again[0] != t
  {
    Relex(s, after);
  }

  lemma {:induction false} PrintedTokens(s: string)
    ensures var ts := Tokens(s, true);
            Tokens(Print(ts), true) == ts <==> AllClosed(ts)
    decreases |s|
  {
    var ts := Tokens(s, true);
    match LexOne(EMPTY, s, true)
    case End =>
      TokensAfterSpace("");
    case Lexeme(t, rest) =>
      var others := Tokens(rest, true);
      AllClosedCons(t, others);
      TokensAfterSpace(Print(others));
      PrintedTokens(rest);
      assert ts[1..] == others;
      FirstPrinted(s, if others == [] then "\n" else " " + Print(others));
      assert others != [] ==> Print(ts) == t.text + (" " + Print(others));
  }

  /** Lexing the print gives the same texts and types exactly when the input does not end
      inside a literal. */
  lemma RoundTrip(s: string)
    ensures var ts := Tokens(s, true);
            Tokens(Print(ts), true) == ts <==> !Run(Start, s, true).open
  {
    PrintedTokens(s);
    TokensAreRun(s, true);
  }
}
