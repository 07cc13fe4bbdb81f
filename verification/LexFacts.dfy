/** What the lexical functions of LexSpec gather, without the accumulated text. */
module LexFacts {
  import opened LexSpec

  /** Maximal munch: the run is the longest prefix inside the class. */
  lemma {:induction false} RunIsLongestPrefix(text: string, cls: Class, s: string)
    ensures var n := |s| - |RunRest(cls, s)|;
            && RunText(text, cls, s) == text + s[..n]
            && RunRest(cls, s) == s[n..]
            && (forall i :: 0 <= i < n ==> In(cls, s[i]))
            && (n < |s| ==> !In(cls, s[n]))
    decreases |s|
  {
    if s != [] && In(cls, s[0]) {
      RunIsLongestPrefix(text + [s[0]], cls, s[1..]);
      var n := |s| - |RunRest(cls, s)|;
      assert text + [s[0]] + s[1..][..n - 1] == text + s[..n];
    }
  }

  /** A run inside the class followed by something outside it is gathered whole. */
  lemma {:induction false} RunStops(text: string, cls: Class, run: string, after: string)
    requires forall i :: 0 <= i < |run| ==> In(cls, run[i])
    requires after != [] ==> !In(cls, after[0])
    ensures RunText(text, cls, run + after) == text + run
    ensures RunRest(cls, run + after) == after
    decreases |run|
  {
    if run == [] {
      assert run + after == after;
    } else {
      assert (run + after)[1..] == run[1..] + after;
      RunStops(text + [run[0]], cls, run[1..], after);
      assert text + [run[0]] + run[1..] == text + run;
    }
  }

  /** The characters a literal keeps, its opening quote left out. */
  function Body(quote: char, s: string): string {
    LiteralText("", quote, s)
  }

  lemma {:induction false} LiteralIsBody(text: string, quote: char, s: string)
    ensures LiteralText(text, quote, s) == text + Body(quote, s)
    decreases |s|
  {
    if s == [] || (s[0] == '\\' && |s| == 1) {
    } else if s[0] == '\\' {
      LiteralIsBody(text + [s[0]] + [s[1]], quote, s[2..]);
      LiteralIsBody("" + [s[0]] + [s[1]], quote, s[2..]);
    } else if s[0] != quote {
      LiteralIsBody(text + [s[0]], quote, s[1..]);
      LiteralIsBody("" + [s[0]], quote, s[1..]);
    }
  }

  /** One character or one escaped pair of a body. */
  lemma BodyStep(quote: char, s: string)
    requires s != []
    ensures s[0] == '\\' && |s| > 1 ==> Body(quote, s) == [s[0], s[1]] + Body(quote, s[2..])
    ensures s[0] != '\\' && s[0] != quote ==> Body(quote, s) == [s[0]] + Body(quote, s[1..])
    ensures s[0] != '\\' && s[0] == quote ==> Body(quote, s) == [quote]
  {
    if s[0] == '\\' && |s| > 1 {
      LiteralIsBody("" + [s[0]] + [s[1]], quote, s[2..]);
    } else if s[0] != '\\' && s[0] != quote {
      LiteralIsBody("" + [s[0]], quote, s[1..]);
    }
  }

  /** The body closes exactly when the literal did, and then nothing behind it is read; an
      unclosed body swallows what comes next. */
  ghost predicate RereadsBody(quote: char, s: string, text: string, after: string) {
    var body := Body(quote, s);
    && (LiteralCloses(quote, body) <==> LiteralCloses(quote, s))
    && if LiteralCloses(quote, s) then
         LiteralText(text, quote, body + after) == text + body && LiteralRest(quote, body + after) == after
       else
         LiteralRest(quote, s) == []
         && LiteralText(text, quote, body + after) == LiteralText(text + body, quote, after)
  }

  lemma {:induction false} BodyRereads(quote: char, s: string, text: string, after: string)
    requires IsQuote(quote)
    ensures RereadsBody(quote, s, text, after)
    decreases |s|
  {
    if s == [] || (s[0] == '\\' && |s| == 1) {
      assert [] + after == after && text + [] == text;
    } else if s[0] == '\\' {
      BodyRereads(quote, s[2..], text + [s[0]] + [s[1]], after);
      EscapeRereads(quote, s, text, after);
    } else if s[0] == quote {
      BodyStep(quote, s);
      assert ([quote] + after)[1..] == after;
    } else {
      BodyRereads(quote, s[1..], text + [s[0]], after);
      CharRereads(quote, s, text, after);
    }
  }

  lemma EscapeRereads(quote: char, s: string, text: string, after: string)
    requires IsQuote(quote) && |s| > 1 && s[0] == '\\'
    requires RereadsBody(quote, s[2..], text + [s[0]] + [s[1]], after)
    ensures RereadsBody(quote, s, text, after)
  {
    BodyStep(quote, s);
    var inner, body := Body(quote, s[2..]), Body(quote, s);
    assert body[2..] == inner && (body + after)[2..] == inner + after;
    assert text + [s[0]] + [s[1]] + inner == text + body;
  }

  lemma CharRereads(quote: char, s: string, text: string, after: string)
    requires IsQuote(quote) && s != [] && s[0] != '\\' && s[0] != quote
    requires RereadsBody(quote, s[1..], text + [s[0]], after)
    ensures RereadsBody(quote, s, text, after)
  {
    BodyStep(quote, s);
    var inner, body := Body(quote, s[1..]), Body(quote, s);
    assert body[1..] == inner && (body + after)[1..] == inner + after;
    assert text + [s[0]] + inner == text + body;
  }

  /** The token of a literal is closed exactly when the input closes it. */
  lemma LiteralClosed(quote: char, s: string)
    requires IsQuote(quote)
    ensures Closed(LexLiteral(EMPTY, quote, s).token) <==> LiteralCloses(quote, s)
    ensures !LiteralCloses(quote, s) ==> LexLiteral(EMPTY, quote, s).rest == []
    ensures LexLiteral(EMPTY, quote, s).token.text == [quote] + Body(quote, s)
  {
    LiteralIsBody("" + [quote], quote, s);
    BodyRereads(quote, s, "", "");
    assert ([quote] + Body(quote, s))[1..] == Body(quote, s);
  }

  lemma AllClosedCons(t: Token, ts: seq<Token>)
    ensures AllClosed([t] + ts) <==> Closed(t) && AllClosed(ts)
  {
    assert ([t] + ts)[1..] == ts && ([t] + ts)[0] == t;
    forall i | 0 <= i < |ts|
      ensures ts[i] == ([t] + ts)[i + 1]
    {
    }
  }

  // ---------- Cleared and uncleared tokens ----------

  /** The lexeme itself, whatever the token held before. */
  predicate Appends(t: Token, onto: Lexed, alone: Lexed) {
    if alone.End? then onto.End?
    else onto.Lexeme? && onto.rest == alone.rest && onto.token.text == t.text + alone.token.text
  }

  lemma RunAppends(text: string, cls: Class, s: string)
    ensures RunText(text, cls, s) == text + RunText("", cls, s)
  {
    RunIsLongestPrefix(text, cls, s);
    RunIsLongestPrefix("", cls, s);
  }

  lemma ZeroAppends(t: Token, s: string)
    ensures Appends(t, LexZero(t.(text := t.text + ['0']), s), LexZero(EMPTY.(text := "" + ['0']), s))
  {
    if s != [] && In(Octal, s[0]) {
      RunAppends(t.text + ['0'] + [s[0]], Octal, s[1..]);
      RunAppends("" + ['0'] + [s[0]], Octal, s[1..]);
    } else if |s| >= 2 && (s[0] == 'x' || s[0] == 'X') && In(Hex, s[1]) {
      RunAppends(t.text + ['0'] + [s[0]] + [s[1]], Hex, s[2..]);
      RunAppends("" + ['0'] + [s[0]] + [s[1]], Hex, s[2..]);
    }
  }

  lemma LexFromAppends(t: Token, c: char, s: string)
    ensures Appends(t, LexFrom(t, c, s), LexFrom(EMPTY, c, s))
  {
    if IsDigit(c) && c == '0' {
      ZeroAppends(t, s);
    } else if IsDigit(c) || IsAlpha(c) {
      var cls := if IsDigit(c) then Decimal else WordChar;
      RunAppends(t.text + [c], cls, s);
      RunAppends("" + [c], cls, s);
    } else if IsQuote(c) {
      LiteralIsBody(t.text + [c], c, s);
      LiteralIsBody("" + [c], c, s);
    }
  }

  /** A token that was not cleared gets the same lexeme appended to what it holds. */
  lemma {:induction false} LexOneAppends(t: Token, s: string, skipWhite: bool)
    ensures Appends(t, LexOne(t, s, skipWhite), LexOne(EMPTY, s, skipWhite))
    decreases |s|
  {
    if s != [] {
      var c, rest := s[0], s[1..];
      LexFromAppends(t, c, rest);
      if c == '/' {
        if SkipComment(rest).Skipped? {
          LexOneAppends(t, SkipComment(rest).rest, skipWhite);
        }
      } else if (IsSpace(c) && skipWhite) || LexFrom(t, c, rest).End? {
        LexOneAppends(t, rest, skipWhite);
      }
    }
  }

  // ---------- Shapes of tokens ----------

  /** What the first character of a lexer's token tells about it. */
  predicate Lexical(t: Token) {
    && t.text != []
    && (IsAlpha(t.text[0]) ==> t.kind == Identifier)
    && (t.kind == LiteralString ==> t.text[0] == '\"')
    && (t.kind == Terminal ==> t.text == ";")
  }

  lemma ZeroKeepsStart(z: Token, s: string)
    ensures z.text <= LexZero(z, s).token.text && LexZero(z, s).token.kind == z.kind
  {
    if s != [] && In(Octal, s[0]) {
      RunIsLongestPrefix(z.text + [s[0]], Octal, s[1..]);
    } else if |s| >= 2 && (s[0] == 'x' || s[0] == 'X') && In(Hex, s[1]) {
      RunIsLongestPrefix(z.text + [s[0]] + [s[1]], Hex, s[2..]);
    }
  }

  /** A lexeme starts with the character that begins it. */
  lemma LexFromStarts(c: char, s: string)
    ensures LexFrom(EMPTY, c, s).Lexeme? ==> [c] <= LexFrom(EMPTY, c, s).token.text
  {
    assert "" + [c] == [c];
    if IsDigit(c) && c == '0' {
      ZeroKeepsStart(EMPTY.(text := [c]), s);
    } else if IsDigit(c) || IsAlpha(c) {
      RunIsLongestPrefix([c], if IsDigit(c) then Decimal else WordChar, s);
    } else if IsQuote(c) {
      LiteralIsBody([c], c, s);
    }
  }

  lemma LexFromLexical(c: char, s: string)
    requires LexFrom(EMPTY, c, s).Lexeme?
    ensures Lexical(LexFrom(EMPTY, c, s).token)
  {
    LexFromStarts(c, s);
    if IsDigit(c) && c == '0' {
      ZeroKeepsStart(EMPTY.(text := "" + [c]), s);
    } else if c == ';' {
      assert "" + [c] == ";";
    }
  }

  lemma {:induction false} LexOneLexical(s: string, skipWhite: bool)
    ensures LexOne(EMPTY, s, skipWhite).Lexeme? ==> Lexical(LexOne(EMPTY, s, skipWhite).token)
    decreases |s|
  {
    if s != [] {
      var c, rest := s[0], s[1..];
      if c == '/' {
        if SkipComment(rest).Skipped? {
          LexOneLexical(SkipComment(rest).rest, skipWhite);
        }
      } else if (IsSpace(c) && skipWhite) || LexFrom(EMPTY, c, rest).End? {
        LexOneLexical(rest, skipWhite);
      } else {
        LexFromLexical(c, rest);
      }
    }
  }

  lemma {:induction false} TokensLexical(s: string, skipWhite: bool)
    ensures forall t :: t in Tokens(s, skipWhite) ==> Lexical(t)
    decreases |s|
  {
    LexOneLexical(s, skipWhite);
    match LexOne(EMPTY, s, skipWhite)
    case End =>
    case Lexeme(_, rest) => TokensLexical(rest, skipWhite);
  }
}
