/**
 A one-pass lexer: a finite control that reads every character exactly once, never pushes
 one back and emits tokens as they end.  It is written from the lexical rules alone
 (section 6.4 of ISO/IEC 9899: tokens and comments), and the push-back lexer of the code is
 proved to deliver the same tokens on every input.
 */
module LexMachine {
  import opened LexSpec
  import opened LexFacts
  import opened Wrappers

  datatype State =
    | Start
    | Slash
    | LineComment
    | BlockComment
    | BlockStar                                 // a `*` inside a block comment
    | Zero                                      // a leading 0
    | ZeroX(x: char)                            // 0x or 0X with no digit yet
    | Digits(cls: Class, text: string)
    | Word(text: string)
    | Literal(quote: char, text: string)
    | Escape(quote: char, text: string)         // behind a backslash in a literal
    | Operator(op: char)
    | Minus

  /** New state and the tokens that the character completes. */
  type Move = (State, seq<Token>)

  /** A character that is not a continuation of anything. */
  function Begin(c: char, skipWhite: bool): Move {
    if c == '/' then (Slash, [])
    else if IsSpace(c) then (Start, if skipWhite then [] else [Token([c], WhiteSpace)])
    else if SingleKind(c).Some? then (Start, [Token([c], SingleKind(c).value)])
    else if c == '0' then (Zero, [])
    else if IsDigit(c) then (Digits(Decimal, [c]), [])
    else if IsAlpha(c) then (Word([c]), [])
    else if IsQuote(c) then (Literal(c, [c]), [])
    else if IsDoubling(c) then (Operator(c), [])
    else if c == '-' then (Minus, [])
    else (Start, [])
  }

  /** The character ends `token` and begins something else. */
  function EndThenBegin(token: Token, c: char, skipWhite: bool): Move {
    var (next, out) := Begin(c, skipWhite);
    (next, [token] + out)
  }

  function Step(st: State, c: char, skipWhite: bool): Move {
    match st
    case Start => Begin(c, skipWhite)
    case Slash =>
      if c == '/' then (LineComment, [])
      else if c == '*' then (BlockComment, [])
      else EndThenBegin(Token("/", Unknown), c, skipWhite)
    case LineComment => (if c == '\n' then Start else LineComment, [])
    case BlockComment => (if c == '*' then BlockStar else BlockComment, [])
    case BlockStar => (if c == '/' then Start else if c == '*' then BlockStar else BlockComment, [])
    case Zero =>
      if In(Octal, c) then (Digits(Octal, ['0', c]), [])
      else if c == 'x' || c == 'X' then (ZeroX(c), [])
      else EndThenBegin(Token("0", Unknown), c, skipWhite)
    case ZeroX(x) =>
      if In(Hex, c) then (Digits(Hex, ['0', x, c]), [])
      else if In(WordChar, c) then (Word([x, c]), [Token("0", Unknown)])
      else
        var (next, out) := EndThenBegin(Token([x], Identifier), c, skipWhite);
        (next, [Token("0", Unknown)] + out)
    case Digits(cls, text) =>
      if In(cls, c) then (Digits(cls, text + [c]), [])
      else EndThenBegin(Token(text, Unknown), c, skipWhite)
    case Word(text) =>
      if In(WordChar, c) then (Word(text + [c]), [])
      else EndThenBegin(Token(text, Identifier), c, skipWhite)
    case Literal(quote, text) =>
      if c == '\\' then (Escape(quote, text), [])
      else if c == quote then (Start, [Token(text + [c], QuoteKind(quote))])
      else (Literal(quote, text + [c]), [])
    case Escape(quote, text) => (Literal(quote, text + ['\\'] + [c]), [])
    case Operator(op) =>
      if c == op then (Start, [Token([op, op], Unknown)])
      else EndThenBegin(Token([op], Unknown), c, skipWhite)
    case Minus =>
      if c == '-' then (Start, [Token("--", Unknown)])
      else if c == '>' then (Start, [Token("->", Arrow)])
      else EndThenBegin(Token("-", Unknown), c, skipWhite)
  }

  /** Tokens still owed when the input ends.  Three of them are the code's own: a final `0`
      comes out as `00`, a final `/` is lost, a final backslash in a literal is dropped. */
  function Finish(st: State): seq<Token> {
    match st
    case Start | Slash | LineComment | BlockComment | BlockStar => []
    case Zero => [Token("00", Unknown)]
    case ZeroX(x) => [Token("0", Unknown), Token([x], Identifier)]
    case Digits(_, text) => [Token(text, Unknown)]
    case Word(text) => [Token(text, Identifier)]
    case Literal(quote, text) => [Token(text, QuoteKind(quote))]
    case Escape(quote, text) => [Token(text, QuoteKind(quote))]
    case Operator(op) => [Token([op], Unknown)]
    case Minus => [Token("-", Unknown)]
  }

  /** All tokens of a run, and whether the input ended inside a literal. */
  datatype Outcome = Outcome(tokens: seq<Token>, open: bool)

  function Emit(out: seq<Token>, after: Outcome): Outcome {
    if out == [] then after else Outcome(out + after.tokens, after.open)
  }

  /** Read s from state st to the end. */
  function Run(st: State, s: string, skipWhite: bool): Outcome
    decreases |s|
  {
    if s == [] then Outcome(Finish(st), st.Literal? || st.Escape?)
    else
      var (next, out) := Step(st, s[0], skipWhite);
      Emit(out, Run(next, s[1..], skipWhite))
  }

  // ---------- The machine and the push-back lexer agree ----------

  const NOTHING := Outcome([], false)

  /** A token, then whatever the machine makes of the rest from its start state. */
  function Then(token: Token, rest: string, skipWhite: bool): Outcome {
    Emit([token], Run(Start, rest, skipWhite))
  }

  /** Ending a token and re-reading the character is one step of the machine. */
  lemma EndsToken(token: Token, s: string, skipWhite: bool)
    requires s != []
    ensures var (next, out) := EndThenBegin(token, s[0], skipWhite);
            Emit(out, Run(next, s[1..], skipWhite)) == Then(token, s, skipWhite)
  {
    var (next, out) := Begin(s[0], skipWhite);
    var after := Run(next, s[1..], skipWhite).tokens;
    assert ([token] + out) + after == [token] + (out + after);
  }

  lemma {:induction false} RunLineComment(s: string, skipWhite: bool)
    ensures Run(LineComment, s, skipWhite)
         == match AfterNewline(s) case None => NOTHING case Some(rest) => Run(Start, rest, skipWhite)
  {
    if s != [] && s[0] != '\n' {
      RunLineComment(s[1..], skipWhite);
    }
  }

  lemma {:induction false} RunBlockComment(s: string, skipWhite: bool)
    ensures Run(BlockComment, s, skipWhite)
         == match AfterClose(s) case None => NOTHING case Some(rest) => Run(Start, rest, skipWhite)
    ensures s != [] && s[0] == '*' ==> Run(BlockStar, s[1..], skipWhite) == Run(BlockComment, s, skipWhite)
    decreases |s|
  {
    if s != [] {
      RunBlockComment(s[1..], skipWhite);
    }
  }

  lemma {:induction false} RunDigits(cls: Class, text: string, s: string, skipWhite: bool)
    ensures Run(Digits(cls, text), s, skipWhite)
         == Then(Token(RunText(text, cls, s), Unknown), RunRest(cls, s), skipWhite)
    decreases |s|
  {
    if s == [] {
    } else if In(cls, s[0]) {
      RunDigits(cls, text + [s[0]], s[1..], skipWhite);
    } else {
      EndsToken(Token(text, Unknown), s, skipWhite);
    }
  }

  lemma {:induction false} RunWord(text: string, s: string, skipWhite: bool)
    ensures Run(Word(text), s, skipWhite)
         == Then(Token(RunText(text, WordChar, s), Identifier), RunRest(WordChar, s), skipWhite)
    decreases |s|
  {
    if s == [] {
    } else if In(WordChar, s[0]) {
      RunWord(text + [s[0]], s[1..], skipWhite);
    } else {
      EndsToken(Token(text, Identifier), s, skipWhite);
    }
  }

  lemma {:induction false} RunLiteral(quote: char, text: string, s: string, skipWhite: bool)
    requires IsQuote(quote)
    ensures Run(Literal(quote, text), s, skipWhite)
         == Emit([Token(LiteralText(text, quote, s), QuoteKind(quote))],
                 if LiteralCloses(quote, s) then Run(Start, LiteralRest(quote, s), skipWhite) else Outcome([], true))
    decreases |s|
  {
    if s == [] {
    } else if s[0] == '\\' {
      if |s| > 1 {
        assert s[1..][1..] == s[2..];
        RunLiteral(quote, text + ['\\'] + [s[1]], s[2..], skipWhite);
      }
    } else if s[0] != quote {
      RunLiteral(quote, text + [s[0]], s[1..], skipWhite);
    }
  }

  lemma RunNumber(first: char, s: string, skipWhite: bool)
    requires IsDigit(first)
    ensures var lexed := LexNumber(EMPTY, first, s);
            Run(if first == '0' then Zero else Digits(Decimal, [first]), s, skipWhite)
            == Then(lexed.token, lexed.rest, skipWhite)
  {
    assert EMPTY.text + [first] == [first];
    if first == '0' {
      RunZero(s, skipWhite);
    } else {
      RunDigits(Decimal, [first], s, skipWhite);
    }
  }

  const ZERO := Token("0", Unknown)

  lemma RunZero(s: string, skipWhite: bool)
    ensures Run(Zero, s, skipWhite) == Then(LexZero(ZERO, s).token, LexZero(ZERO, s).rest, skipWhite)
  {
    if s == [] {
      assert "0" + ['0'] == "00";
    } else if In(Octal, s[0]) {
      assert "0" + [s[0]] == ['0', s[0]];
      RunDigits(Octal, ['0', s[0]], s[1..], skipWhite);
    } else if s[0] == 'x' || s[0] == 'X' {
      RunZeroX(s, skipWhite);
    } else {
      EndsToken(ZERO, s, skipWhite);
    }
  }

  /** 0x without a hexadecimal digit is the number 0 and an identifier. */
  lemma RunZeroX(s: string, skipWhite: bool)
    requires s != [] && (s[0] == 'x' || s[0] == 'X')
    ensures Run(ZeroX(s[0]), s[1..], skipWhite) == Then(LexZero(ZERO, s).token, LexZero(ZERO, s).rest, skipWhite)
  {
    if |s| >= 2 && In(Hex, s[1]) {
      assert "0" + [s[0]] + [s[1]] == ['0', s[0], s[1]] && s[1..][1..] == s[2..];
      RunDigits(Hex, ['0', s[0], s[1]], s[2..], skipWhite);
    } else {
      NoHexDigit(s[0], s[1..], skipWhite);
    }
  }

  lemma NoHexDigit(x: char, s: string, skipWhite: bool)
    requires s == [] || !In(Hex, s[0])
    ensures Run(ZeroX(x), s, skipWhite) == Emit([Token("0", Unknown)], Run(Word([x]), s, skipWhite))
  {
    if s != [] {
      var zero, tail := [Token("0", Unknown)], Run(Step(ZeroX(x), s[0], skipWhite).0, s[1..], skipWhite).tokens;
      assert [x] + [s[0]] == [x, s[0]];
      var out := Step(Word([x]), s[0], skipWhite).1;
      assert (zero + out) + tail == zero + (out + tail);
    }
  }

  /** One call of the push-back lexer is a stretch of the machine's run that starts and ends
      in its start state. */
  lemma {:induction false} LexOneIsRun(s: string, skipWhite: bool)
    ensures Run(Start, s, skipWhite)
         == match LexOne(EMPTY, s, skipWhite)
            case End => NOTHING
            case Lexeme(token, rest) => Then(token, rest, skipWhite).(open := !Closed(token) || Run(Start, rest, skipWhite).open)
    decreases |s|
  {
    if s != [] {
      var c, rest := s[0], s[1..];
      assert EMPTY.text + [c] == [c];
      if c == '/' {
        RunSlash(rest, skipWhite);
        if SkipComment(rest).Skipped? {
          LexOneIsRun(SkipComment(rest).rest, skipWhite);
        }
      } else if IsSpace(c) {
        LexOneIsRun(rest, skipWhite);
      } else if SingleKind(c).Some? {
      } else if IsDigit(c) {
        RunNumber(c, rest, skipWhite);
      } else if IsAlpha(c) {
        RunWord([c], rest, skipWhite);
      } else if IsQuote(c) {
        RunLiteral(c, [c], rest, skipWhite);
        LiteralClosed(c, rest);
      } else if IsDoubling(c) {
        RunOperator(c, rest, skipWhite);
      } else if c == '-' {
        RunMinus(rest, skipWhite);
      } else {
        LexOneIsRun(rest, skipWhite);
      }
    }
  }

  lemma RunSlash(s: string, skipWhite: bool)
    ensures Run(Slash, s, skipWhite)
         == match SkipComment(s)
            case Unclosed => NOTHING
            case Skipped(rest) => Run(Start, rest, skipWhite)
            case NotComment => Then(Token("/", Unknown), s, skipWhite)
  {
    if s == [] {
    } else if s[0] == '/' {
      RunLineComment(s[1..], skipWhite);
    } else if s[0] == '*' {
      RunBlockComment(s[1..], skipWhite);
    } else {
      EndsToken(Token("/", Unknown), s, skipWhite);
    }
  }

  lemma RunOperator(op: char, s: string, skipWhite: bool)
    ensures var lexed := LexOp(EMPTY, op, s);
            Run(Operator(op), s, skipWhite) == Then(lexed.token, lexed.rest, skipWhite)
  {
    assert EMPTY.text + [op] == [op] && [op] + [op] == [op, op];
    if s != [] && s[0] != op {
      EndsToken(Token([op], Unknown), s, skipWhite);
    }
  }

  lemma RunMinus(s: string, skipWhite: bool)
    ensures var lexed := LexMinus(EMPTY, s);
            Run(Minus, s, skipWhite) == Then(lexed.token, lexed.rest, skipWhite)
  {
    assert EMPTY.text + ['-'] == "-" && "-" + ['-'] == "--" && "-" + ['>'] == "->";
    if s != [] && s[0] != '-' && s[0] != '>' {
      EndsToken(Token("-", Unknown), s, skipWhite);
    }
  }

  /** On every input the lexer of the code delivers exactly the machine's tokens. */
  lemma {:induction false} TokensAreRun(s: string, skipWhite: bool)
    ensures Tokens(s, skipWhite) == Run(Start, s, skipWhite).tokens
    ensures AllClosed(Tokens(s, skipWhite)) <==> !Run(Start, s, skipWhite).open
    decreases |s|
  {
    LexOneIsRun(s, skipWhite);
    match LexOne(EMPTY, s, skipWhite)
    case End =>
    case Lexeme(token, rest) =>
      TokensAreRun(rest, skipWhite);
      AllClosedCons(token, Tokens(rest, skipWhite));
  }
}
