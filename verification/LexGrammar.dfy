/**
 The tokens of kernelscan by their characters.  Every character of the input belongs to a token,
 or is skipped, or is lost behind the last token; what may be skipped, where a token ends and
 which type it has is said here with the characters written out.
 */
module LexGrammar {
  import opened LexSpec
  import opened LexFacts
  import opened Wrappers

  // ---------- Characters ----------

  predicate Letter(c: char) { 'a' <= c <= 'z' || 'A' <= c <= 'Z' }

  predicate Digit(c: char) { '0' <= c <= '9' }

  predicate HexDigit(c: char) { '0' <= c <= '9' || 'a' <= c <= 'f' || 'A' <= c <= 'F' }

  predicate InName(c: char) { Letter(c) || Digit(c) || c == '_' }

  predicate Blank(c: char) { c == ' ' || c == '\t' || c == '\r' || c == '\n' || c == '\\' }

  /** A token of one character, whatever follows. */
  predicate Single(c: char) {
    || c == '#' || c == '(' || c == ')' || c == '[' || c == ']' || c == '<' || c == '>' || c == ',' || c == ';'
    || c == '{' || c == '}' || c == ':' || c == '~' || c == '?' || c == '*' || c == '%' || c == '!' || c == '.'
  }

  predicate Doubling(c: char) { c == '+' || c == '=' || c == '|' || c == '&' }

  predicate Quote(c: char) { c == '\"' || c == '\'' }

  /** No token begins with it, nor does a comment. */
  predicate Stray(c: char) {
    !Letter(c) && !Digit(c) && !Blank(c) && !Single(c) && !Doubling(c) && !Quote(c) && c != '-' && c != '/'
  }

  // ---------- Types ----------

  /** The text is one character. */
  predicate IsChar(text: string, c: char) { |text| == 1 && text[0] == c }

  /** The type of a token by its text. */
  predicate Typed(t: Token) {
    && t.text != []
    && (t.kind == LiteralString <==> t.text[0] == '\"')
    && (t.kind == LiteralChar <==> t.text[0] == '\'')
    && (t.kind == Identifier <==> Letter(t.text[0]))
    && (t.kind == WhiteSpace <==> Blank(t.text[0]))
    && (t.kind == Cpp <==> IsChar(t.text, '#'))
    && (t.kind == ParenOpened <==> IsChar(t.text, '('))
    && (t.kind == ParenClosed <==> IsChar(t.text, ')'))
    && (t.kind == SquareOpened <==> IsChar(t.text, '['))
    && (t.kind == SquareClosed <==> IsChar(t.text, ']'))
    && (t.kind == LessThan <==> IsChar(t.text, '<'))
    && (t.kind == GreaterThan <==> IsChar(t.text, '>'))
    && (t.kind == Comma <==> IsChar(t.text, ','))
    && (t.kind == Terminal <==> IsChar(t.text, ';'))
    && (t.kind == Arrow <==> |t.text| == 2 && t.text[0] == '-' && t.text[1] == '>')
  }

  // ---------- Where a token ends ----------

  /** An odd number of backslashes stands in front of position i. */
  predicate Escaped(s: string, i: nat)
    requires i <= |s|
  {
    i > 0 && s[i - 1] == '\\' && !Escaped(s, i - 1)
  }

  /** Position i holds the quote, and no backslash escapes it. */
  predicate EndsAt(body: string, quote: char, i: nat)
    requires i < |body|
  {
    body[i] == quote && !Escaped(body, i)
  }

  /** The text of a token that nothing of rest could have been added to. */
  predicate Whole(text: string, rest: string) {
    text != [] &&
    var c := text[0];
    if Letter(c) then
      (forall i :: 0 < i < |text| ==> InName(text[i])) && (rest != [] ==> !InName(rest[0]))
    else if Digit(c) then WholeNumber(text, rest)
    else if Quote(c) then WholeLiteral(c, text[1..], rest)
    else if Doubling(c) then text == [c, c] || (text == [c] && (rest != [] ==> rest[0] != c))
    else if c == '-' then text == "--" || text == "->" || (text == "-" && (rest != [] ==> rest[0] != '-' && rest[0] != '>'))
    else if c == '/' then text == "/" && rest != [] && rest[0] != '/' && rest[0] != '*'
    else text == [c] && (Single(c) || Blank(c))
  }

  /** Decimal; or a zero with octal digits, 8 among them; or 0x with hexadecimal digits; or a zero alone. */
  predicate WholeNumber(text: string, rest: string)
    requires text != []
  {
    if text[0] != '0' then
      (forall i :: 0 < i < |text| ==> Digit(text[i])) && (rest != [] ==> !Digit(rest[0]))
    else if |text| == 1 then
      rest != [] ==> !('0' <= rest[0] <= '8') && !((rest[0] == 'x' || rest[0] == 'X') && |rest| > 1 && HexDigit(rest[1]))
    else if text[1] == 'x' || text[1] == 'X' then
      |text| > 2 && (forall i :: 1 < i < |text| ==> HexDigit(text[i])) && (rest != [] ==> !HexDigit(rest[0]))
    else
      (forall i :: 0 < i < |text| ==> '0' <= text[i] <= '8') && (rest != [] ==> !('0' <= rest[0] <= '8'))
  }

  /** Up to the first quote that is not escaped, or everything there is. */
  predicate WholeLiteral(quote: char, body: string, rest: string) {
    && (forall i :: 0 <= i < |body| - 1 ==> !EndsAt(body, quote, i))
    && (body == [] || !EndsAt(body, quote, |body| - 1) ==> rest == [])
  }

  /** What the token keeps of its text: at the end of the input a zero is doubled, and the
      backslash that ends an open literal is dropped. */
  function Kept(text: string, rest: string): string
    requires text != []
  {
    if rest != [] then text
    else if text == "0" then "00"
    else if Quote(text[0]) && text[|text| - 1] == '\\' && !Escaped(text[1..], |text| - 2) && |text| > 1 then text[..|text| - 1]
    else text
  }

  // ---------- What is skipped, and what is lost ----------

  /** s begins with a comment of n characters. */
  predicate CommentOf(s: string, n: nat) {
    && n <= |s|
    && if n > 2 && s[0] == '/' && s[1] == '/' then s[n - 1] == '\n' && forall i :: 2 <= i < n - 1 ==> s[i] != '\n'
       else
         n > 3 && s[0] == '/' && s[1] == '*' && s[n - 2] == '*' && s[n - 1] == '/'
         && forall i :: 2 <= i < n - 2 ==> !(s[i] == '*' && s[i + 1] == '/')
  }

  /** A slash with nothing behind it, or a comment without an end. */
  predicate Unended(s: string) {
    && s != [] && s[0] == '/' && (|s| > 1 ==> s[1] == '/' || s[1] == '*')
    && forall n :: 0 <= n <= |s| ==> !CommentOf(s, n)
  }

  /** Blanks, if they are skipped, strays and comments. */
  ghost predicate Skipped(u: string, skipWhite: bool)
    decreases |u|
  {
    || u == []
    || ((Stray(u[0]) || (skipWhite && Blank(u[0]))) && Skipped(u[1..], skipWhite))
    || exists n :: 0 < n <= |u| && CommentOf(u, n) && Skipped(u[n..], skipWhite)
  }

  // ---------- One token ----------

  /** A token is read from s: its text and what is left. */
  predicate ReadsAs(s: string, text: string, lexed: Lexed) {
    && lexed.Lexeme? && s == text + lexed.rest && Whole(text, lexed.rest)
    && lexed.token.text == Kept(text, lexed.rest) && Typed(lexed.token)
  }

  lemma RunIs(c: char, cls: Class, s: string) returns (text: string)
    ensures [c] + s == text + RunRest(cls, s) && text == RunText([c], cls, s) && text != [] && text[0] == c
    ensures forall i :: 0 < i < |text| ==> In(cls, text[i])
    ensures RunRest(cls, s) != [] ==> !In(cls, RunRest(cls, s)[0])
  {
    RunIsLongestPrefix([c], cls, s);
    var n := |s| - |RunRest(cls, s)|;
    text := [c] + s[..n];
    assert s == s[..n] + s[n..];
  }

  /** Numbers and operators have no type. */
  lemma UntypedIs(t: Token)
    requires t.text != [] && (Digit(t.text[0]) || Doubling(t.text[0])) && t.kind == Unknown
    ensures Typed(t)
  {
  }

  lemma NameTyped(t: Token)
    requires t.text != [] && Letter(t.text[0]) && t.kind == Identifier
    ensures Typed(t)
  {
  }

  lemma BlankTyped(t: Token)
    requires t.text != [] && Blank(t.text[0]) && t.kind == WhiteSpace
    ensures Typed(t)
  {
  }

  lemma SingleTyped(c: char, kind: TokenType)
    requires SingleKind(c) == Some(kind)
    ensures Typed(Token([c], kind)) && Single(c)
  {
  }

  lemma WordIs(c: char, s: string) returns (text: string)
    requires Letter(c)
    ensures ReadsAs([c] + s, text, LexWord(EMPTY, c, s))
  {
    assert "" + [c] == [c];
    text := RunIs(c, WordChar, s);
    NameTyped(LexWord(EMPTY, c, s).token);
  }

  lemma DecimalIs(c: char, s: string) returns (text: string)
    requires Digit(c) && c != '0'
    ensures ReadsAs([c] + s, text, LexNumber(EMPTY, c, s))
  {
    assert "" + [c] == [c];
    text := RunIs(c, Decimal, s);
    UntypedIs(LexNumber(EMPTY, c, s).token);
  }

  /** A character that is no backslash, or an escaped pair, escapes nothing behind it. */
  lemma {:induction false} EscapedBehind(s: string, n: nat, i: nat)
    requires n <= i <= |s| && ((n == 1 && s[0] != '\\') || (n == 2 && s[0] == '\\'))
    ensures Escaped(s[n..], i - n) <==> Escaped(s, i)
    decreases i
  {
    if i > n {
      EscapedBehind(s, n, i - 1);
    } else {
      assert Escaped(s, 1) <==> s[0] == '\\';
    }
  }

  /** The part of s that belongs to the body of a literal, and what is kept of it. */
  ghost predicate BodyIs(quote: char, s: string, body: string) {
    && s == body + LiteralRest(quote, s) && WholeLiteral(quote, body, LiteralRest(quote, s))
    && Body(quote, s) == KeptBody(body, LiteralRest(quote, s))
  }

  function KeptBody(body: string, rest: string): string {
    if rest == [] && body != [] && body[|body| - 1] == '\\' && !Escaped(body, |body| - 1) then body[..|body| - 1] else body
  }

  lemma {:induction false} LiteralBody(quote: char, s: string) returns (body: string)
    requires Quote(quote)
    ensures BodyIs(quote, s, body)
    decreases |s|
  {
    if s == [] || (s[0] == '\\' && |s| == 1) {
      body := s;
    } else if s[0] == quote {
      BodyStep(quote, s);
      body := [quote];
    } else {
      BodyStep(quote, s);
      var n := if s[0] == '\\' then 2 else 1;
      var inner := LiteralBody(quote, s[n..]);
      body := s[..n] + inner;
      BodyAhead(quote, s, n, inner, body);
    }
  }

  /** One character or escaped pair in front of a body. */
  ghost predicate Piece(quote: char, body: string, n: nat, inner: string) {
    && n <= |body| && body[n..] == inner && body != [] && body[0] != quote && Quote(quote)
    && ((n == 1 && body[0] != '\\') || (n == 2 && body[0] == '\\'))
  }

  lemma EndsBehind(quote: char, body: string, n: nat, inner: string, i: nat)
    requires Piece(quote, body, n, inner) && i < |body|
    ensures EndsAt(body, quote, i) <==> i >= n && EndsAt(inner, quote, i - n)
    ensures i >= n ==> (Escaped(body, i) <==> Escaped(inner, i - n))
  {
    if i >= n {
      EscapedBehind(body, n, i);
      assert body[i] == inner[i - n];
    } else if i == 1 {
      assert Escaped(body, 1);
    }
  }

  lemma WholeBehind(quote: char, body: string, n: nat, inner: string, rest: string)
    requires Piece(quote, body, n, inner) && WholeLiteral(quote, inner, rest)
    ensures WholeLiteral(quote, body, rest)
  {
    forall i | 0 <= i < |body| - 1 ensures !EndsAt(body, quote, i) {
      EndsBehind(quote, body, n, inner, i);
    }
    EndsBehind(quote, body, n, inner, |body| - 1);
  }

  lemma KeptBehind(quote: char, body: string, n: nat, inner: string, rest: string)
    requires Piece(quote, body, n, inner)
    ensures KeptBody(body, rest) == body[..n] + KeptBody(inner, rest)
  {
    var last := |body| - 1;
    EndsBehind(quote, body, n, inner, last);
    assert body == body[..n] + inner;
    if inner == [] {
      assert last < n && (n == 2 ==> Escaped(body, 1));
    } else {
      assert body[last] == inner[|inner| - 1];
      assert body[..last] == body[..n] + inner[..|inner| - 1];
    }
  }

  lemma Rejoined(s: string, n: nat, inner: string, rest: string, body: string)
    requires 0 < n <= |s| && s[n..] == inner + rest && body == s[..n] + inner
    ensures s == body + rest && body[n..] == inner && body[..n] == s[..n] && body[0] == s[0]
  {
    assert s == s[..n] + s[n..];
  }

  lemma BodyAhead(quote: char, s: string, n: nat, inner: string, body: string)
    requires Quote(quote) && s != [] && s[0] != quote && n <= |s| && n == (if s[0] == '\\' then 2 else 1)
    requires LiteralRest(quote, s) == LiteralRest(quote, s[n..]) && Body(quote, s) == s[..n] + Body(quote, s[n..])
    requires BodyIs(quote, s[n..], inner) && body == s[..n] + inner
    ensures BodyIs(quote, s, body)
  {
    var rest := LiteralRest(quote, s);
    Rejoined(s, n, inner, rest, body);
    WholeBehind(quote, body, n, inner, rest);
    KeptBehind(quote, body, n, inner, rest);
  }

  lemma Assoc(v: string, u: string, behind: string)
    ensures v + (u + behind) == (v + u) + behind
  {
  }

  lemma QuoteTyped(t: Token, quote: char)
    requires Quote(quote) && t.text != [] && t.text[0] == quote && t.kind == QuoteKind(quote)
    ensures Typed(t)
  {
  }

  lemma QuotedBody(quote: char, body: string, text: string, rest: string)
    requires Quote(quote) && text == [quote] + body && WholeLiteral(quote, body, rest)
    ensures Whole(text, rest) && Kept(text, rest) == [quote] + KeptBody(body, rest)
  {
    assert text[1..] == body;
    if body != [] {
      assert text[|text| - 1] == body[|body| - 1] && text[..|text| - 1] == [quote] + body[..|body| - 1];
    }
  }

  lemma LiteralIs(quote: char, s: string) returns (text: string)
    requires Quote(quote)
    ensures ReadsAs([quote] + s, text, LexLiteral(EMPTY, quote, s))
  {
    var body := LiteralBody(quote, s);
    var token, rest := LexLiteral(EMPTY, quote, s).token, LiteralRest(quote, s);
    LiteralIsBody("" + [quote], quote, s);
    text := [quote] + body;
    QuotedBody(quote, body, text, rest);
    QuoteTyped(token, quote);
    Assoc([quote], body, rest);
    assert token.text == [quote] + KeptBody(body, rest);
  }

  /** A zero, n characters behind it, and then a run. */
  lemma ZeroRun(s: string, cls: Class, pre: string, tail: string) returns (text: string)
    requires pre != [] && pre[0] == '0' && "0" + s == pre + tail
    ensures var rest := RunRest(cls, tail);
            && "0" + s == text + rest && text == RunText(pre, cls, tail)
            && |text| >= |pre| && text[..|pre|] == pre && text[0] == '0'
            && (forall i :: |pre| <= i < |text| ==> In(cls, text[i]))
            && (rest != [] ==> !In(cls, rest[0]))
  {
    RunIsLongestPrefix(pre, cls, tail);
    var run, rest := tail[..|tail| - |RunRest(cls, tail)|], RunRest(cls, tail);
    text := pre + run;
    assert tail == run + rest;
    assert forall i :: |pre| <= i < |text| ==> text[i] == run[i - |pre|];
  }

  lemma OctalIs(s: string) returns (text: string)
    requires s != [] && In(Octal, s[0])
    ensures ReadsAs("0" + s, text, LexZero(EMPTY.(text := "0"), s))
  {
    var pre := "0" + [s[0]];
    assert "0" + s == pre + s[1..];
    text := ZeroRun(s, Octal, pre, s[1..]);
    assert text[1] == pre[1];
    UntypedIs(LexZero(EMPTY.(text := "0"), s).token);
  }

  lemma HexIs(s: string) returns (text: string)
    requires |s| >= 2 && (s[0] == 'x' || s[0] == 'X') && In(Hex, s[1])
    ensures ReadsAs("0" + s, text, LexZero(EMPTY.(text := "0"), s))
  {
    var pre := "0" + [s[0]] + [s[1]];
    assert "0" + s == pre + s[2..];
    text := ZeroRun(s, Hex, pre, s[2..]);
    assert text[1] == pre[1] && text[2] == pre[2];
    UntypedIs(LexZero(EMPTY.(text := "0"), s).token);
  }

  lemma ZeroIs(s: string) returns (text: string)
    ensures ReadsAs("0" + s, text, LexNumber(EMPTY, '0', s))
  {
    assert "" + ['0'] == "0";
    if s != [] && In(Octal, s[0]) {
      text := OctalIs(s);
    } else if |s| >= 2 && (s[0] == 'x' || s[0] == 'X') && In(Hex, s[1]) {
      text := HexIs(s);
    } else {
      text := "0";
      assert "0" + ['0'] == "00";
      UntypedIs(LexNumber(EMPTY, '0', s).token);
    }
  }

  lemma OpIs(op: char, s: string) returns (text: string)
    requires Doubling(op)
    ensures ReadsAs([op] + s, text, LexOp(EMPTY, op, s))
  {
    assert "" + [op] == [op] && [op] + [op] == [op, op];
    text := if s != [] && s[0] == op then [op, op] else [op];
    UntypedIs(Token(text, Unknown));
  }

  lemma MinusTyped()
    ensures Typed(Token("->", Arrow)) && Typed(Token("--", Unknown)) && Typed(Token("-", Unknown))
  {
  }

  lemma MinusIs(s: string) returns (text: string)
    ensures ReadsAs("-" + s, text, LexMinus(EMPTY, s))
  {
    assert "" + ['-'] == "-" && "-" + ['-'] == "--" && "-" + ['>'] == "->";
    text := if s != [] && s[0] == '>' then "->" else if s != [] && s[0] == '-' then "--" else "-";
    MinusTyped();
  }

  lemma SingleIs(c: char, s: string)
    requires IsSpace(c) || SingleKind(c).Some?
    ensures ReadsAs([c] + s, [c], LexFrom(EMPTY, c, s))
  {
    assert "" + [c] == [c];
    if IsSpace(c) {
      BlankTyped(Token([c], WhiteSpace));
    } else {
      SingleTyped(c, SingleKind(c).value);
    }
    WholeSingle(c, s);
  }

  lemma WholeSingle(c: char, rest: string)
    requires Single(c) || Blank(c)
    ensures Whole([c], rest) && Kept([c], rest) == [c]
  {
  }

  /** A character that begins no comment is stray exactly if no token begins with it. */
  lemma BeginsOrStray(c: char, s: string)
    requires c != '/'
    ensures LexFrom(EMPTY, c, s).End? <==> Stray(c)
  {
  }

  /** The token that begins with a character. */
  lemma LexFromIs(c: char, s: string) returns (text: string)
    requires c != '/' && !Stray(c)
    ensures ReadsAs([c] + s, text, LexFrom(EMPTY, c, s))
  {
    if IsSpace(c) || SingleKind(c).Some? {
      SingleIs(c, s);
      text := [c];
    } else if c == '0' {
      text := ZeroIs(s);
    } else if IsDigit(c) {
      text := DecimalIs(c, s);
    } else if IsAlpha(c) {
      text := WordIs(c, s);
    } else if IsQuote(c) {
      text := LiteralIs(c, s);
    } else if IsDoubling(c) {
      text := OpIs(c, s);
    } else {
      text := MinusIs(s);
    }
  }

  // ---------- Comments ----------

  lemma {:induction false} NewlineAt(s: string) returns (k: nat)
    ensures match AfterNewline(s)
            case None => forall i :: 0 <= i < |s| ==> s[i] != '\n'
            case Some(rest) => k < |s| && s[k] == '\n' && rest == s[k + 1..] && forall i :: 0 <= i < k ==> s[i] != '\n'
    decreases |s|
  {
    k := 0;
    if s != [] && s[0] != '\n' {
      var k' := NewlineAt(s[1..]);
      k := k' + 1;
      assert forall i :: 0 < i < |s| ==> s[i] == s[1..][i - 1];
    }
  }

  predicate ClosesAt(s: string, i: nat) { i + 2 <= |s| && s[i] == '*' && s[i + 1] == '/' }

  lemma {:induction false} CloseAt(s: string) returns (k: nat)
    ensures match AfterClose(s)
            case None => forall i: nat :: !ClosesAt(s, i)
            case Some(rest) => ClosesAt(s, k) && rest == s[k + 2..] && forall i: nat :: i < k ==> !ClosesAt(s, i)
    decreases |s|
  {
    k := 0;
    if |s| >= 2 && !ClosesAt(s, 0) {
      var k' := CloseAt(s[1..]);
      k := k' + 1;
      forall i: nat | 0 < i ensures ClosesAt(s, i) <==> ClosesAt(s[1..], i - 1) {
      }
    }
  }

  /** What a slash begins. */
  lemma CommentIs(s: string) returns (n: nat)
    requires s != [] && s[0] == '/'
    ensures match SkipComment(s[1..])
            case Unclosed => Unended(s)
            case Skipped(after) => 0 < n <= |s| && CommentOf(s, n) && after == s[n..]
            case NotComment => |s| > 1 && s[1] != '/' && s[1] != '*'
  {
    n := 0;
    if |s| > 1 && s[1] == '/' {
      n := LineComment(s, s[2..]);
    } else if |s| > 1 && s[1] == '*' {
      n := BlockComment(s, s[2..]);
    }
  }

  lemma LineComment(s: string, tail: string) returns (n: nat)
    requires |s| > 1 && s[0] == '/' && s[1] == '/' && tail == s[2..]
    ensures match AfterNewline(tail)
            case None => Unended(s)
            case Some(after) => 0 < n <= |s| && CommentOf(s, n) && after == s[n..]
  {
    var k := NewlineAt(tail);
    n := k + 3;
    assert forall i :: 2 <= i < |s| ==> s[i] == tail[i - 2];
  }

  lemma BlockComment(s: string, tail: string) returns (n: nat)
    requires |s| > 1 && s[0] == '/' && s[1] == '*' && tail == s[2..]
    ensures match AfterClose(tail)
            case None => Unended(s)
            case Some(after) => 0 < n <= |s| && CommentOf(s, n) && after == s[n..]
  {
    var k := CloseAt(tail);
    n := k + 4;
    forall i | 2 <= i < |s| - 1 ensures s[i] == '*' && s[i + 1] == '/' <==> ClosesAt(tail, i - 2) {
    }
  }

  // ---------- One call of get_token ----------

  /** u is skipped, and text is the token read behind it, or what is lost at the end. */
  ghost predicate LexedAs(s: string, skipWhite: bool, u: string, text: string, lexed: Lexed) {
    && Skipped(u, skipWhite)
    && match lexed
       case End => s == u + text && (text == [] || Unended(text))
       case Lexeme(_, rest) => s == u + (text + rest) && ReadsAs(text + rest, text, lexed) && !(skipWhite && Blank(text[0]))
  }

  lemma SkippedAhead(v: string, u: string, skipWhite: bool)
    requires Skipped(u, skipWhite) && v != []
    requires (|v| == 1 && (Stray(v[0]) || (skipWhite && Blank(v[0])))) || CommentOf(v, |v|)
    ensures Skipped(v + u, skipWhite)
  {
    var all := v + u;
    assert all[|v|..] == u;
    if CommentOf(v, |v|) {
      assert CommentOf(all, |v|);
    }
  }

  lemma LexedBehind(v: string, tail: string, skipWhite: bool, u: string, text: string, lexed: Lexed)
    requires LexedAs(tail, skipWhite, u, text, lexed) && v != []
    requires (|v| == 1 && (Stray(v[0]) || (skipWhite && Blank(v[0])))) || CommentOf(v, |v|)
    ensures LexedAs(v + tail, skipWhite, v + u, text, lexed)
  {
    SkippedAhead(v, u, skipWhite);
    Assoc(v, u, if lexed.End? then text else text + lexed.rest);
  }

  /** On every input: what get_token skips, reads and leaves. */
  lemma {:induction false} LexOneIs(s: string, skipWhite: bool) returns (u: string, text: string)
    ensures LexedAs(s, skipWhite, u, text, LexOne(EMPTY, s, skipWhite))
    decreases |s|
  {
    if s == [] {
      u, text := [], [];
    } else if s[0] == '/' {
      u, text := SlashIs(s, skipWhite);
    } else if Stray(s[0]) || (skipWhite && Blank(s[0])) {
      BeginsOrStray(s[0], s[1..]);
      u, text := LexOneIs(s[1..], skipWhite);
      LexedBehind([s[0]], s[1..], skipWhite, u, text, LexOne(EMPTY, s[1..], skipWhite));
      assert [s[0]] + s[1..] == s;
      u := [s[0]] + u;
    } else {
      BeginsOrStray(s[0], s[1..]);
      text := LexFromIs(s[0], s[1..]);
      u := [];
      assert [s[0]] + s[1..] == s;
      var rest := LexFrom(EMPTY, s[0], s[1..]).rest;
      assert [] + (text + rest) == text + rest && text[0] == s[0];
    }
  }

  lemma CommentPrefix(s: string, n: nat)
    requires n <= |s| && CommentOf(s, n)
    ensures CommentOf(s[..n], n)
  {
  }

  lemma CommentSkipped(s: string, n: nat, skipWhite: bool, u: string, text: string, lexed: Lexed)
    requires 0 < n <= |s| && CommentOf(s, n) && LexedAs(s[n..], skipWhite, u, text, lexed)
    ensures LexedAs(s, skipWhite, s[..n] + u, text, lexed)
  {
    CommentPrefix(s, n);
    LexedBehind(s[..n], s[n..], skipWhite, u, text, lexed);
    assert s[..n] + s[n..] == s;
  }

  lemma {:induction false} SlashIs(s: string, skipWhite: bool) returns (u: string, text: string)
    requires s != [] && s[0] == '/'
    ensures LexedAs(s, skipWhite, u, text, LexOne(EMPTY, s, skipWhite))
    decreases |s|, 0
  {
    var n := CommentIs(s);
    match SkipComment(s[1..])
    case Unclosed =>
      u, text := [], s;
      LostIs(s, skipWhite);
    case Skipped(after) =>
      u, text := LexOneIs(after, skipWhite);
      CommentSkipped(s, n, skipWhite, u, text, LexOne(EMPTY, after, skipWhite));
      u := s[..n] + u;
    case NotComment =>
      u, text := [], "/";
      SlashToken(s, s[1..], skipWhite);
      assert "" + ['/'] == "/";
  }

  lemma LostIs(s: string, skipWhite: bool)
    requires Unended(s)
    ensures LexedAs(s, skipWhite, [], s, End)
  {
    assert [] + s == s;
  }

  lemma SlashToken(s: string, rest: string, skipWhite: bool)
    requires rest != [] && rest[0] != '/' && rest[0] != '*' && s != [] && s[0] == '/' && s[1..] == rest
    ensures LexedAs(s, skipWhite, [], "/", Lexeme(Token("/", Unknown), rest))
  {
    assert "/" + rest == s && [] + s == s;
  }

  // ---------- The whole input ----------

  /** A token's text with what is skipped in front of it. */
  datatype Cut = Cut(skipped: string, text: string)

  /**
   The input is, character by character, what is skipped and the texts of the tokens by turns, and
   at the end what is skipped or lost.
   */
  ghost predicate Reads(s: string, skipWhite: bool, cuts: seq<Cut>, last: Cut, ts: seq<Token>)
    decreases |cuts|
  {
    if cuts == [] then
      ts == [] && s == last.skipped + last.text && Skipped(last.skipped, skipWhite) && (last.text == [] || Unended(last.text))
    else
      var c := cuts[0];
      var n := |c.skipped| + |c.text|;
      && n <= |s| && ts != [] && s[..n] == c.skipped + c.text && Skipped(c.skipped, skipWhite)
      && Whole(c.text, s[n..]) && !(skipWhite && Blank(c.text[0]))
      && ts[0].text == Kept(c.text, s[n..]) && Typed(ts[0])
      && Reads(s[n..], skipWhite, cuts[1..], last, ts[1..])
  }

  /** On every input the tokens are read like that. */
  lemma {:induction false} TokensAre(s: string, skipWhite: bool) returns (cuts: seq<Cut>, last: Cut)
    ensures Reads(s, skipWhite, cuts, last, Tokens(s, skipWhite))
    decreases |s|
  {
    var u, text := LexOneIs(s, skipWhite);
    match LexOne(EMPTY, s, skipWhite)
    case End =>
      cuts, last := [], Cut(u, text);
    case Lexeme(token, rest) =>
      cuts, last := TokensAre(rest, skipWhite);
      ReadsAhead(s, skipWhite, u, text, token, rest, cuts, last, Tokens(rest, skipWhite));
      cuts := [Cut(u, text)] + cuts;
  }

  lemma ReadsAhead(s: string, skipWhite: bool, u: string, text: string, token: Token, rest: string,
                   cuts: seq<Cut>, last: Cut, ts: seq<Token>)
    requires LexedAs(s, skipWhite, u, text, Lexeme(token, rest)) && Reads(rest, skipWhite, cuts, last, ts)
    ensures Reads(s, skipWhite, [Cut(u, text)] + cuts, last, [token] + ts)
  {
    var all, c := [Cut(u, text)] + cuts, Cut(u, text);
    var n := |u| + |text|;
    assert all[0] == c && all[1..] == cuts && ([token] + ts)[1..] == ts;
    Assoc(u, text, rest);
    assert s[..n] == u + text && s[n..] == rest;
    assert Suffix(text, rest) == rest;
  }

  function Suffix(text: string, rest: string): string { (text + rest)[|text|..] }

  /** Every token has the type that its text says. */
  lemma {:induction false} TokensTyped(s: string, skipWhite: bool)
    ensures forall t :: t in Tokens(s, skipWhite) ==> Typed(t)
    decreases |s|
  {
    var u, text := LexOneIs(s, skipWhite);
    if LexOne(EMPTY, s, skipWhite).Lexeme? {
      TokensTyped(LexOne(EMPTY, s, skipWhite).rest, skipWhite);
    }
  }
}
