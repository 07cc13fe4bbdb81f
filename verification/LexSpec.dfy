/**
 Maximal-munch meaning of the kernel-source lexer (src/utilities/kernelscan.c).

 Everything here is a function of the logical input, the characters that are still
 to be read.  `LexOne` says what one call of get_token delivers and what it leaves;
 `Tokens` is the whole token sequence.  End of input is modelled as the code treats
 it, including the final `0` that becomes `00` and the final `/` that is lost.
 */
module LexSpec {
  import opened Wrappers

  // TOKEN_NUMBER is declared by the code but no lexer rule ever assigns it.
  datatype TokenType =
    | Unknown
    | LiteralString
    | LiteralChar
    | Identifier
    | ParenOpened
    | ParenClosed
    | SquareOpened
    | SquareClosed
    | Cpp
    | WhiteSpace
    | LessThan
    | GreaterThan
    | Comma
    | Arrow
    | Terminal

  datatype Token = Token(text: string, kind: TokenType)

  // ---------- Character classes (the "C" locale) ----------

  /** The classes whose longest run makes up the rest of a number or an identifier. */
  datatype Class = Decimal | Octal | Hex | WordChar

  predicate IsDigit(c: char) { '0' <= c <= '9' }

  predicate IsAlpha(c: char) { 'a' <= c <= 'z' || 'A' <= c <= 'Z' }

  predicate In(cls: Class, c: char) {
    match cls
    case Decimal => IsDigit(c)
    case Octal => '0' <= c <= '8'  // the code lets 8 through
    case Hex => IsDigit(c) || 'a' <= c <= 'f' || 'A' <= c <= 'F'
    case WordChar => IsAlpha(c) || IsDigit(c) || c == '_'
  }

  predicate IsSpace(c: char) { c == ' ' || c == '\t' || c == '\r' || c == '\n' || c == '\\' }

  predicate IsQuote(c: char) { c == '\"' || c == '\'' }

  function QuoteKind(c: char): TokenType { if c == '\"' then LiteralString else LiteralChar }

  /** `+`, `=`, `|`, `&`: operators that may be doubled. */
  predicate IsDoubling(c: char) { c == '+' || c == '=' || c == '|' || c == '&' }

  /** The type of a character that is a token on its own, or None. */
  function SingleKind(c: char): Option<TokenType> {
    if c == '#' then Some(Cpp)
    else if c == '(' then Some(ParenOpened)
    else if c == ')' then Some(ParenClosed)
    else if c == '[' then Some(SquareOpened)
    else if c == ']' then Some(SquareClosed)
    else if c == '<' then Some(LessThan)
    else if c == '>' then Some(GreaterThan)
    else if c == ',' then Some(Comma)
    else if c == ';' then Some(Terminal)
    else if c in "{}:~?*%!." then Some(Unknown)
    else None
  }

  // ---------- Longest runs ----------

  /** `text` extended with the longest prefix of s inside cls. */
  function RunText(text: string, cls: Class, s: string): string
    decreases |s|
  {
    if s == [] || !In(cls, s[0]) then text else RunText(text + [s[0]], cls, s[1..])
  }

  /** What follows that prefix. */
  function RunRest(cls: Class, s: string): (r: string)
    ensures |r| <= |s|
  {
    if s == [] || !In(cls, s[0]) then s else RunRest(cls, s[1..])
  }

  // ---------- Comments ----------

  /** What follows a `/`: a comment that is skipped, one that never closes, or none. */
  datatype Comment = Unclosed | Skipped(rest: string) | NotComment

  function AfterNewline(s: string): (r: Option<string>)
    ensures r.Some? ==> |r.value| < |s|
  {
    if s == [] then None
    else if s[0] == '\n' then Some(s[1..])
    else AfterNewline(s[1..])
  }

  function AfterClose(s: string): (r: Option<string>)
    ensures r.Some? ==> |r.value| < |s|
  {
    if |s| < 2 then None
    else if s[0] == '*' && s[1] == '/' then Some(s[2..])
    else AfterClose(s[1..])
  }

  function SkipComment(s: string): (r: Comment)
    ensures r.Skipped? ==> |r.rest| < |s|
  {
    if s == [] then Unclosed
    else if s[0] != '/' && s[0] != '*' then NotComment
    else
      match if s[0] == '/' then AfterNewline(s[1..]) else AfterClose(s[1..])
      case None => Unclosed
      case Some(rest) => Skipped(rest)
  }

  // ---------- Literals ----------

  /** `text` extended with the part of s that belongs to a literal opened by `quote`: up to
      the first quote that no backslash escapes.  A backslash at the very end is dropped. */
  function LiteralText(text: string, quote: char, s: string): string
    decreases |s|
  {
    if s == [] then text
    else if s[0] == '\\' then
      if |s| == 1 then text else LiteralText(text + [s[0]] + [s[1]], quote, s[2..])
    else if s[0] == quote then text + [quote]
    else LiteralText(text + [s[0]], quote, s[1..])
  }

  /** What follows the literal. */
  function LiteralRest(quote: char, s: string): (r: string)
    ensures |r| <= |s|
  {
    if s == [] then []
    else if s[0] == '\\' then
      if |s| == 1 then [] else LiteralRest(quote, s[2..])
    else if s[0] == quote then s[1..]
    else LiteralRest(quote, s[1..])
  }

  /** The closing quote is found before the input ends. */
  predicate LiteralCloses(quote: char, s: string) {
    if s == [] then false
    else if s[0] == '\\' then |s| >= 2 && LiteralCloses(quote, s[2..])
    else s[0] == quote || LiteralCloses(quote, s[1..])
  }

  predicate IsLiteral(t: Token) { t.kind == LiteralString || t.kind == LiteralChar }

  /** A literal token that ends in its closing quote, or any other token. */
  predicate Closed(t: Token) {
    IsLiteral(t) ==> t.text != [] && LiteralCloses(t.text[0], t.text[1..])
  }

  predicate AllClosed(ts: seq<Token>) {
    forall i :: 0 <= i < |ts| ==> Closed(ts[i])
  }

  // ---------- One token ----------

  datatype Lexed = End | Lexeme(token: Token, rest: string)

  const EMPTY := Token("", Unknown)

  /** A number whose leading zero is already in the token z; s is what follows the zero. */
  function LexZero(z: Token, s: string): (r: Lexed)
    ensures r.Lexeme? && |r.rest| <= |s|
  {
    if s == [] then
      Lexeme(z.(text := z.text + ['0']), [])
    else if In(Octal, s[0]) then
      Lexeme(z.(text := RunText(z.text + [s[0]], Octal, s[1..])), RunRest(Octal, s[1..]))
    else if (s[0] == 'x' || s[0] == 'X') && |s| >= 2 && In(Hex, s[1]) then
      Lexeme(z.(text := RunText(z.text + [s[0]] + [s[1]], Hex, s[2..])), RunRest(Hex, s[2..]))
    else
      Lexeme(z, s)
  }

  /** first is the digit already taken from the input, s what follows it. */
  function LexNumber(t: Token, first: char, s: string): (r: Lexed)
    ensures r.Lexeme? && |r.rest| <= |s|
  {
    if first == '0' then LexZero(t.(text := t.text + ['0']), s)
    else Lexeme(t.(text := RunText(t.text + [first], Decimal, s)), RunRest(Decimal, s))
  }

  function LexWord(t: Token, first: char, s: string): (r: Lexed)
    ensures r.Lexeme? && |r.rest| <= |s|
  {
    Lexeme(Token(RunText(t.text + [first], WordChar, s), Identifier), RunRest(WordChar, s))
  }

  function LexLiteral(t: Token, quote: char, s: string): (r: Lexed)
    ensures r.Lexeme? && |r.rest| <= |s|
  {
    Lexeme(Token(LiteralText(t.text + [quote], quote, s), QuoteKind(quote)), LiteralRest(quote, s))
  }

  function LexOp(t: Token, op: char, s: string): (r: Lexed)
    ensures r.Lexeme? && |r.rest| <= |s|
  {
    if s != [] && s[0] == op then Lexeme(t.(text := t.text + [op] + [op]), s[1..])
    else Lexeme(t.(text := t.text + [op]), s)
  }

  function LexMinus(t: Token, s: string): (r: Lexed)
    ensures r.Lexeme? && |r.rest| <= |s|
  {
    if s != [] && s[0] == '>' then Lexeme(Token(t.text + ['-'] + ['>'], Arrow), s[1..])
    else LexOp(t, '-', s)
  }

  /** The token that the character c begins, s being what follows it; End when c begins none
      (a leading underscore and every unlisted character). */
  function LexFrom(t: Token, c: char, s: string): (r: Lexed)
    ensures r.Lexeme? ==> |r.rest| <= |s|
  {
    if IsSpace(c) then Lexeme(Token(t.text + [c], WhiteSpace), s)
    else if SingleKind(c).Some? then
      Lexeme(Token(t.text + [c], if SingleKind(c) == Some(Unknown) then t.kind else SingleKind(c).value), s)
    else if IsDigit(c) then LexNumber(t, c, s)
    else if IsAlpha(c) then LexWord(t, c, s)
    else if IsQuote(c) then LexLiteral(t, c, s)
    else if IsDoubling(c) then LexOp(t, c, s)
    else if c == '-' then LexMinus(t, s)
    else End
  }

  /** What one call of get_token makes of the token t and the logical input s: the token with
      the lexeme appended, its type assigned if the lexeme has one, and the input left behind
      it.  Every token consumes input. */
  function LexOne(t: Token, s: string, skipWhite: bool): (r: Lexed)
    ensures r.Lexeme? ==> |r.rest| < |s|
    decreases |s|
  {
    if s == [] then End
    else
      var c, rest := s[0], s[1..];
      if c == '/' then
        match SkipComment(rest)
        case Unclosed => End
        case Skipped(after) => LexOne(t, after, skipWhite)
        case NotComment => Lexeme(t.(text := t.text + [c]), rest)
      else if (IsSpace(c) && skipWhite) || LexFrom(t, c, rest).End? then LexOne(t, rest, skipWhite)
      else LexFrom(t, c, rest)
  }

  /** All tokens of the input, each gathered into a cleared token. */
  function Tokens(s: string, skipWhite: bool): seq<Token>
    decreases |s|
  {
    match LexOne(EMPTY, s, skipWhite)
    case End => []
    case Lexeme(token, rest) => [token] + Tokens(rest, skipWhite)
  }
}
