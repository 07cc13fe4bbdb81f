/**
 The kernelscan lexer in its own form: a parser with a push-back list over a file and a
 token with a growable buffer, both changed in place (src/utilities/kernelscan.c).
 Each routine is proved against the maximal-munch functions of LexSpec.
 */
module Lexer {
  import opened LexSpec
  import opened Wrappers

  /** What get_next returns: a character or EOF. */
  datatype Read = Eof | Got(ch: char)

  // ---------- Input with push-back ----------

  predicate NoEof(chars: seq<Read>) {
    forall i :: 0 <= i < |chars| ==> chars[i].Got?
  }

  /** The characters on a push-back list, next one first. */
  function Unread(chars: seq<Read>): string {
    if chars == [] || chars[0].Eof? then [] else [chars[0].ch] + Unread(chars[1..])
  }

  class Parser {
    const fp: string              // the file
    var filePos: nat              // characters of it already read
    var skipWhiteSpace: bool
    var getChars: seq<Read>       // ungot characters, next one first
    ghost var rest: string        // logical input: pushed-back characters, then the rest of the file

    /** EOF is pushed back only on an empty list at the end of the file. */
    ghost predicate Valid()
      reads this
    {
      && filePos <= |fp|
      && (NoEof(getChars) || (getChars == [Eof] && filePos == |fp|))
      && rest == Unread(getChars) + fp[filePos..]
    }

    constructor (fp: string, skipWhiteSpace: bool)
      ensures Valid() && getChars == [] && rest == fp && this.skipWhiteSpace == skipWhiteSpace
    {
      this.fp := fp;
      this.filePos := 0;
      this.skipWhiteSpace := skipWhiteSpace;
      this.getChars := [];
      this.rest := fp;
    }

    method GetNext() returns (r: Read)
      requires Valid()
      modifies this`filePos, this`getChars, this`rest
      ensures Valid() && NoEof(getChars)
      ensures old(rest) == [] ==> r.Eof? && rest == []
      ensures old(rest) != [] ==> r == Got(old(rest)[0]) && rest == old(rest)[1..]
      ensures |getChars| == if old(getChars) == [] then 0 else old(|getChars|) - 1
    {
      rest := if rest == [] then [] else rest[1..];
      if getChars != [] {
        r := getChars[0];
        getChars := getChars[1..];
        return;
      }
      if filePos == |fp| {
        return Eof;
      }
      r := Got(fp[filePos]);
      filePos := filePos + 1;
    }

    method UngetNext(r: Read)
      requires Valid() && NoEof(getChars)
      requires r.Eof? ==> rest == []
      modifies this`getChars, this`rest
      ensures Valid()
      ensures rest == (if r.Got? then [r.ch] else []) + old(rest)
      ensures r.Got? ==> NoEof(getChars)
      ensures |getChars| == old(|getChars|) + 1
    {
      rest := (if r.Got? then [r.ch] else []) + rest;
      getChars := [r] + getChars;
      assert getChars[1..] == old(getChars);
    }
  }

  // ---------- Token buffer ----------

  /** The C string held in a buffer: everything before the first NUL. */
  function CStr(s: string): (r: string)
    ensures |r| <= |s| && r == s[..|r|] && '\0' !in r
    ensures |r| < |s| ==> s[|r|] == '\0'
  {
    if s == [] || s[0] == '\0' then [] else [s[0]] + CStr(s[1..])
  }

  /** A literal without its first and last character. */
  function StripQuotes(s: string): string
    requires s != []
  {
    if |s| == 1 then [] else s[1..|s| - 1]
  }

  const SLOP := 1024

  class TokenBuffer {
    var token: array<char>
    var ptr: nat
    var kind: TokenType
    ghost var text: string        // what has been gathered so far

    ghost predicate Valid()
      reads this, token
    {
      ptr < token.Length && token[ptr] == '\0' && token[..ptr] == text
    }

    constructor ()
      ensures Valid() && text == [] && kind == Unknown && fresh(token)
    {
      token := new char[SLOP];
      ptr := 0;
      kind := Unknown;
      text := [];
      new;
      token[0] := '\0';
    }

    method Clear()
      requires Valid()
      modifies this`ptr, this`text, this`kind, token
      ensures Valid() && text == [] && kind == Unknown
    {
      ptr := 0;
      kind := Unknown;
      text := [];
      token[ptr] := '\0';
    }

    /** Append one character, growing the buffer by another 1K when it is full. */
    method Append(ch: char)
      requires Valid()
      modifies this`ptr, this`text, this`token, token
      ensures Valid() && (token == old(token) || fresh(token))
      ensures text == old(text) + [ch]
    {
      text := text + [ch];
      if ptr < token.Length - 1 {
        token[ptr] := ch;
        ptr := ptr + 1;
        token[ptr] := '\0';
      } else {
        var bigger := new char[token.Length + SLOP];
        forall i | 0 <= i < token.Length {
          bigger[i] := token[i];
        }
        token := bigger;
        token[ptr] := ch;
        ptr := ptr + 1;
        token[ptr] := '\0';
      }
    }

    /** strlen of the buffer. */
    method Strlen() returns (n: nat)
      requires Valid()
      ensures n == |CStr(text)| && n <= ptr && token[n] == '\0'
      ensures CStr(text) == token[..n]
    {
      n := 0;
      while token[n] != '\0'
        invariant n <= ptr
        invariant '\0' !in token[..n]
        decreases ptr - n
      {
        n := n + 1;
      }
      CStrIs(text, n);
      assert text[..n] == token[..n];
    }

    /** The buffer as a C string. */
    method CString() returns (s: string)
      requires Valid()
      ensures s == CStr(text)
    {
      var n := Strlen();
      s := token[..n];
    }

    /** Strip the quotes off a literal in place. */
    method LiteralStripQuotes()
      requires Valid() && CStr(text) != []
      modifies this`text, token
      ensures Valid()
      ensures CStr(text) == StripQuotes(old(CStr(text)))
    {
      ghost var before := CStr(text);
      var len := Strlen();
      token[len - 1] := '\0';
      forall i | 0 <= i < len - 1 {
        token[i] := token[i + 1];
      }
      ghost var k := if len == 1 then 0 else len - 2;
      text := token[..ptr];
      assert forall i :: 0 <= i < k ==> text[i] == before[i + 1];
      assert text[..k] == StripQuotes(before);
      CStrIs(text, k);
    }
  }

  lemma CStrIs(s: string, n: nat)
    requires n <= |s|
    requires forall i :: 0 <= i < n ==> s[i] != '\0'
    requires n < |s| ==> s[n] == '\0'
    ensures CStr(s) == s[..n]
  {
    if n > 0 {
      CStrIs(s[1..], n - 1);
      assert CStr(s) == [s[0]] + CStr(s[1..]);
      assert s[..n] == [s[0]] + s[1..][..n - 1];
    }
  }

  // ---------- Lexing ----------

  /** Return codes of skip_comments. */
  datatype CommentResult = CommentEof | CommentFound | CommentOk

  method SkipComments(p: Parser) returns (ret: CommentResult)
    requires p.Valid() && |p.getChars| <= 1
    modifies p`filePos, p`getChars, p`rest
    ensures p.Valid() && |p.getChars| <= 1
    ensures match SkipComment(old(p.rest))
            case Unclosed => ret == CommentEof && p.rest == []
            case Skipped(rest) => ret == CommentFound && p.rest == rest
            case NotComment => ret == CommentOk && p.rest == old(p.rest)
  {
    var nextch := p.GetNext();
    if nextch.Eof? {
      return CommentEof;
    }
    if nextch.ch == '/' {
      ret := SkipLine(p);
      return;
    }
    if nextch.ch == '*' {
      ret := SkipBlock(p);
      return;
    }
    p.UngetNext(nextch);
    return CommentOk;
  }

  /** The rest of a line comment. */
  method SkipLine(p: Parser) returns (ret: CommentResult)
    requires p.Valid() && p.getChars == []
    modifies p`filePos, p`getChars, p`rest
    ensures p.Valid() && p.getChars == []
    ensures match AfterNewline(old(p.rest))
            case None => ret == CommentEof && p.rest == []
            case Some(rest) => ret == CommentFound && p.rest == rest
  {
    var ch := p.GetNext();
    if ch.Eof? {
      return CommentEof;
    }
    while ch != Got('\n')
      invariant p.Valid() && p.getChars == [] && ch.Got?
      invariant AfterNewline(old(p.rest)) == if ch == Got('\n') then Some(p.rest) else AfterNewline(p.rest)
      decreases |p.rest|
    {
      ch := p.GetNext();
      if ch.Eof? {
        return CommentEof;
      }
    }
    return CommentFound;
  }

  /** The rest of a block comment. */
  method SkipBlock(p: Parser) returns (ret: CommentResult)
    requires p.Valid() && p.getChars == []
    modifies p`filePos, p`getChars, p`rest
    ensures p.Valid() && |p.getChars| <= 1
    ensures match AfterClose(old(p.rest))
            case None => ret == CommentEof && p.rest == []
            case Some(rest) => ret == CommentFound && p.rest == rest
  {
    while true
      invariant p.Valid() && |p.getChars| <= 1 && NoEof(p.getChars)
      invariant AfterClose(old(p.rest)) == AfterClose(p.rest)
      decreases |p.rest|
    {
      ghost var here := p.rest;
      var ch := p.GetNext();
      if ch.Eof? {
        return CommentEof;
      }
      if ch.ch == '*' {
        ch := p.GetNext();
        if ch.Eof? {
          return CommentEof;
        }
        if ch.ch == '/' {
          return CommentFound;
        }
        p.UngetNext(ch);
      }
      assert p.rest == here[1..];
    }
  }

  /** The parser and token hold what `lexed` says: token, rest of the input, and at most two
      characters pushed back. */
  ghost predicate Delivers(p: Parser, t: TokenBuffer, lexed: Lexed)
    reads p, t, t.token
  {
    && p.Valid() && t.Valid() && |p.getChars| <= 2
    && lexed == Lexeme(Token(t.text, t.kind), p.rest)
  }

  /** Look behind an x: take the hexadecimal digit that follows, or push back what was read
      (at end of input only the x, which leaves the same logical input). */
  method HexAhead(p: Parser, x: Read) returns (digit: Option<char>)
    requires p.Valid() && |p.getChars| <= 1 && x.Got? && NoEof(p.getChars)
    modifies p`filePos, p`getChars, p`rest
    ensures p.Valid()
    ensures digit.Some? <==> old(p.rest) != [] && In(Hex, old(p.rest)[0])
    ensures digit.Some? ==> digit.value == old(p.rest)[0] && p.rest == old(p.rest)[1..] && |p.getChars| <= 1
    ensures digit.None? ==> p.rest == [x.ch] + old(p.rest) && |p.getChars| <= 2
  {
    var nextch2 := p.GetNext();
    if nextch2.Eof? {
      p.UngetNext(x);
      return None;
    }
    if In(Hex, nextch2.ch) {
      return Some(nextch2.ch);
    }
    p.UngetNext(nextch2);
    p.UngetNext(x);
    return None;
  }

  /** The octal and hexadecimal guess made after a leading zero.  Either the number is the
      zero alone (done), or ch is the first digit of a run of class cls. */
  method DetectRadix(p: Parser, t: TokenBuffer) returns (done: bool, ch: char, cls: Class)
    requires p.Valid() && t.Valid() && |p.getChars| <= 1
    modifies p`filePos, p`getChars, p`rest, t`ptr, t`text, t`token, t.token
    ensures t.token == old(t.token) || fresh(t.token)
    ensures done ==> Delivers(p, t, LexZero(old(Token(t.text, t.kind)), old(p.rest)))
    ensures !done ==> p.Valid() && t.Valid() && |p.getChars| <= 1
    ensures !done ==> LexZero(old(Token(t.text, t.kind)), old(p.rest))
                      == Lexeme(Token(RunText(t.text + [ch], cls, p.rest), t.kind), RunRest(cls, p.rest))
  {
    done, ch, cls := true, '0', Octal;
    var nextch1 := p.GetNext();
    if nextch1.Eof? {
      t.Append('0');
    } else if In(Octal, nextch1.ch) {
      done, ch := false, nextch1.ch;
    } else if nextch1.ch == 'x' || nextch1.ch == 'X' {
      var digit := HexAhead(p, nextch1);
      if digit.Some? {
        t.Append(nextch1.ch);
        done, ch, cls := false, digit.value, Hex;
      }
    } else {
      p.UngetNext(nextch1);
    }
  }

  method ParseNumber(p: Parser, t: TokenBuffer, first: char)
    requires p.Valid() && t.Valid() && |p.getChars| <= 1
    requires IsDigit(first)
    modifies p`filePos, p`getChars, p`rest, t`ptr, t`text, t`token, t.token
    ensures t.token == old(t.token) || fresh(t.token)
    ensures Delivers(p, t, LexNumber(old(Token(t.text, t.kind)), first, old(p.rest)))
  {
    var ch, cls := first, Decimal;
    if ch == '0' {
      t.Append(ch);
      var done;
      done, ch, cls := DetectRadix(p, t);
      if done {
        return;
      }
    }
    t.Append(ch);
    GatherRun(p, t, cls);
  }

  /** The digit loop of parse_number: append the longest run of the class, push back what
      ends it (EOF included). */
  method GatherRun(p: Parser, t: TokenBuffer, cls: Class)
    requires p.Valid() && t.Valid() && |p.getChars| <= 1
    modifies p`filePos, p`getChars, p`rest, t`ptr, t`text, t`token, t.token
    ensures t.token == old(t.token) || fresh(t.token)
    ensures p.Valid() && t.Valid() && |p.getChars| <= 1
    ensures t.text == RunText(old(t.text), cls, old(p.rest)) && p.rest == RunRest(cls, old(p.rest))
  {
    while true
      invariant p.Valid() && t.Valid() && |p.getChars| <= 1
      invariant t.token == old(t.token) || fresh(t.token)
      invariant RunText(t.text, cls, p.rest) == RunText(old(t.text), cls, old(p.rest))
      invariant RunRest(cls, p.rest) == RunRest(cls, old(p.rest))
      decreases |p.rest|
    {
      var ch := p.GetNext();
      if ch.Eof? || !In(cls, ch.ch) {
        p.UngetNext(ch);
        return;
      }
      t.Append(ch.ch);
    }
  }

  method ParseIdentifier(p: Parser, t: TokenBuffer, first: char)
    requires p.Valid() && t.Valid() && |p.getChars| <= 1
    modifies p`filePos, p`getChars, p`rest, t`ptr, t`text, t`token, t`kind, t.token
    ensures t.token == old(t.token) || fresh(t.token)
    ensures Delivers(p, t, LexWord(old(Token(t.text, t.kind)), first, old(p.rest)))
  {
    t.Append(first);
    t.kind := Identifier;
    while true
      invariant p.Valid() && t.Valid() && |p.getChars| <= 1 && t.kind == Identifier
      invariant t.token == old(t.token) || fresh(t.token)
      invariant RunText(t.text, WordChar, p.rest) == RunText(old(t.text) + [first], WordChar, old(p.rest))
      invariant RunRest(WordChar, p.rest) == RunRest(WordChar, old(p.rest))
      decreases |p.rest|
    {
      var ch := p.GetNext();
      if ch.Eof? {
        return;
      }
      if !In(WordChar, ch.ch) {
        p.UngetNext(ch);
        return;
      }
      t.Append(ch.ch);
    }
  }

  /** An escaped character, the backslash already read; at end of input both are dropped. */
  method GatherEscape(p: Parser, t: TokenBuffer) returns (more: bool)
    requires p.Valid() && t.Valid() && |p.getChars| <= 1
    modifies p`filePos, p`getChars, p`rest, t`ptr, t`text, t`token, t.token
    ensures t.token == old(t.token) || fresh(t.token)
    ensures p.Valid() && t.Valid() && |p.getChars| <= 1
    ensures more <==> old(p.rest) != []
    ensures more ==> t.text == old(t.text) + ['\\'] + [old(p.rest)[0]] && p.rest == old(p.rest)[1..]
    ensures !more ==> t.text == old(t.text) && p.rest == []
  {
    var ch := p.GetNext();
    if ch.Eof? {
      return false;
    }
    t.Append('\\');
    t.Append(ch.ch);
    return true;
  }

  /** The body of a literal, its opening quote already in the token. */
  ghost predicate GathersLiteral(p: Parser, t: TokenBuffer, quote: char, text: string, s: string)
    reads p, t, t.token
  {
    && p.Valid() && t.Valid() && |p.getChars| <= 1
    && LiteralText(t.text, quote, p.rest) == LiteralText(text, quote, s)
    && LiteralRest(quote, p.rest) == LiteralRest(quote, s)
  }

  method ParseLiteral(p: Parser, t: TokenBuffer, literal: char, kind: TokenType)
    requires p.Valid() && t.Valid() && |p.getChars| <= 1
    requires kind == QuoteKind(literal)
    modifies p`filePos, p`getChars, p`rest, t`ptr, t`text, t`token, t`kind, t.token
    ensures t.token == old(t.token) || fresh(t.token)
    ensures Delivers(p, t, LexLiteral(old(Token(t.text, t.kind)), literal, old(p.rest)))
  {
    t.kind := kind;
    t.Append(literal);
    ghost var begun := t.text;
    var more := true;
    while more
      invariant p.Valid() && t.Valid() && |p.getChars| <= 1 && t.kind == kind
      invariant more ==> GathersLiteral(p, t, literal, begun, old(p.rest))
      invariant t.token == old(t.token) || fresh(t.token)
      invariant !more ==> t.text == LiteralText(begun, literal, old(p.rest)) && p.rest == LiteralRest(literal, old(p.rest))
      decreases more, |p.rest|
    {
      more := GatherLiteral(p, t, literal, begun, old(p.rest));
    }
  }

  /** One round of the loop: false at the closing quote and at the end of the input. */
  method GatherLiteral(p: Parser, t: TokenBuffer, literal: char, ghost text: string, ghost s: string) returns (more: bool)
    requires GathersLiteral(p, t, literal, text, s)
    modifies p`filePos, p`getChars, p`rest, t`ptr, t`text, t`token, t.token
    ensures t.token == old(t.token) || fresh(t.token)
    ensures p.Valid() && t.Valid() && |p.getChars| <= 1
    ensures more ==> GathersLiteral(p, t, literal, text, s) && |p.rest| < |old(p.rest)|
    ensures !more ==> t.text == LiteralText(text, literal, s) && p.rest == LiteralRest(literal, s)
  {
    ghost var before := p.rest;
    var ch := p.GetNext();
    if ch.Eof? {
      return false;
    }
    if ch.ch == '\\' {
      more := GatherEscape(p, t);
      if more {
        assert before[1..][1..] == before[2..];
      }
      return;
    }
    t.Append(ch.ch);
    more := ch.ch != literal;
  }

  method ParseOp(p: Parser, t: TokenBuffer, op: char)
    requires p.Valid() && t.Valid() && |p.getChars| <= 1
    modifies p`filePos, p`getChars, p`rest, t`ptr, t`text, t`token, t.token
    ensures t.token == old(t.token) || fresh(t.token)
    ensures Delivers(p, t, LexOp(old(Token(t.text, t.kind)), op, old(p.rest)))
  {
    t.Append(op);
    var ch := p.GetNext();
    if ch.Eof? {
      return;
    }
    if ch.ch == op {
      t.Append(op);
      return;
    }
    p.UngetNext(ch);
  }

  method ParseMinus(p: Parser, t: TokenBuffer)
    requires p.Valid() && t.Valid() && |p.getChars| <= 1
    modifies p`filePos, p`getChars, p`rest, t`ptr, t`text, t`token, t`kind, t.token
    ensures t.token == old(t.token) || fresh(t.token)
    ensures Delivers(p, t, LexMinus(old(Token(t.text, t.kind)), old(p.rest)))
  {
    t.Append('-');
    var ch := p.GetNext();
    if ch.Eof? {
      return;
    }
    if ch.ch == '-' {
      t.Append(ch.ch);
      return;
    }
    if ch.ch == '>' {
      t.Append(ch.ch);
      t.kind := Arrow;
      return;
    }
    p.UngetNext(ch);
  }

  /** The part of get_token's switch whose character ends in a token: deliver the token that
      begins with ch, or pass over a character that begins none. */
  method BeginToken(p: Parser, t: TokenBuffer, ch: char) returns (ok: bool)
    requires p.Valid() && t.Valid() && |p.getChars| <= 1
    modifies p`filePos, p`getChars, p`rest, t`ptr, t`text, t`token, t`kind, t.token
    ensures t.token == old(t.token) || fresh(t.token)
    ensures ok ==> Delivers(p, t, LexFrom(old(Token(t.text, t.kind)), ch, old(p.rest)))
    ensures !ok ==> LexFrom(old(Token(t.text, t.kind)), ch, old(p.rest)).End?
    ensures !ok ==> unchanged(p) && unchanged(t) && unchanged(t.token)
  {
    if IsSpace(ch) {
      t.Append(ch);
      t.kind := WhiteSpace;
      return true;
    } else if SingleKind(ch).Some? {
      t.Append(ch);
      if SingleKind(ch).value != Unknown {
        t.kind := SingleKind(ch).value;
      }
      return true;
    } else if IsDigit(ch) {
      ParseNumber(p, t, ch);
      return true;
    } else if IsAlpha(ch) {
      ParseIdentifier(p, t, ch);
      return true;
    } else if IsQuote(ch) {
      ParseLiteral(p, t, ch, QuoteKind(ch));
      return true;
    } else if IsDoubling(ch) {
      ParseOp(p, t, ch);
      return true;
    } else if ch == '-' {
      ParseMinus(p, t);
      return true;
    }
    return false;  // anything else, a leading underscore included, is passed over
  }

  /** Gather a token.  False is EOF, which leaves the token as it was.  The push-back list
      never holds more than two characters between tokens, and the call terminates on every
      input because each round consumes some of it. */
  method GetToken(p: Parser, t: TokenBuffer) returns (ok: bool)
    requires p.Valid() && t.Valid() && |p.getChars| <= 2
    modifies p`filePos, p`getChars, p`rest, t`ptr, t`text, t`token, t`kind, t.token
    ensures t.token == old(t.token) || fresh(t.token)
    ensures ok <==> LexOne(old(Token(t.text, t.kind)), old(p.rest), p.skipWhiteSpace).Lexeme?
    ensures ok ==> Delivers(p, t, LexOne(old(Token(t.text, t.kind)), old(p.rest), p.skipWhiteSpace))
    ensures !ok ==> p.Valid() && p.rest == [] && |p.getChars| <= 2
    ensures !ok ==> t.Valid() && unchanged(t) && unchanged(t.token)
  {
    ghost var goal := LexOne(Token(t.text, t.kind), p.rest, p.skipWhiteSpace);
    while true
      invariant p.Valid() && |p.getChars| <= 2
      invariant t.Valid() && unchanged(t) && unchanged(t.token)
      invariant LexOne(Token(t.text, t.kind), p.rest, p.skipWhiteSpace) == goal
      decreases |p.rest|
    {
      var read := p.GetNext();
      if read.Eof? {
        return false;
      }
      if read.ch == '/' {
        var ret := SkipComments(p);
        if ret == CommentEof {
          return false;
        }
        if ret == CommentOk {
          t.Append('/');
          return true;
        }
      } else if !(IsSpace(read.ch) && p.skipWhiteSpace) {
        ok := BeginToken(p, t, read.ch);
        if ok {
          return;
        }
      }
    }
  }
}
