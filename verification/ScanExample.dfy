/** One input on which the scan prints less than it should, lexed and scanned in full. */
module ScanExample {
  import opened LexSpec
  import opened LexFacts
  import opened Lexer
  import opened Listening
  import opened Message
  import opened Scan
  import opened Wrappers

  const CALL := Token("dbg", Identifier)
  const END := Token(";", Terminal)

  /** In `dbg;dbg;` the second call is not seen. */
  lemma TwoCallsOnePrinted(funcs: seq<string>, klogFind: string -> bool)
    requires Names(funcs) && "dbg" in funcs
    ensures |ScanTokens(Tokens("dbg;dbg;", true), false, funcs, klogFind)| == 1
    ensures |EveryCall(Tokens("dbg;dbg;", true), funcs, klogFind)| == 2
  {
    TwoCallsLexed();
    SecondCallNotSeen([CALL, END, CALL, END], funcs, klogFind);
  }

  lemma SecondCallNotSeen(ts: seq<Token>, funcs: seq<string>, klogFind: string -> bool)
    requires Names(funcs) && "dbg" in funcs && ts == [CALL, END, CALL, END]
    ensures |ScanTokens(ts, false, funcs, klogFind)| == 1
    ensures |EveryCall(ts, funcs, klogFind)| == 2
  {
    assert CStr("dbg") == "dbg" && CStr(";") == ";";
    assert ts[1..] == [END, CALL, END] && ts[1..][1..] == [CALL, END] && ts[2..][1..] == [END];
    assert MessageOf(ts, klogFind) == Finished(Report(false, "dbg"), [CALL, END]);
    assert MessageOf([CALL, END], klogFind) == Finished(Report(false, "dbg"), []);
    assert [CALL, END][1..] == [END] && IsCall(CALL, funcs) && !IsCall(END, funcs);
    assert ScanTokens([END], false, funcs, klogFind) == [];
    assert ScanTokens([CALL, END], true, funcs, klogFind) == [];
    assert EveryCall([CALL, END], funcs, klogFind) == [Report(false, "dbg")] + EveryCall([], funcs, klogFind);
  }

  lemma TwoCallsLexed()
    ensures Tokens("dbg;dbg;", true) == [CALL, END, CALL, END]
  {
    LexesDbg("dbg;");
    LexesDbg("");
    assert "dbg;" + "dbg;" == "dbg;dbg;" && "dbg;" + "" == "dbg;";
    assert [CALL, END] + ([CALL, END] + Tokens("", true)) == [CALL, END, CALL, END];
  }

  lemma LexesDbg(rest: string)
    ensures Tokens("dbg;" + rest, true) == [CALL, END] + Tokens(rest, true)
  {
    LexesName(rest);
    LexesTerminal(rest);
    var s := Tokens(rest, true);
    assert [CALL] + ([END] + s) == [CALL, END] + s;
  }

  lemma LexesName(rest: string)
    ensures LexOne(EMPTY, "dbg;" + rest, true) == Lexeme(CALL, ";" + rest)
  {
    var tail := "bg" + (";" + rest);
    RunStops("" + ['d'], WordChar, "bg", ";" + rest);
    assert ("dbg;" + rest)[1..] == tail;
    assert "" + ['d'] + "bg" == "dbg";
  }

  lemma LexesTerminal(rest: string)
    ensures LexOne(EMPTY, ";" + rest, true) == Lexeme(END, rest)
  {
    BeginsTerminal(';', rest);
    assert (";" + rest)[1..] == rest;
  }

  lemma BeginsTerminal(c: char, s: string)
    requires c == ';'
    ensures LexFrom(EMPTY, c, s) == Lexeme(END, s)
  {
    assert "" + [c] == ";";
  }

  // ---------- Three calls in a row ----------

  const OPENED := Token("(", ParenOpened)
  const CLOSED := Token(")", ParenClosed)

  function Literal(c: char): Token { Token(['\"'] + [c] + ['\"'], LiteralString) }

  /** `dbg("c");` for a character c. */
  function CallText(c: char): string { "dbg(" + ['\"'] + [c] + ['\"'] + ");" }

  function CallTokens(c: char): seq<Token> { [CALL, OPENED, Literal(c), CLOSED, END] }

  lemma LexesSingle(c: char, kind: TokenType, rest: string)
    requires SingleKind(c) == Some(kind) && kind != Unknown && !IsSpace(c) && c != '/'
    ensures LexOne(EMPTY, [c] + rest, true) == Lexeme(Token([c], kind), rest)
  {
    assert ([c] + rest)[1..] == rest && "" + [c] == [c];
  }

  lemma QuoteBegins(quote: char, s: string)
    requires quote == '\"'
    ensures LexFrom(EMPTY, quote, s) == LexLiteral(EMPTY, quote, s)
  {
  }

  lemma OneCharLiteral(quote: char, c: char, rest: string)
    requires quote == '\"' && IsAlpha(c)
    ensures LiteralText([quote], quote, [c] + ([quote] + rest)) == [quote] + [c] + [quote]
    ensures LiteralRest(quote, [c] + ([quote] + rest)) == rest
  {
    var tail := [quote] + rest;
    assert ([c] + tail)[1..] == tail && tail[1..] == rest;
  }

  lemma LexesLiteral(quote: char, c: char, rest: string)
    requires quote == '\"' && IsAlpha(c)
    ensures LexOne(EMPTY, [quote] + ([c] + ([quote] + rest)), true) == Lexeme(Literal(c), rest)
  {
    var s := [c] + ([quote] + rest);
    assert ([quote] + s)[1..] == s && "" + [quote] == [quote];
    QuoteBegins(quote, s);
    OneCharLiteral(quote, c, rest);
  }

  lemma LexesDbgName(rest: string)
    requires rest != [] && !In(WordChar, rest[0])
    ensures LexOne(EMPTY, "dbg" + rest, true) == Lexeme(CALL, rest)
  {
    var tail := "bg" + rest;
    RunStops("" + ['d'], WordChar, "bg", rest);
    assert ("dbg" + rest)[1..] == tail;
    assert "" + ['d'] + "bg" == "dbg";
  }

  lemma TokensAhead(s: string, t: Token, rest: string)
    requires LexOne(EMPTY, s, true) == Lexeme(t, rest)
    ensures Tokens(s, true) == [t] + Tokens(rest, true)
  {
  }

  lemma CallTextIs(c: char, quote: char, s4: string, s1: string, rest: string)
    requires quote == '\"' && s4 == [';'] + rest && s1 == ['('] + ([quote] + ([c] + ([quote] + ([')'] + s4))))
    ensures CallText(c) + rest == "dbg" + s1
  {
  }

  lemma LexesCall(c: char, rest: string)
    requires IsAlpha(c)
    ensures Tokens(CallText(c) + rest, true) == CallTokens(c) + Tokens(rest, true)
  {
    var quote := '\"';
    var s4 := [';'] + rest;
    var s3 := [')'] + s4;
    var s2 := [quote] + ([c] + ([quote] + s3));
    var s1 := ['('] + s2;
    CallTextIs(c, quote, s4, s1, rest);
    LexesDbgName(s1);
    LexesSingle('(', ParenOpened, s2);
    LexesLiteral(quote, c, s3);
    LexesSingle(')', ParenClosed, s4);
    LexesSingle(';', Terminal, rest);
    TokensAhead("dbg" + s1, CALL, s1);
    TokensAhead(s1, OPENED, s2);
    TokensAhead(s2, Literal(c), s3);
    TokensAhead(s3, CLOSED, s4);
    TokensAhead(s4, END, rest);
    FiveAhead(CALL, OPENED, Literal(c), CLOSED, END, Tokens(rest, true));
  }

  lemma FiveAhead(a: Token, b: Token, c: Token, d: Token, e: Token, others: seq<Token>)
    ensures [a] + ([b] + ([c] + ([d] + ([e] + others)))) == [a, b, c, d, e] + others
  {
  }

  lemma ReportIs(c: char, klogFind: string -> bool)
    requires IsAlpha(c)
    ensures Reference("dbg", [OPENED, Literal(c), CLOSED], klogFind) == Report(klogFind([c]), "dbg(" + ['\"'] + [c] + ['\"'] + ")")
  {
    var ts := [OPENED, Literal(c), CLOSED];
    SinglePassIsReference("dbg", ts, klogFind);
    assert ts[1..] == [Literal(c), CLOSED] && ts[1..][1..] == [CLOSED] && ts[1..][1..][1..] == [];
    assert CStr("(") == "(" && CStr(")") == ")";
    var text := ['\"'] + [c] + ['\"'];
    assert text[1..] == [c] + ['\"'] && text[1..][1..] == ['\"'] && text[1..2] == [c];
    assert CStr(text) == text;
    PieceOfLiteral(text, c);
    var m1 := Step(Begin("dbg"), OPENED, klogFind);
    assert m1 == Progress(false, false, ParenOpened, None, "dbg(");
    var m2 := Step(m1, Literal(c), klogFind);
    assert m2 == Progress(true, false, LiteralString, Some([c]), "dbg(" + "\"" + [c]);
    var m3 := Step(m2, CLOSED, klogFind);
    assert m3.line == "dbg(" + "\"" + [c] + "\"" + ")";
    FoldThree(Begin("dbg"), OPENED, Literal(c), CLOSED, klogFind);
  }

  lemma FoldThree(m: Progress, a: Token, b: Token, c: Token, klogFind: string -> bool)
    ensures Fold(m, [a, b, c], klogFind) == Step(Step(Step(m, a, klogFind), b, klogFind), c, klogFind)
  {
    assert [a, b, c][1..] == [b, c] && [b, c][1..] == [c] && [c][1..] == [];
    var m1 := Step(m, a, klogFind);
    var m2 := Step(m1, b, klogFind);
    assert Fold(m, [a, b, c], klogFind) == Fold(m1, [b, c], klogFind) == Fold(m2, [c], klogFind);
  }

  lemma PieceOfLiteral(text: string, c: char)
    requires IsAlpha(c) && text == ['\"'] + [c] + ['\"']
    ensures CStr(text) == text && Piece(Token(text, LiteralString)) == [c]
  {
    CStrIs(text, 3);
    assert text[..3] == text;
    assert StripQuotes(text) == [c];
  }

  /** The report of `dbg("c");`. */
  function ReportFor(c: char, klogFind: string -> bool): Report {
    Report(klogFind([c]), "dbg(" + ['\"'] + [c] + ['\"'] + ")")
  }

  lemma CallReported(ts: seq<Token>, at: nat, c: char, klogFind: string -> bool)
    requires IsAlpha(c) && at + 5 <= |ts| && ts[at..at + 5] == CallTokens(c)
    ensures ReportOf(ts, klogFind)(Call(at, at + 4)) == ReportFor(c, klogFind)
  {
    var call := ts[at..at + 5];
    assert call[1..4] == [OPENED, Literal(c), CLOSED];
    assert forall i :: 0 <= i < 5 ==> ts[at + i] == call[i];
    assert ts[at] == CALL && ts[at + 1..at + 4] == call[1..4];
    assert CStr("dbg") == "dbg";
    ReportIs(c, klogFind);
  }

  /** Which of three calls in a row are heard. */
  lemma HeardOfThree(row: Row)
    requires row.n == 15 && forall i: nat :: (row.name(i) <==> i in {0, 5, 10}) && (row.stop(i) <==> i in {4, 9, 14})
    ensures Heard(row, 0, 2, [Call(0, 4), Call(10, 14)])
    ensures Heard(row, 0, 1, [Call(0, 4), Call(5, 9), Call(10, 14)])
  {
    assert CallAt(row, Call(0, 4)) && CallAt(row, Call(5, 9)) && CallAt(row, Call(10, 14));
    assert [Call(0, 4), Call(10, 14)][1..] == [Call(10, 14)] && [Call(10, 14)][1..] == [];
    assert [Call(0, 4), Call(5, 9), Call(10, 14)][1..] == [Call(5, 9), Call(10, 14)];
    assert [Call(5, 9), Call(10, 14)][1..] == [Call(10, 14)];
    assert NoCall(row, 15) && NoCall(row, 16);
    assert Heard(row, 6, 2, [Call(10, 14)]) && Heard(row, 10, 1, [Call(10, 14)]);
  }

  /** Of `dbg("a");dbg("b");dbg("c");` the first and the third call are printed, whatever the names
      of the list and the patterns. */
  lemma ThreeCallsTwoPrinted(funcs: seq<string>, klogFind: string -> bool)
    requires Names(funcs) && "dbg" in funcs
    ensures var ts := Tokens("dbg(\"a\");dbg(\"b\");dbg(\"c\");", true);
            && ScanTokens(ts, false, funcs, klogFind) == [ReportFor('a', klogFind), ReportFor('c', klogFind)]
            && EveryCall(ts, funcs, klogFind) == [ReportFor('a', klogFind), ReportFor('b', klogFind), ReportFor('c', klogFind)]
  {
    var ts := CallTokens('a') + CallTokens('b') + CallTokens('c');
    ThreeLexed(ts);
    ThreeRow(ts, funcs);
    HeardOfThree(RowOf(ts, funcs));
    ScanIs(ts, funcs, klogFind);
    ThreeReported(ts, klogFind);
    HeardArePrinted(ScanTokens(ts, false, funcs, klogFind), ts, 2, [Call(0, 4), Call(10, 14)], funcs, klogFind);
    HeardArePrinted(EveryCall(ts, funcs, klogFind), ts, 1, [Call(0, 4), Call(5, 9), Call(10, 14)], funcs, klogFind);
    ReportsOfThree(ScanTokens(ts, false, funcs, klogFind), EveryCall(ts, funcs, klogFind), ReportOf(ts, klogFind));
  }

  lemma ReportsOfThree(printed: seq<Report>, wanted: seq<Report>, report: Call -> Report)
    requires Reports(printed, report, [Call(0, 4), Call(10, 14)])
    requires Reports(wanted, report, [Call(0, 4), Call(5, 9), Call(10, 14)])
    ensures printed == [report(Call(0, 4)), report(Call(10, 14))]
    ensures wanted == [report(Call(0, 4)), report(Call(5, 9)), report(Call(10, 14))]
  {
  }

  lemma ThreeReported(ts: seq<Token>, klogFind: string -> bool)
    requires ts == CallTokens('a') + CallTokens('b') + CallTokens('c')
    ensures ReportOf(ts, klogFind)(Call(0, 4)) == ReportFor('a', klogFind)
    ensures ReportOf(ts, klogFind)(Call(5, 9)) == ReportFor('b', klogFind)
    ensures ReportOf(ts, klogFind)(Call(10, 14)) == ReportFor('c', klogFind)
  {
    ThreeSlices(ts, CallTokens('a'), CallTokens('b'), CallTokens('c'));
    CallReported(ts, 0, 'a', klogFind);
    CallReported(ts, 5, 'b', klogFind);
    CallReported(ts, 10, 'c', klogFind);
  }

  lemma ThreeSlices(ts: seq<Token>, a: seq<Token>, b: seq<Token>, c: seq<Token>)
    requires ts == a + b + c && |a| == |b| == |c| == 5
    ensures |ts| == 15 && ts[0..5] == a && ts[5..10] == b && ts[10..15] == c
  {
  }

  lemma ThreeLexed(ts: seq<Token>)
    requires ts == CallTokens('a') + CallTokens('b') + CallTokens('c')
    ensures Tokens("dbg(\"a\");dbg(\"b\");dbg(\"c\");", true) == ts
  {
    var third := CallText('c') + "";
    var second := CallText('b') + third;
    InputIs(second, third);
    LexesCall('a', second);
    LexesCall('b', third);
    LexesCall('c', "");
    assert Tokens("", true) == [];
    ThreeJoined(ts, CallTokens('a'), CallTokens('b'), CallTokens('c'));
  }

  lemma InputIs(second: string, third: string)
    requires third == CallText('c') + "" && second == CallText('b') + third
    ensures CallText('a') + second == "dbg(\"a\");dbg(\"b\");dbg(\"c\");"
  {
    assert third == "dbg(\"c\");";
    assert second == "dbg(\"b\");dbg(\"c\");";
  }

  lemma ThreeJoined(ts: seq<Token>, a: seq<Token>, b: seq<Token>, c: seq<Token>)
    requires ts == a + b + c
    ensures a + (b + (c + [])) == ts
  {
  }

  lemma ThreeRow(ts: seq<Token>, funcs: seq<string>)
    requires ts == CallTokens('a') + CallTokens('b') + CallTokens('c') && Names(funcs) && "dbg" in funcs
    ensures var row := RowOf(ts, funcs);
            row.n == 15 && forall i: nat :: (row.name(i) <==> i in {0, 5, 10}) && (row.stop(i) <==> i in {4, 9, 14})
  {
    NotNames(funcs);
    NotName('a', funcs);
    NotName('b', funcs);
    NotName('c', funcs);
  }

  lemma NotNames(funcs: seq<string>)
    requires Names(funcs) && "dbg" in funcs
    ensures IsCall(CALL, funcs) && !IsCall(OPENED, funcs) && !IsCall(CLOSED, funcs) && !IsCall(END, funcs)
  {
    assert CStr("dbg") == "dbg" && CStr("(") == "(" && CStr(")") == ")" && CStr(";") == ";";
  }

  lemma NotName(c: char, funcs: seq<string>)
    requires IsAlpha(c) && Names(funcs)
    ensures !IsCall(Literal(c), funcs)
  {
    PieceOfLiteral(Literal(c).text, c);
  }
}
