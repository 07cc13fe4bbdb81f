/**
 The whole scan (src/utilities/kernelscan.c, parse_kernel_messages): every token is looked up
 in the table of logging functions, and a hit starts a message.

 The `;` that ends a message is left in the token, so the lexeme behind it is appended to the
 `;` and never recognised.  `ScanTokens` says what is printed because of that, `EveryCall`
 what would be printed if the token were cleared, and `MissedExactly` when the two differ.
 */
module Scan {
  import opened LexSpec
  import opened LexFacts
  import LexMachine
  import opened Lexer
  import opened Listening
  import opened Message
  import opened PerfectHash

  /** Names the lexer can deliver start with a letter, and so do all names of the code's list. */
  ghost predicate Names(funcs: seq<string>) {
    forall f :: f in funcs ==> f != [] && IsAlpha(f[0])
  }

  predicate IsCall(t: Token, funcs: seq<string>) {
    CStr(t.text) in funcs
  }

  function MessageOf(ts: seq<Token>, klogFind: string -> bool): (r: Parsed)
    requires ts != []
    ensures r.Finished? ==> |r.rest| < |ts|
  {
    MessageFrom(Begin(CStr(ts[0].text)), ts[1..], klogFind)
  }

  /** What is printed for the tokens ts; stale says that the token still holds a `;`. */
  function ScanTokens(ts: seq<Token>, stale: bool, funcs: seq<string>, klogFind: string -> bool): seq<Report>
    decreases |ts|
  {
    if ts == [] then []
    else if !stale && IsCall(ts[0], funcs) then
      var message := MessageOf(ts, klogFind);
      if message.Unfinished? then [] else [message.report] + ScanTokens(message.rest, true, funcs, klogFind)
    else ScanTokens(ts[1..], false, funcs, klogFind)
  }

  /** What would be printed if every call outside a message were recognised. */
  function EveryCall(ts: seq<Token>, funcs: seq<string>, klogFind: string -> bool): seq<Report>
    decreases |ts|
  {
    if ts == [] then []
    else if IsCall(ts[0], funcs) then
      var message := MessageOf(ts, klogFind);
      if message.Unfinished? then [] else [message.report] + EveryCall(message.rest, funcs, klogFind)
    else EveryCall(ts[1..], funcs, klogFind)
  }

  // ---------- Which calls are heard ----------

  /** The names of functions and the `;` of a token sequence. */
  function RowOf(ts: seq<Token>, funcs: seq<string>): Row {
    Row(|ts|, (i: nat) => i < |ts| && IsCall(ts[i], funcs), (i: nat) => i < |ts| && ts[i].kind == Terminal)
  }

  /** What is printed for a call: the reference's report of the tokens between its name and its `;`. */
  ghost function ReportOf(ts: seq<Token>, klogFind: string -> bool): Call -> Report {
    (c: Call) =>
      if c.name < c.end <= |ts| then Reference(CStr(ts[c.name].text), ts[c.name + 1..c.end], klogFind) else Report(false, [])
  }

  /**
   The calls that are heard are printed and nothing else.  With gap 1 the token right behind each
   `;` is listened to; with gap 2 it is skipped.
   */
  ghost predicate PrintsHeard(printed: seq<Report>, ts: seq<Token>, gap: nat, funcs: seq<string>, klogFind: string -> bool) {
    exists calls :: Heard(RowOf(ts, funcs), 0, gap, calls) && Reports(printed, ReportOf(ts, klogFind), calls)
  }

  /** There is one list of such calls, so whoever knows it knows what is printed. */
  lemma HeardArePrinted(printed: seq<Report>, ts: seq<Token>, gap: nat, calls: seq<Call>, funcs: seq<string>, klogFind: string -> bool)
    requires PrintsHeard(printed, ts, gap, funcs, klogFind) && Heard(RowOf(ts, funcs), 0, gap, calls)
    ensures Reports(printed, ReportOf(ts, klogFind), calls)
  {
    var row := RowOf(ts, funcs);
    var others: seq<Call> :| Heard(row, 0, gap, others) && Reports(printed, ReportOf(ts, klogFind), others);
    HeardOnce(row, 0, gap, calls, others);
  }

  function From(ts: seq<Token>, a: nat): seq<Token> { if a <= |ts| then ts[a..] else [] }

  /** tail is what follows the name at position a, and k where its first `;` stands. */
  lemma RowHere(ts: seq<Token>, a: nat, tail: seq<Token>, k: nat, funcs: seq<string>)
    requires a < |ts| && IsCall(ts[a], funcs) && tail == ts[a + 1..] && k == TerminalIndex(tail)
    ensures if k < |tail| then CallAt(RowOf(ts, funcs), Call(a, a + 1 + k)) else NoCall(RowOf(ts, funcs), a)
  {
    assert forall i: nat :: a < i < |ts| ==> tail[i - a - 1] == ts[i];
  }

  /** The call whose name stands at position a, or none if no `;` follows. */
  lemma CallHere(ts: seq<Token>, a: nat, funcs: seq<string>, klogFind: string -> bool) returns (c: Call)
    requires a < |ts| && IsCall(ts[a], funcs)
    ensures c.name == a
    ensures match MessageOf(ts[a..], klogFind)
            case Unfinished => NoCall(RowOf(ts, funcs), a)
            case Finished(report, rest) =>
              CallAt(RowOf(ts, funcs), c) && report == ReportOf(ts, klogFind)(c) && rest == ts[c.end + 1..]
  {
    var tail := ts[a + 1..];
    var k := TerminalIndex(tail);
    c := Call(a, a + 1 + k);
    assert ts[a..][1..] == tail;
    RowHere(ts, a, tail, k, funcs);
    MessageIsReference(CStr(ts[a].text), tail, klogFind);
    if k < |tail| {
      assert tail[..k] == ts[a + 1..c.end] && tail[k + 1..] == ts[c.end + 1..];
    }
  }

  /** The scan and what it should print, from the name of a call on. */
  lemma FromCall(ts: seq<Token>, a: nat, funcs: seq<string>, klogFind: string -> bool) returns (finished: bool, c: Call)
    requires a < |ts| && IsCall(ts[a], funcs)
    ensures c.name == a && if finished then CallAt(RowOf(ts, funcs), c) else NoCall(RowOf(ts, funcs), a)
    ensures ScanTokens(From(ts, a), false, funcs, klogFind)
         == if finished then [ReportOf(ts, klogFind)(c)] + ScanTokens(From(ts, c.end + 2), false, funcs, klogFind) else []
    ensures EveryCall(From(ts, a), funcs, klogFind)
         == if finished then [ReportOf(ts, klogFind)(c)] + EveryCall(From(ts, c.end + 1), funcs, klogFind) else []
  {
    var tail := ts[a..];
    c := CallHere(ts, a, funcs, klogFind);
    finished := MessageOf(tail, klogFind).Finished?;
    if finished {
      StaleSkips(ts, c.end + 1, funcs, klogFind);
    }
  }

  lemma FromOther(ts: seq<Token>, a: nat, funcs: seq<string>, klogFind: string -> bool)
    requires a < |ts| && !IsCall(ts[a], funcs)
    ensures ScanTokens(From(ts, a), false, funcs, klogFind) == ScanTokens(From(ts, a + 1), false, funcs, klogFind)
    ensures EveryCall(From(ts, a), funcs, klogFind) == EveryCall(From(ts, a + 1), funcs, klogFind)
  {
    assert ts[a..][1..] == ts[a + 1..];
  }

  /** The scan is a round of listening at each position, and so is what it should print. */
  lemma ListensAt(ts: seq<Token>, a: nat, row: Row, report: Call -> Report, printed: nat -> seq<Report>, wanted: nat -> seq<Report>,
                  funcs: seq<string>, klogFind: string -> bool)
    requires row == RowOf(ts, funcs) && report == ReportOf(ts, klogFind)
    requires forall i: nat :: printed(i) == ScanTokens(From(ts, i), false, funcs, klogFind)
    requires forall i: nat :: wanted(i) == EveryCall(From(ts, i), funcs, klogFind)
    ensures Round(printed, row, report, a, 2) && Round(wanted, row, report, a, 1)
  {
    if a < |ts| {
      assert row.name(a) <==> IsCall(ts[a], funcs);
      if IsCall(ts[a], funcs) {
        var finished, c := FromCall(ts, a, funcs, klogFind);
        Rounds(printed, wanted, row, report, a, finished, c);
      } else {
        FromOther(ts, a, funcs, klogFind);
      }
    }
  }

  lemma Rounds(printed: nat -> seq<Report>, wanted: nat -> seq<Report>, row: Row, report: Call -> Report, a: nat, finished: bool, c: Call)
    requires a < row.n && row.name(a) && c.name == a && if finished then CallAt(row, c) else NoCall(row, a)
    requires printed(a) == if finished then [report(c)] + printed(c.end + 2) else []
    requires wanted(a) == if finished then [report(c)] + wanted(c.end + 1) else []
    ensures Round(printed, row, report, a, 2) && Round(wanted, row, report, a, 1)
  {
  }

  lemma StaleSkips(ts: seq<Token>, a: nat, funcs: seq<string>, klogFind: string -> bool)
    requires a <= |ts|
    ensures ScanTokens(ts[a..], true, funcs, klogFind) == ScanTokens(From(ts, a + 1), false, funcs, klogFind)
  {
    if a < |ts| {
      assert ts[a..][1..] == ts[a + 1..];
    }
  }

  /** What the scan prints, and what it should. */
  lemma ScanIs(ts: seq<Token>, funcs: seq<string>, klogFind: string -> bool)
    ensures PrintsHeard(ScanTokens(ts, false, funcs, klogFind), ts, 2, funcs, klogFind)
    ensures PrintsHeard(EveryCall(ts, funcs, klogFind), ts, 1, funcs, klogFind)
  {
    var printed := (a: nat) => ScanTokens(From(ts, a), false, funcs, klogFind);
    var wanted := (a: nat) => EveryCall(From(ts, a), funcs, klogFind);
    var row, report := RowOf(ts, funcs), ReportOf(ts, klogFind);
    forall a: nat
      ensures Round(printed, row, report, a, 2) && Round(wanted, row, report, a, 1)
    {
      ListensAt(ts, a, row, report, printed, wanted, funcs, klogFind);
    }
    assert From(ts, 0) == ts;
    var heard := ReportsHeard(printed, row, report, 0, 2);
    var all := ReportsHeard(wanted, row, report, 0, 1);
  }

  // ---------- The scan ----------

  /** A call that has its `;` comes first. */
  predicate FinishedCallFirst(ts: seq<Token>, funcs: seq<string>, klogFind: string -> bool) {
    ts != [] && IsCall(ts[0], funcs) && MessageOf(ts, klogFind).Finished?
  }

  /** Somewhere a call that has its `;` stands right behind the `;` of a message. */
  predicate BackToBack(ts: seq<Token>, funcs: seq<string>, klogFind: string -> bool)
    decreases |ts|
  {
    if ts == [] then false
    else if IsCall(ts[0], funcs) then
      var message := MessageOf(ts, klogFind);
      message.Finished? && (FinishedCallFirst(message.rest, funcs, klogFind) || BackToBack(message.rest, funcs, klogFind))
    else BackToBack(ts[1..], funcs, klogFind)
  }

  /** The token holds the `;` of a message, or it is cleared. */
  ghost predicate Leftover(t: TokenBuffer, stale: bool)
    reads t
  {
    if stale then t.text == ";" else Token(t.text, t.kind) == EMPTY
  }

  /** Gather a token and look it up.  With a stale `;` in front nothing is ever found. */
  method NextIsCall(p: Parser, t: TokenBuffer, table: FuncTable, ghost stale: bool, ghost funcs: seq<string>)
    returns (more: bool, hit: bool)
    requires p.Valid() && t.Valid() && |p.getChars| <= 2 && p.skipWhiteSpace && Leftover(t, stale)
    requires table.Built(funcs) && Names(funcs)
    modifies p`filePos, p`getChars, p`rest, t`ptr, t`text, t`token, t`kind, t.token
    ensures t.token == old(t.token) || fresh(t.token)
    ensures p.Valid() && t.Valid() && |p.getChars| <= 2 && table.Built(funcs)
    ensures more <==> Tokens(old(p.rest), true) != []
    ensures !more ==> Leftover(t, stale)
    ensures more ==> |p.rest| < |old(p.rest)| && Tokens(p.rest, true) == Tokens(old(p.rest), true)[1..]
    ensures more ==> (hit <==> !stale && IsCall(Tokens(old(p.rest), true)[0], funcs))
    ensures more && hit ==> t.text == Tokens(old(p.rest), true)[0].text
  {
    ghost var ts := Tokens(p.rest, true);
    hit := false;
    more := NextToken(p, t);
    if more {
      if stale {
        assert CStr(";" + ts[0].text)[0] == ';';  // no function name
      }
      hit := LookUp(t, table, funcs);
    }
  }

  /** Is the text of the token the name of a function? */
  method LookUp(t: TokenBuffer, table: FuncTable, ghost funcs: seq<string>) returns (hit: bool)
    requires t.Valid() && table.Built(funcs)
    ensures hit <==> CStr(t.text) in funcs
  {
    var s := t.CString();
    hit := table.HashFind(s, funcs);
  }

  /** A call was found, and its message is read. */
  method ScanMessage(p: Parser, t: TokenBuffer, klogFind: string -> bool, ghost ts: seq<Token>)
    returns (out: seq<Report>, ghost staleAfter: bool)
    requires p.Valid() && t.Valid() && |p.getChars| <= 2 && p.skipWhiteSpace
    requires ts != [] && t.text == ts[0].text && Tokens(p.rest, true) == ts[1..]
    modifies p`filePos, p`getChars, p`rest, t`ptr, t`text, t`token, t`kind, t.token
    ensures t.token == old(t.token) || fresh(t.token)
    ensures p.Valid() && t.Valid() && |p.getChars| <= 2 && Leftover(t, staleAfter)
    ensures |p.rest| <= |old(p.rest)|
    ensures match MessageOf(ts, klogFind)
            case Unfinished => out == [] && !staleAfter && Tokens(p.rest, true) == []
            case Finished(report, rest) => out == [report] && staleAfter && Tokens(p.rest, true) == rest
  {
    out, staleAfter := [], false;
    var ok, report := ParseKernelMessage(p, t, klogFind);
    if ok {
      out, staleAfter := [report], true;
    }
  }

  /** What happens to a token that was looked up. */
  method AfterToken(p: Parser, t: TokenBuffer, hit: bool, klogFind: string -> bool,
                    ghost ts: seq<Token>, ghost stale: bool, ghost funcs: seq<string>)
    returns (out: seq<Report>, ghost staleAfter: bool)
    requires p.Valid() && t.Valid() && |p.getChars| <= 2 && p.skipWhiteSpace
    requires ts != [] && Tokens(p.rest, true) == ts[1..] && (hit <==> !stale && IsCall(ts[0], funcs))
    requires hit ==> t.text == ts[0].text
    modifies p`filePos, p`getChars, p`rest, t`ptr, t`text, t`token, t`kind, t.token
    ensures t.token == old(t.token) || fresh(t.token)
    ensures p.Valid() && t.Valid() && |p.getChars| <= 2 && Leftover(t, staleAfter)
    ensures |p.rest| <= |old(p.rest)|
    ensures ScanTokens(ts, stale, funcs, klogFind) == out + ScanTokens(Tokens(p.rest, true), staleAfter, funcs, klogFind)
  {
    if hit {
      out, staleAfter := ScanMessage(p, t, klogFind, ts);
    } else {
      t.Clear();
      out, staleAfter := [], false;
    }
  }

  /** One round of the loop of parse_kernel_messages. */
  method ScanRound(p: Parser, t: TokenBuffer, table: FuncTable, klogFind: string -> bool,
                   ghost stale: bool, ghost funcs: seq<string>)
    returns (more: bool, out: seq<Report>, ghost staleAfter: bool)
    requires p.Valid() && t.Valid() && |p.getChars| <= 2 && p.skipWhiteSpace && Leftover(t, stale)
    requires table.Built(funcs) && Names(funcs)
    modifies p`filePos, p`getChars, p`rest, t`ptr, t`text, t`token, t`kind, t.token
    ensures t.token == old(t.token) || fresh(t.token)
    ensures p.Valid() && t.Valid() && |p.getChars| <= 2 && Leftover(t, staleAfter)
    ensures table.Built(funcs) && (more ==> |p.rest| < |old(p.rest)|)
    ensures ScanTokens(Tokens(old(p.rest), true), stale, funcs, klogFind)
         == out + if more then ScanTokens(Tokens(p.rest, true), staleAfter, funcs, klogFind) else []
  {
    out, staleAfter := [], stale;
    ghost var ts := Tokens(p.rest, true);
    var hit;
    more, hit := NextIsCall(p, t, table, stale, funcs);
    if more {
      out, staleAfter := AfterToken(p, t, hit, klogFind, ts, stale, funcs);
    }
  }

  lemma AppendAssoc(a: seq<Report>, b: seq<Report>, c: seq<Report>)
    ensures a + (b + c) == (a + b) + c
    ensures a + [] == a && [] + a == a
  {
  }

  /** parse_kernel_messages over a whole file: exactly the reports of its token sequence, which are
      those of the calls that are heard. */
  method ParseKernelMessages(fp: string, table: FuncTable, ghost funcs: seq<string>, klogFind: string -> bool)
    returns (printed: seq<Report>)
    requires table.Built(funcs) && Names(funcs)
    ensures printed == ScanTokens(Tokens(fp, true), false, funcs, klogFind)
    ensures PrintsHeard(printed, Tokens(fp, true), 2, funcs, klogFind)
  {
    var p := new Parser(fp, true);
    var t := new TokenBuffer();
    printed := ScanAll(p, t, table, funcs, klogFind);
    ScanIs(Tokens(fp, true), funcs, klogFind);
  }

  /** Its loop. */
  method ScanAll(p: Parser, t: TokenBuffer, table: FuncTable, ghost funcs: seq<string>, klogFind: string -> bool)
    returns (printed: seq<Report>)
    requires p.Valid() && t.Valid() && |p.getChars| <= 2 && p.skipWhiteSpace && Leftover(t, false)
    requires table.Built(funcs) && Names(funcs)
    modifies p`filePos, p`getChars, p`rest, t`ptr, t`text, t`token, t`kind, t.token
    ensures printed == ScanTokens(Tokens(old(p.rest), true), false, funcs, klogFind)
  {
    printed := [];
    ghost var stale := false;
    ghost var goal := ScanTokens(Tokens(p.rest, true), false, funcs, klogFind);
    while true
      invariant p.Valid() && t.Valid() && |p.getChars| <= 2 && p.skipWhiteSpace
      invariant t.token == old(t.token) || fresh(t.token)
      invariant table.Built(funcs) && Leftover(t, stale)
      invariant printed + ScanTokens(Tokens(p.rest, true), stale, funcs, klogFind) == goal
      decreases |p.rest|
    {
      var more, out;
      more, out, stale := ScanRound(p, t, table, klogFind, stale, funcs);
      ghost var others := if more then ScanTokens(Tokens(p.rest, true), stale, funcs, klogFind) else [];
      AppendAssoc(printed, out, others);
      printed := printed + out;
      if !more {
        return;
      }
    }
  }

  /** The program: build the table of names, then scan the input.  It gives up exactly when no
      table size in range is free of collisions, and otherwise prints what the one-pass machine's
      tokens call for. */
  method KernelScan(input: string, names: seq<string>, klogFind: string -> bool, signedChar: bool)
    returns (ok: bool, printed: seq<Report>)
    requires Names(names)
    ensures ok <==> exists size :: FIRST_SIZE <= size < TABLE_SIZE && CollisionFree(names, size, signedChar)
    ensures ok ==> printed == ScanTokens(LexMachine.Run(LexMachine.Start, input, true).tokens, false, names, klogFind)
    ensures ok ==> PrintsHeard(printed, LexMachine.Run(LexMachine.Start, input, true).tokens, 2, names, klogFind)
  {
    var table := new FuncTable(signedChar);
    ok := table.HashInit(names);
    printed := [];
    if ok {
      LexMachine.TokensAreRun(input, true);
      printed := ParseKernelMessages(input, table, names, klogFind);
    }
  }

  // ---------- Which calls are missed ----------

  /** The lexer's tokens: one whose text is a function name is an identifier. */
  ghost predicate AllLexical(ts: seq<Token>) {
    forall t :: t in ts ==> Lexical(t)
  }

  lemma CallIsIdentifier(t: Token, funcs: seq<string>)
    requires Lexical(t) && Names(funcs) && IsCall(t, funcs)
    ensures t.kind == Identifier && CStr(t.text) != []
  {
    assert CStr(t.text)[0] == t.text[0];
  }

  /** Without a `;` nothing is printed. */
  lemma {:induction false} NoTerminalNothing(ts: seq<Token>, stale: bool, m: Progress, funcs: seq<string>, klogFind: string -> bool)
    requires MessageFrom(m, ts, klogFind).Unfinished?
    ensures ScanTokens(ts, stale, funcs, klogFind) == []
    decreases |ts|
  {
    if ts != [] {
      SameEnd(Step(m, ts[0], klogFind), Begin(CStr(ts[0].text)), ts[1..], klogFind);
      NoTerminalNothing(ts[1..], false, Step(m, ts[0], klogFind), funcs, klogFind);
    }
  }

  /** Where a message ends does not depend on where it starts. */
  lemma {:induction false} SameEnd(a: Progress, b: Progress, ts: seq<Token>, klogFind: string -> bool)
    ensures var ra, rb := MessageFrom(a, ts, klogFind), MessageFrom(b, ts, klogFind);
            (ra.Finished? <==> rb.Finished?) && (ra.Finished? ==> ra.rest == rb.rest)
    decreases |ts|
  {
    if ts != [] && ts[0].kind != Terminal {
      SameEnd(Step(a, ts[0], klogFind), Step(b, ts[0], klogFind), ts[1..], klogFind);
    }
  }

  /** Two passes that differ in nothing but the line so far print lines that differ by as much. */
  lemma {:induction false} SameSuffix(a: Progress, b: Progress, ts: seq<Token>, klogFind: string -> bool)
    requires a.gotString == b.gotString && (a.prev == Comma <==> b.prev == Comma)
    ensures var ra, rb := MessageFrom(a, ts, klogFind), MessageFrom(b, ts, klogFind);
            ra.Finished? && rb.Finished? ==> |ra.report.line| - |rb.report.line| == |a.line| - |b.line|
    decreases |ts|
  {
    if ts != [] && ts[0].kind != Terminal {
      SameSuffix(Step(a, ts[0], klogFind), Step(b, ts[0], klogFind), ts[1..], klogFind);
    }
  }

  /** While a message is read by the code, a scan that missed its name either finds nothing up
      to the `;` or prints a call inside it, with a shorter line. */
  lemma {:induction false} Shadow(m: Progress, ts: seq<Token>, funcs: seq<string>, klogFind: string -> bool)
    requires AllLexical(ts) && Names(funcs)
    requires m.line != [] && MessageFrom(m, ts, klogFind).Finished?
    ensures var message := MessageFrom(m, ts, klogFind);
            var scan := ScanTokens(ts, false, funcs, klogFind);
            || scan == ScanTokens(message.rest, false, funcs, klogFind)
            || (scan != [] && |scan[0].line| < |message.report.line|)
    decreases |ts|
  {
    var t, rest := ts[0], ts[1..];
    if IsCall(t, funcs) {
      CallIsIdentifier(t, funcs);
      var inner := Begin(CStr(t.text));
      SameEnd(Step(m, t, klogFind), inner, rest, klogFind);
      SameSuffix(Step(m, t, klogFind), inner, rest, klogFind);
    } else if t.kind != Terminal {
      Shadow(Step(m, t, klogFind), rest, funcs, klogFind);
    }
  }

  /** At most one message ends at the next `;`. */
  lemma {:induction false} NextSegment(m: Progress, ts: seq<Token>, funcs: seq<string>, klogFind: string -> bool)
    requires AllLexical(ts) && Names(funcs)
    ensures var message := MessageFrom(m, ts, klogFind);
            if message.Unfinished? then EveryCall(ts, funcs, klogFind) == []
            else |EveryCall(ts, funcs, klogFind)| <= 1 + |EveryCall(message.rest, funcs, klogFind)|
    decreases |ts|
  {
    if ts != [] {
      var t, rest := ts[0], ts[1..];
      if IsCall(t, funcs) {
        CallIsIdentifier(t, funcs);
        SameEnd(Step(m, t, klogFind), Begin(CStr(t.text)), rest, klogFind);
      } else if t.kind != Terminal {
        NextSegment(Step(m, t, klogFind), rest, funcs, klogFind);
      }
    }
  }

  /** The code never prints more messages than there are calls to print. */
  lemma {:induction false} PrintsNoMore(ts: seq<Token>, stale: bool, funcs: seq<string>, klogFind: string -> bool)
    requires AllLexical(ts) && Names(funcs)
    ensures |ScanTokens(ts, stale, funcs, klogFind)| <= |EveryCall(ts, funcs, klogFind)|
    decreases |ts|
  {
    if ts != [] {
      var call := IsCall(ts[0], funcs);
      if call && !stale {
        match MessageOf(ts, klogFind)
        case Unfinished =>
        case Finished(_, rest) =>
          RestLexical(Begin(CStr(ts[0].text)), ts[1..], klogFind);
          PrintsNoMore(rest, true, funcs, klogFind);
      } else {
        PrintsNoMore(ts[1..], false, funcs, klogFind);
        if call {
          NextSegment(Begin(CStr(ts[0].text)), ts[1..], funcs, klogFind);
        }
      }
    }
  }

  lemma {:induction false} RestLexical(m: Progress, ts: seq<Token>, klogFind: string -> bool)
    requires AllLexical(ts)
    ensures MessageFrom(m, ts, klogFind).Finished? ==> AllLexical(MessageFrom(m, ts, klogFind).rest)
    decreases |ts|
  {
    if ts != [] && ts[0].kind != Terminal {
      RestLexical(Step(m, ts[0], klogFind), ts[1..], klogFind);
    }
  }

  /** A finished call right behind a message is lost for good: what the scan prints instead is
      something else. */
  lemma LostCall(ts: seq<Token>, funcs: seq<string>, klogFind: string -> bool)
    requires AllLexical(ts) && Names(funcs)
    requires FinishedCallFirst(ts, funcs, klogFind)
    ensures ScanTokens(ts, true, funcs, klogFind) != EveryCall(ts, funcs, klogFind)
  {
    var message := MessageOf(ts, klogFind);
    CallIsIdentifier(ts[0], funcs);
    Shadow(Begin(CStr(ts[0].text)), ts[1..], funcs, klogFind);
    RestLexical(Begin(CStr(ts[0].text)), ts[1..], klogFind);
    PrintsNoMore(message.rest, false, funcs, klogFind);
    assert EveryCall(ts, funcs, klogFind)[0] == message.report;
  }

  /** The code prints every call exactly when none that has its `;` stands right behind the `;`
      of another. */
  lemma {:induction false} MissedExactly(ts: seq<Token>, funcs: seq<string>, klogFind: string -> bool)
    requires AllLexical(ts) && Names(funcs)
    ensures ScanTokens(ts, false, funcs, klogFind) == EveryCall(ts, funcs, klogFind)
       <==> !BackToBack(ts, funcs, klogFind)
    decreases |ts|
  {
    if ts != [] {
      if IsCall(ts[0], funcs) {
        match MessageOf(ts, klogFind)
        case Unfinished =>
        case Finished(report, rest) =>
          RestLexical(Begin(CStr(ts[0].text)), ts[1..], klogFind);
          BehindMessage(rest, funcs, klogFind);
          MissedExactly(rest, funcs, klogFind);
          var printed, wanted := ScanTokens(rest, true, funcs, klogFind), EveryCall(rest, funcs, klogFind);
          assert ([report] + printed)[1..] == printed && ([report] + wanted)[1..] == wanted;
      } else {
        MissedExactly(ts[1..], funcs, klogFind);
      }
    }
  }

  lemma BehindMessage(rest: seq<Token>, funcs: seq<string>, klogFind: string -> bool)
    requires AllLexical(rest) && Names(funcs)
    ensures if FinishedCallFirst(rest, funcs, klogFind) then ScanTokens(rest, true, funcs, klogFind) != EveryCall(rest, funcs, klogFind)
            else ScanTokens(rest, true, funcs, klogFind) == ScanTokens(rest, false, funcs, klogFind)
  {
    if rest != [] && IsCall(rest[0], funcs) {
      if MessageOf(rest, klogFind).Finished? {
        LostCall(rest, funcs, klogFind);
      } else {
        NoTerminalNothing(rest[1..], false, Begin(CStr(rest[0].text)), funcs, klogFind);
      }
    }
  }

  /** The same, over the characters of a file. */
  lemma FileMissedExactly(fp: string, funcs: seq<string>, klogFind: string -> bool)
    requires Names(funcs)
    ensures var ts := Tokens(fp, true);
            (ScanTokens(ts, false, funcs, klogFind) == EveryCall(ts, funcs, klogFind)
             <==> !BackToBack(ts, funcs, klogFind))
  {
    TokensLexical(fp, true);
    MissedExactly(Tokens(fp, true), funcs, klogFind);
  }
}
