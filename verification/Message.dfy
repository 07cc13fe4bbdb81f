/**
 One kernel message (src/utilities/kernelscan.c, parse_kernel_message): the tokens behind the
 name of a logging function up to the first `;`.  The single pass of the code is compared with
 a reference that first groups adjacent string literals (translation phase 6 in section
 5.1.1.2 of ISO/IEC 9899) and then renders the groups.
 */
module Message {
  import opened LexSpec
  import opened Lexer
  import opened LexFacts
  import opened Wrappers

  /** What is printed for a message: "OK : line" if found, "ADD: line" if not. */
  datatype Report = Report(found: bool, line: string)

  // ---------- The single pass ----------

  /** The variables of parse_kernel_message; str is None while no literal is being glued. */
  datatype Progress = Progress(gotString: bool, found: bool, prev: TokenType, str: Option<string>, line: string)

  function Begin(name: string): Progress {
    Progress(false, false, Unknown, None, name)
  }

  /** The text of a token as the message sees it: a C string, quotes stripped off a string. */
  function Piece(t: Token): string {
    var s := CStr(t.text);
    if t.kind == LiteralString && s != [] then StripQuotes(s) else s
  }

  /** A line with the blanks that go behind a token. */
  function Spaced(line: string, prev: TokenType, kind: TokenType): string {
    var line := if kind == Identifier && prev != Comma then line + " " else line;
    if kind == Comma then line + " " else line
  }

  /** One round of the loop, for a token that is not a `;`. */
  function Step(m: Progress, t: Token, klogFind: string -> bool): Progress {
    if t.kind == LiteralString then
      var str := if m.str.Some? then m.str.value + Piece(t) else Piece(t);
      var line := if m.gotString then m.line else m.line + "\"";
      Progress(true, m.found, t.kind, Some(str), line + Piece(t))
    else
      var line := if m.gotString then m.line + "\"" else m.line;
      var found := m.found || (m.str.Some? && klogFind(m.str.value));
      Progress(false, found, t.kind, None, Spaced(line + Piece(t), m.prev, t.kind))
  }

  function Fold(m: Progress, ts: seq<Token>, klogFind: string -> bool): Progress
    decreases |ts|
  {
    if ts == [] then m else Fold(Step(m, ts[0], klogFind), ts[1..], klogFind)
  }

  // ---------- Group, then render ----------

  datatype Group = Plain(token: Token) | Glued(parts: seq<string>)

  /** Each maximal run of adjacent string literals becomes one group. */
  function GroupRuns(ts: seq<Token>): seq<Group>
    decreases |ts|
  {
    if ts == [] then []
    else
      var groups := GroupRuns(ts[1..]);
      if ts[0].kind != LiteralString then [Plain(ts[0])] + groups
      else if groups != [] && groups[0].Glued? then [Glued([Piece(ts[0])] + groups[0].parts)] + groups[1..]
      else [Glued([Piece(ts[0])])] + groups
  }

  /** `first` with the parts glued on. */
  function Glue(first: string, parts: seq<string>): string
    decreases |parts|
  {
    if parts == [] then first else Glue(first + parts[0], parts[1..])
  }

  /** The content of a run of literals. */
  function Content(parts: seq<string>): string {
    if parts == [] then "" else Glue(parts[0], parts[1..])
  }

  /** `line` with the groups rendered behind it, each run of literals as one quoted literal.  A
      literal the message ends with is left without its closing quote. */
  function Render(line: string, groups: seq<Group>, prev: TokenType): string
    decreases |groups|
  {
    if groups == [] then line
    else
      match groups[0]
      case Plain(t) => Render(Spaced(line + Piece(t), prev, t.kind), groups[1..], t.kind)
      case Glued(parts) => Render(Close(Glue(line + "\"", parts), groups[1..]), groups[1..], LiteralString)
  }

  function Close(line: string, others: seq<Group>): string {
    if others == [] then line else line + "\""
  }

  /** Some glued literal that is followed by another token matches a pattern. */
  ghost predicate Found(groups: seq<Group>, klogFind: string -> bool) {
    exists i :: 0 <= i < |groups| - 1 && groups[i].Glued? && klogFind(Content(groups[i].parts))
  }

  // ---------- The groups are the tokens, and maximal ----------

  /** What a message has of a token: whether it is a string literal, and its text. */
  datatype Shown = Shown(literal: bool, text: string)

  function ShownOf(t: Token): Shown { Shown(t.kind == LiteralString, Piece(t)) }

  function AllShown(ts: seq<Token>): seq<Shown> {
    if ts == [] then [] else [ShownOf(ts[0])] + AllShown(ts[1..])
  }

  /** What a group stands for, token by token. */
  function Members(g: Group): seq<Shown> {
    match g
    case Plain(t) => [ShownOf(t)]
    case Glued(parts) => Literals(parts)
  }

  function Literals(parts: seq<string>): seq<Shown> {
    if parts == [] then [] else [Shown(true, parts[0])] + Literals(parts[1..])
  }

  function AllMembers(groups: seq<Group>): seq<Shown> {
    if groups == [] then [] else Members(groups[0]) + AllMembers(groups[1..])
  }

  /** Grouping loses no token, keeps the order, and glues string literals and nothing else. */
  lemma {:induction false} GroupingKeepsTokens(ts: seq<Token>)
    ensures AllMembers(GroupRuns(ts)) == AllShown(ts)
    ensures forall g :: g in GroupRuns(ts) && g.Plain? ==> g.token.kind != LiteralString
    decreases |ts|
  {
    if ts != [] {
      GroupingKeepsTokens(ts[1..]);
      var groups := GroupRuns(ts[1..]);
      if ts[0].kind == LiteralString {
        RunCons(ts);
        LiteralAhead(Piece(ts[0]), groups, GroupRuns(ts));
      } else {
        MembersAhead(Plain(ts[0]), groups);
      }
    }
  }

  lemma MembersAhead(g: Group, groups: seq<Group>)
    ensures AllMembers([g] + groups) == Members(g) + AllMembers(groups)
  {
    assert ([g] + groups)[1..] == groups;
  }

  lemma MembersOfRun(groups: seq<Group>)
    ensures AllMembers(groups) == Literals(RunParts(groups)) + AllMembers(BehindRun(groups))
  {
    if groups == [] || groups[0].Plain? {
      assert [] + AllMembers(groups) == AllMembers(groups);
    }
  }

  lemma Assoc(a: seq<Shown>, b: seq<Shown>, c: seq<Shown>)
    ensures (a + b) + c == a + (b + c)
  {
  }

  /** A literal in front of the groups becomes the first part of a run. */
  lemma LiteralAhead(piece: string, groups: seq<Group>, all: seq<Group>)
    requires all == [Glued([piece] + RunParts(groups))] + BehindRun(groups)
    ensures AllMembers(all) == [Shown(true, piece)] + AllMembers(groups)
  {
    var run, behind := RunParts(groups), BehindRun(groups);
    var parts := [piece] + run;
    assert parts[1..] == run;
    MembersAhead(Glued(parts), behind);
    Assoc([Shown(true, piece)], Literals(run), AllMembers(behind));
    MembersOfRun(groups);
  }

  /** The content of a run of literals is their texts one behind the other. */
  lemma ContentAppends(parts: seq<string>, part: string)
    ensures Content([]) == "" && Content(parts + [part]) == Content(parts) + part
  {
    if parts == [] {
      assert [] + [part] == [part];
    } else {
      assert (parts + [part])[1..] == parts[1..] + [part];
      GlueAppends(parts[0], parts[1..], part);
    }
  }

  lemma {:induction false} GlueAppends(first: string, parts: seq<string>, part: string)
    ensures Glue(first, parts + [part]) == Glue(first, parts) + part
    decreases |parts|
  {
    if parts == [] {
      assert [] + [part] == [part] && [part][1..] == [];
    } else {
      assert (parts + [part])[1..] == parts[1..] + [part];
      GlueAppends(first + parts[0], parts[1..], part);
    }
  }

  // ---------- What one more token adds to the line ----------

  lemma {:induction false} FoldAppends(m: Progress, ts: seq<Token>, t: Token, klogFind: string -> bool)
    ensures Fold(m, ts + [t], klogFind) == Step(Fold(m, ts, klogFind), t, klogFind)
    ensures ts != [] ==>
              var end := Fold(m, ts, klogFind);
              end.prev == ts[|ts| - 1].kind && (end.gotString <==> ts[|ts| - 1].kind == LiteralString)
    decreases |ts|
  {
    if ts == [] {
      assert [] + [t] == [t] && [t][1..] == [];
    } else {
      assert (ts + [t])[1..] == ts[1..] + [t];
      FoldAppends(Step(m, ts[0], klogFind), ts[1..], t, klogFind);
    }
  }

  lemma StepAdds(m: Progress, t: Token, klogFind: string -> bool)
    requires m.gotString <==> m.prev == LiteralString
    ensures var s := CStr(t.text);
            var quoted := if m.prev == LiteralString <==> t.kind == LiteralString then m.line else m.line + "\"";
            var shown := quoted + if t.kind != LiteralString then s else if |s| < 2 then "" else s[1..|s| - 1];
            Step(m, t, klogFind).line == if t.kind == Comma || (t.kind == Identifier && m.prev != Comma) then shown + " " else shown
  {
  }

  /** The line starts with the name.  A token adds its text, a string literal without its first and
      last character, with a quote in front where literals begin or end and a blank behind a comma
      and behind a name that does not follow a comma. */
  lemma TokenAdds(name: string, ts: seq<Token>, t: Token, klogFind: string -> bool)
    ensures Fold(Begin(name), [], klogFind).line == name
    ensures var last := if ts == [] then Unknown else ts[|ts| - 1].kind;
            var s, line := CStr(t.text), Fold(Begin(name), ts, klogFind).line;
            var quoted := if last == LiteralString <==> t.kind == LiteralString then line else line + "\"";
            var shown := quoted + if t.kind != LiteralString then s else if |s| < 2 then "" else s[1..|s| - 1];
            Fold(Begin(name), ts + [t], klogFind).line
            == if t.kind == Comma || (t.kind == Identifier && last != Comma) then shown + " " else shown
  {
    var m := Fold(Begin(name), ts, klogFind);
    FoldAppends(Begin(name), ts, t, klogFind);
    assert m.prev == if ts == [] then Unknown else ts[|ts| - 1].kind;
    StepAdds(m, t, klogFind);
  }

  /** No two glued groups stand side by side, and none is empty. */
  predicate Maximal(groups: seq<Group>) {
    groups == [] ||
    ( && (groups[0].Glued? ==> groups[0].parts != [])
      && (|groups| > 1 ==> groups[0].Plain? || groups[1].Plain?)
      && Maximal(groups[1..]))
  }

  lemma {:induction false} GroupsAreMaximal(ts: seq<Token>)
    ensures Maximal(GroupRuns(ts))
    decreases |ts|
  {
    if ts != [] {
      GroupsAreMaximal(ts[1..]);
      var tail := GroupRuns(ts[1..]);
      if ts[0].kind == LiteralString {
        RunCons(ts);
        assert GroupRuns(ts)[1..] == BehindRun(tail);
      } else {
        assert GroupRuns(ts)[1..] == tail;
      }
    }
  }

  // ---------- Single pass == group, then render ----------

  lemma FoundCons(g: Group, groups: seq<Group>, klogFind: string -> bool)
    ensures Found([g] + groups, klogFind)
       <==> (groups != [] && g.Glued? && klogFind(Content(g.parts))) || Found(groups, klogFind)
  {
    var all := [g] + groups;
    if Found(groups, klogFind) {
      var i :| 0 <= i < |groups| - 1 && groups[i].Glued? && klogFind(Content(groups[i].parts));
      assert all[i + 1] == groups[i];
    }
    if groups != [] && g.Glued? && klogFind(Content(g.parts)) {
      assert all[0] == g;
    }
    if Found(all, klogFind) {
      var i :| 0 <= i < |all| - 1 && all[i].Glued? && klogFind(Content(all[i].parts));
      if i > 0 {
        assert groups[i - 1] == all[i];
      }
    }
  }

  /** The parts of a run that the tokens go on with, and the groups behind them. */
  function RunParts(groups: seq<Group>): seq<string> {
    if groups != [] && groups[0].Glued? then groups[0].parts else []
  }

  function BehindRun(groups: seq<Group>): seq<Group> {
    if groups != [] && groups[0].Glued? then groups[1..] else groups
  }

  /** A run of literals in front of ts becomes one group with what ts goes on with. */
  lemma RunCons(ts: seq<Token>)
    requires ts != [] && ts[0].kind == LiteralString
    ensures var tail := GroupRuns(ts[1..]);
            && GroupRuns(ts) == [Glued([Piece(ts[0])] + RunParts(tail))] + BehindRun(tail)
            && RunParts(GroupRuns(ts)) == [Piece(ts[0])] + RunParts(tail)
            && BehindRun(GroupRuns(ts)) == BehindRun(tail)
  {
    assert [Piece(ts[0])] + [] == [Piece(ts[0])];
  }

  lemma GlueCons(line: string, part: string, parts: seq<string>)
    ensures Glue(line, [part] + parts) == Glue(line + part, parts)
    ensures Content([part] + parts) == Glue(part, parts)
  {
    assert ([part] + parts)[1..] == parts;
  }

  /** What the pass makes of the rest of the tokens from inside a run, str being glued so far. */
  lemma {:induction false} FoldInsideRun(m: Progress, ts: seq<Token>, klogFind: string -> bool)
    requires m.gotString && m.str.Some? && m.prev == LiteralString
    ensures var groups := GroupRuns(ts);
            var others := BehindRun(groups);
            var end := Fold(m, ts, klogFind);
            && end.line == Render(Close(Glue(m.line, RunParts(groups)), others), others, LiteralString)
            && (end.found <==>
                  || m.found
                  || (others != [] && klogFind(Glue(m.str.value, RunParts(groups))))
                  || Found(others, klogFind))
    decreases |ts|
  {
    if ts == [] {
    } else if ts[0].kind == LiteralString {
      FoldInsideRun(Step(m, ts[0], klogFind), ts[1..], klogFind);
      RunCons(ts);
      var parts := RunParts(GroupRuns(ts[1..]));
      GlueCons(m.line, Piece(ts[0]), parts);
      GlueCons(m.str.value, Piece(ts[0]), parts);
    } else {
      FoldOutsideRun(Step(m, ts[0], klogFind), ts[1..], klogFind);
    }
  }

  lemma {:induction false} FoldOutsideRun(m: Progress, ts: seq<Token>, klogFind: string -> bool)
    requires !m.gotString && m.str.None?
    ensures var groups := GroupRuns(ts);
            var end := Fold(m, ts, klogFind);
            && end.line == Render(m.line, groups, m.prev)
            && (end.found <==> m.found || Found(groups, klogFind))
    decreases |ts|
  {
    if ts == [] {
    } else if ts[0].kind == LiteralString {
      FoldInsideRun(Step(m, ts[0], klogFind), ts[1..], klogFind);
      RunCons(ts);
      var tail := GroupRuns(ts[1..]);
      FoundCons(GroupRuns(ts)[0], BehindRun(tail), klogFind);
      GlueCons(m.line + "\"", Piece(ts[0]), RunParts(tail));
    } else {
      FoldOutsideRun(Step(m, ts[0], klogFind), ts[1..], klogFind);
    }
  }

  /** The report of the reference: group, render, look the glued literals up. */
  ghost function Reference(name: string, ts: seq<Token>, klogFind: string -> bool): Report {
    Report(Found(GroupRuns(ts), klogFind), Render(name, GroupRuns(ts), Unknown))
  }

  lemma SinglePassIsReference(name: string, ts: seq<Token>, klogFind: string -> bool)
    ensures var end := Fold(Begin(name), ts, klogFind);
            Report(end.found, end.line) == Reference(name, ts, klogFind)
  {
    FoldOutsideRun(Begin(name), ts, klogFind);
  }

  // ---------- Up to the semicolon ----------

  /** A message runs to the first `;`.  Without one it is never printed. */
  datatype Parsed = Unfinished | Finished(report: Report, rest: seq<Token>)

  function MessageFrom(m: Progress, ts: seq<Token>, klogFind: string -> bool): (r: Parsed)
    ensures r.Finished? ==> |r.rest| < |ts|
    decreases |ts|
  {
    if ts == [] then Unfinished
    else if ts[0].kind == Terminal then Finished(Report(m.found, m.line), ts[1..])
    else MessageFrom(Step(m, ts[0], klogFind), ts[1..], klogFind)
  }

  /** Position of the first `;`, or the length when there is none. */
  function TerminalIndex(ts: seq<Token>): (k: nat)
    ensures k <= |ts|
    ensures k < |ts| ==> ts[k].kind == Terminal
    ensures forall i :: 0 <= i < k ==> ts[i].kind != Terminal
  {
    if ts == [] || ts[0].kind == Terminal then 0 else 1 + TerminalIndex(ts[1..])
  }

  lemma {:induction false} MessageIsFold(m: Progress, ts: seq<Token>, klogFind: string -> bool)
    ensures var k := TerminalIndex(ts);
            var end := Fold(m, ts[..k], klogFind);
            var message := if k == |ts| then Unfinished else Finished(Report(end.found, end.line), ts[k + 1..]);
            MessageFrom(m, ts, klogFind) == message
    decreases |ts|
  {
    if ts != [] && ts[0].kind != Terminal {
      MessageIsFold(Step(m, ts[0], klogFind), ts[1..], klogFind);
      var k := TerminalIndex(ts);
      assert ts[..k][1..] == ts[1..][..k - 1] && ts[..k][0] == ts[0];
    }
  }

  /** A message is reported as the reference says, from the tokens in front of its `;`. */
  lemma MessageIsReference(name: string, ts: seq<Token>, klogFind: string -> bool)
    ensures var k := TerminalIndex(ts);
            var message := if k == |ts| then Unfinished else Finished(Reference(name, ts[..k], klogFind), ts[k + 1..]);
            MessageFrom(Begin(name), ts, klogFind) == message
  {
    MessageIsFold(Begin(name), ts, klogFind);
    SinglePassIsReference(name, ts[..TerminalIndex(ts)], klogFind);
  }

  /** get_token on a token that holds `before`: the next token of the input, appended to it. */
  method NextToken(p: Parser, t: TokenBuffer) returns (ok: bool)
    requires p.Valid() && t.Valid() && |p.getChars| <= 2 && p.skipWhiteSpace
    modifies p`filePos, p`getChars, p`rest, t`ptr, t`text, t`token, t`kind, t.token
    ensures t.token == old(t.token) || fresh(t.token)
    ensures p.Valid() && t.Valid() && |p.getChars| <= 2
    ensures ok <==> Tokens(old(p.rest), true) != []
    ensures ok ==> |p.rest| < |old(p.rest)| && Tokens(p.rest, true) == Tokens(old(p.rest), true)[1..]
    ensures ok ==> t.text == old(t.text) + Tokens(old(p.rest), true)[0].text
    ensures ok && old(Token(t.text, t.kind)) == EMPTY ==> Token(t.text, t.kind) == Tokens(old(p.rest), true)[0]
    ensures ok ==> Lexical(Tokens(old(p.rest), true)[0])
    ensures !ok ==> p.rest == [] && unchanged(t) && unchanged(t.token)
  {
    LexOneAppends(Token(t.text, t.kind), p.rest, true);
    LexOneLexical(p.rest, true);
    ok := GetToken(p, t);
  }

  /** The body of the loop of parse_kernel_message for a token that is not a `;`. */
  method AddToken(t: TokenBuffer, m: Progress, klogFind: string -> bool) returns (next: Progress)
    requires t.Valid() && Lexical(Token(t.text, t.kind))
    modifies t`text, t.token
    ensures t.Valid()
    ensures next == Step(m, old(Token(t.text, t.kind)), klogFind)
  {
    var gotString, found, str, line := m.gotString, m.found, m.str, m.line;
    if t.kind == LiteralString {
      t.LiteralStripQuotes();
      var content := t.CString();
      str := Some(if str.Some? then str.value + content else content);
      if !gotString {
        line := line + "\"";
      }
      gotString := true;
    } else {
      if gotString {
        line := line + "\"";
      }
      gotString := false;
      if str.Some? {
        found := found || klogFind(str.value);
        str := None;
      }
    }
    var piece := t.CString();
    line := line + piece;
    if t.kind == Identifier && m.prev != Comma {
      line := line + " ";
    }
    if t.kind == Comma {
      line := line + " ";
    }
    next := Progress(gotString, found, t.kind, str, line);
  }

  /** parse_kernel_message.  The token comes in holding the function's name and, when a `;` ends
      the message, goes out holding that `;`: it is not cleared. */
  method ParseKernelMessage(p: Parser, t: TokenBuffer, klogFind: string -> bool)
    returns (ok: bool, report: Report)
    requires p.Valid() && t.Valid() && |p.getChars| <= 2 && p.skipWhiteSpace
    modifies p`filePos, p`getChars, p`rest, t`ptr, t`text, t`token, t`kind, t.token
    ensures t.token == old(t.token) || fresh(t.token)
    ensures p.Valid() && t.Valid() && |p.getChars| <= 2
    ensures match MessageFrom(Begin(CStr(old(t.text))), Tokens(old(p.rest), true), klogFind)
            case Unfinished => !ok && p.rest == [] && Token(t.text, t.kind) == EMPTY
            case Finished(r, rest) =>
              ok && report == r && Tokens(p.rest, true) == rest && t.text == ";" && |p.rest| < |old(p.rest)|
  {
    var line := t.CString();
    var m := Begin(line);
    t.Clear();
    while true
      invariant t.token == old(t.token) || fresh(t.token)
      invariant p.Valid() && t.Valid() && |p.getChars| <= 2 && |p.rest| <= |old(p.rest)|
      invariant Token(t.text, t.kind) == EMPTY
      invariant MessageFrom(m, Tokens(p.rest, true), klogFind)
             == MessageFrom(Begin(line), Tokens(old(p.rest), true), klogFind)
      decreases |p.rest|
    {
      var more := NextToken(p, t);
      if !more {
        return false, Report(m.found, m.line);
      }
      if t.kind == Terminal {
        return true, Report(m.found, m.line);
      }
      m := AddToken(t, m, klogFind);
      t.Clear();
    }
  }
}
