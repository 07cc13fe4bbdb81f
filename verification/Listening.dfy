/**
 Listening for calls in a row of n positions.  Some positions are names and some are stops; a
 call is a name with the next stop behind it, and whoever has heard a call listens again gap
 positions on from its stop.
 */
module Listening {
  datatype Row = Row(n: nat, name: nat -> bool, stop: nat -> bool)

  /** A call by the positions of its name and of its stop. */
  datatype Call = Call(name: nat, end: nat)

  predicate CallAt(r: Row, c: Call) {
    c.name < c.end < r.n && r.name(c.name) && r.stop(c.end) && forall k: nat :: c.name < k < c.end ==> !r.stop(k)
  }

  predicate NoName(r: Row, a: nat, b: nat) { forall i: nat :: a <= i < b ==> !r.name(i) }

  /** From position a on, no stop follows a name. */
  predicate NoCall(r: Row, a: nat) { forall i: nat, k: nat :: a <= i < k < r.n && r.name(i) ==> !r.stop(k) }

  /** The calls that are heard from position a on: the first name from there begins the next one. */
  predicate Heard(r: Row, a: nat, gap: nat, calls: seq<Call>)
    decreases |calls|
  {
    if calls == [] then NoCall(r, a)
    else
      var c := calls[0];
      a <= c.name && CallAt(r, c) && NoName(r, a, c.name) && Heard(r, c.end + gap, gap, calls[1..])
  }

  /** One report for each call, in order. */
  predicate Reports<R(==)>(printed: seq<R>, report: Call -> R, calls: seq<Call>) {
    |printed| == |calls| && forall j :: 0 <= j < |calls| ==> printed[j] == report(calls[j])
  }

  /** The calls that are heard are determined. */
  lemma {:induction false} HeardOnce(r: Row, a: nat, gap: nat, calls: seq<Call>, others: seq<Call>)
    requires Heard(r, a, gap, calls) && Heard(r, a, gap, others)
    ensures calls == others
    decreases |calls|
  {
    if calls != [] && others != [] {
      var c, d := calls[0], others[0];
      assert c.name == d.name;
      assert c.end == d.end;
      HeardOnce(r, c.end + gap, gap, calls[1..], others[1..]);
      assert calls == [c] + calls[1..] && others == [d] + others[1..];
    } else {
      assert calls == [] && others == [];
    }
  }

  /** One round of listening at position a, f telling for each position what is reported from there. */
  ghost predicate Round<R>(f: nat -> seq<R>, r: Row, report: Call -> R, a: nat, gap: nat) {
    if a >= r.n then f(a) == []
    else if !r.name(a) then f(a) == f(a + 1)
    else if NoCall(r, a) then f(a) == []
    else exists c: Call :: c.name == a && CallAt(r, c) && f(a) == [report(c)] + f(c.end + gap)
  }

  ghost predicate Listens<R(!new)>(f: nat -> seq<R>, r: Row, report: Call -> R, gap: nat) {
    forall a: nat :: Round(f, r, report, a, gap)
  }

  /** Whoever listens reports the calls that are heard. */
  lemma {:induction false} ReportsHeard<R(!new)>(f: nat -> seq<R>, r: Row, report: Call -> R, a: nat, gap: nat) returns (calls: seq<Call>)
    requires Listens(f, r, report, gap)
    ensures Heard(r, a, gap, calls) && Reports(f(a), report, calls)
    decreases r.n - a
  {
    assert Round(f, r, report, a, gap);
    if a >= r.n {
      calls := [];
    } else if !r.name(a) {
      calls := ReportsHeard(f, r, report, a + 1, gap);
      if calls != [] {
        assert NoName(r, a, calls[0].name);
      }
    } else if NoCall(r, a) {
      calls := [];
    } else {
      var c: Call :| c.name == a && CallAt(r, c) && f(a) == [report(c)] + f(c.end + gap);
      var others := ReportsHeard(f, r, report, c.end + gap, gap);
      calls := [c] + others;
      assert calls[0] == c && calls[1..] == others;
      assert NoName(r, a, a);
    }
  }
}
