/** Walks over a table, record by record: a step leads from the start of a record to its end. */
module Walks {
  import opened Bytes

  /** Consecutive points are one step apart. */
  ghost predicate Path(step: (nat, nat) -> bool, points: seq<nat>) {
    points != [] && forall i, j :: 0 <= i && j == i + 1 < |points| ==> step(points[i], points[j])
  }

  /** A path from a to an accepted end. */
  ghost predicate Run(step: (nat, nat) -> bool, accept: nat -> bool, a: nat, points: seq<nat>) {
    Path(step, points) && points[0] == a && accept(points[|points| - 1])
  }

  /** Steps are determined by where they start, and no step leaves an accepted end. */
  ghost predicate Steps(step: (nat, nat) -> bool, accept: nat -> bool) {
    && (forall a, b, c :: step(a, b) && step(a, c) ==> b == c)
    && (forall a, b :: step(a, b) ==> !accept(a))
  }

  /** The bytes of a memory from a up to b. */
  function Slice(mem: nat -> Byte, a: nat, b: nat): (s: seq<Byte>)
    requires a <= b
    ensures |s| == b - a && forall i :: 0 <= i < b - a ==> s[i] == mem(a + i)
  {
    seq(b - a, i requires 0 <= i => mem(a + i))
  }

  /** The record at each point but the last is in order. */
  ghost predicate AllOk(fieldsOk: nat -> bool, points: seq<nat>) {
    forall i :: 0 <= i < |points| - 1 ==> fieldsOk(points[i])
  }

  lemma PathMore(step: (nat, nat) -> bool, points: seq<nat>, b: nat)
    requires Path(step, points) && step(points[|points| - 1], b)
    ensures Path(step, points + [b])
  {
  }

  lemma RunAhead(step: (nat, nat) -> bool, accept: nat -> bool, a: nat, b: nat, run: seq<nat>)
    requires step(a, b) && Run(step, accept, b, run)
    ensures Run(step, accept, a, [a] + run)
  {
    var all := [a] + run;
    assert forall i :: 0 < i < |all| ==> all[i] == run[i - 1];
  }

  /** Every run goes through the points of a path that starts where it does. */
  lemma {:induction false} RunExtendsPath(step: (nat, nat) -> bool, accept: nat -> bool, points: seq<nat>, run: seq<nat>)
    requires Steps(step, accept) && Path(step, points) && Run(step, accept, points[0], run)
    ensures |points| <= |run| && run[..|points|] == points
    decreases |points|
  {
    if |points| > 1 {
      var n := |points| - 1;
      assert Path(step, points[..n]);
      RunExtendsPath(step, accept, points[..n], run);
      assert run[n - 1] == run[..n][n - 1] == points[n - 1];
      assert step(points[n - 1], points[n]);
      assert n < |run|;
      assert step(run[n - 1], run[n]);
      assert run[..n + 1] == run[..n] + [run[n]];
    }
  }

  /** There is at most one run. */
  lemma RunOnce(step: (nat, nat) -> bool, accept: nat -> bool, a: nat, run: seq<nat>, other: seq<nat>)
    requires Steps(step, accept) && Run(step, accept, a, run) && Run(step, accept, a, other)
    ensures run == other
  {
    RunExtendsPath(step, accept, run, other);
    RunExtendsPath(step, accept, other, run);
  }

  /** Where a run goes through, it ends or goes on. */
  lemma RunGoesOn(step: (nat, nat) -> bool, accept: nat -> bool, points: seq<nat>, run: seq<nat>)
    requires Steps(step, accept) && Path(step, points) && Run(step, accept, points[0], run)
    ensures var end := points[|points| - 1]; accept(end) || exists b :: step(end, b)
  {
    var n := |points|;
    RunExtendsPath(step, accept, points, run);
    assert run[n - 1] == run[..n][n - 1];
    if n < |run| {
      assert step(run[n - 1], run[n]);
    }
  }

  /** A path that can neither be accepted nor go on leaves no run. */
  lemma DeadEnd(step: (nat, nat) -> bool, accept: nat -> bool, points: seq<nat>)
    requires Steps(step, accept) && Path(step, points)
    requires var end := points[|points| - 1]; !accept(end) && forall b :: !step(end, b)
    ensures forall run :: !Run(step, accept, points[0], run)
  {
    forall run ensures !Run(step, accept, points[0], run) {
      if Run(step, accept, points[0], run) {
        RunGoesOn(step, accept, points, run);
      }
    }
  }
}
