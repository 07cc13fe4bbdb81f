/**
 All interleavings of the ACPICA OS layer (src/libfwtsacpica/fwts_acpica.c).

 Actors are the main thread and the callbacks started by AcpiOsExecute.  A wait or a signal is
 two steps, the semaphore operation and later the count under the lock, and any other step may
 come in between.  The main thread may also drain the thread table: it looks at each slot,
 joins the thread it finds there, and marks the slot free.
 */
module OsRuns {
  import opened OsTables
  import opened Sets

  /** Where an actor stands: between calls, or between the two steps of a wait or signal. */
  datatype Op = Calm | WaitPending(slot: nat) | PostPending(slot: nat)

  /** A callback: inside its function, back from it, slot marked free, or terminated. */
  datatype Phase = Running(op: Op) | Returned | Marked | Exited

  datatype Task = Task(slot: nat, phase: Phase)

  /** The main thread: at work, or in the drain of fwts_acpica_sem_count_get. */
  datatype Main =
    | Working(op: Op)
    | Check(i: nat)                    // about to look at slot i
    | Join(i: nat)                     // slot i was used
    | Joining(i: nat, thread: nat)     // waiting for the thread read from slot i
    | Mark(i: nat)                     // about to mark slot i free
    | Drained

  /** base is history: the value of a slot's semaphore when it was created or its count last
      cleared, waits and signals that were half done at that time settled.  joined is history
      too: the threads the drain has joined. */
  datatype State = State(
    sems: seq<SemInfo>, threads: seq<ThreadInfo>, tasks: map<nat, Task>, main: Main,
    base: seq<int>, joined: set<nat>)

  datatype Actor = MainThread | Callback(id: nat)

  datatype Event =
    | Create(a: Actor, units: nat)
    | Delete(a: Actor, k: nat)
    | WaitSem(a: Actor, k: nat)
    | WaitCount(a: Actor)
    | PostSem(a: Actor, k: nat)
    | PostCount(a: Actor)
    | Clear
    | Execute(a: Actor, id: nat)
    | Return(id: nat)
    | FreeSlot(id: nat)
    | Exit(id: nat)
    | StartDrain
    | CheckSlot
    | JoinCall
    | JoinDone
    | MarkSlot
    | EndDrain
    | Counted

  function Init(): State {
    State(
      seq(MAX_SEMAPHORES, _ => SemInfo(NoSem, 0, false)),
      seq(MAX_THREADS, _ => ThreadInfo(false, 0)),
      map[], Working(Calm), seq(MAX_SEMAPHORES, _ => 0), {})
  }

  // ---------- Actors ----------

  /** The actor can take a step of its own code. */
  predicate Active(s: State, a: Actor) {
    match a
    case MainThread => s.main.Working?
    case Callback(id) => id in s.tasks && s.tasks[id].phase.Running?
  }

  function OpOf(s: State, a: Actor): Op
    requires Active(s, a)
  {
    match a
    case MainThread => s.main.op
    case Callback(id) => s.tasks[id].phase.op
  }

  function SetOp(s: State, a: Actor, op: Op): State
    requires Active(s, a)
  {
    match a
    case MainThread => s.(main := Working(op))
    case Callback(id) => s.(tasks := s.tasks[id := s.tasks[id].(phase := Running(op))])
  }

  predicate IsCalm(s: State, a: Actor) { Active(s, a) && OpOf(s, a) == Calm }

  // ---------- Half-done operations ----------

  function MainOp(main: Main): Op { if main.Working? then main.op else Calm }

  function TaskOp(t: Task): Op { if t.phase.Running? then t.phase.op else Calm }

  ghost function At(tasks: map<nat, Task>, op: Op): set<nat> {
    set id | id in tasks && TaskOp(tasks[id]) == op
  }

  /** Number of actors standing at op. */
  ghost function Standing(s: State, op: Op): nat {
    |At(s.tasks, op)| + if MainOp(s.main) == op then 1 else 0
  }

  /** Waits minus signals on slot k whose count step is still to come. */
  ghost function Owed(s: State, k: nat): int {
    Standing(s, WaitPending(k)) - Standing(s, PostPending(k))
  }

  ghost predicate Quiet(s: State, k: nat) {
    Standing(s, WaitPending(k)) == 0 && Standing(s, PostPending(k)) == 0
  }

  // ---------- Steps ----------

  predicate LiveSlot(s: State, k: nat) {
    k < |s.sems| && s.sems[k].used && s.sems[k].sem.Live?
  }

  predicate Sized(s: State) {
    |s.sems| == |s.base| == MAX_SEMAPHORES && |s.threads| == MAX_THREADS
  }

  /** What a step needs.  A semaphore operation needs a live slot and goes through only on a
      value it can change; deleting a slot that somebody still stands on is the caller's error.
      A callback may be started at any time, the drain included. */
  ghost predicate Enabled(s: State, e: Event)
    requires Sized(s)
  {
    match e
    case Create(a, _) => IsCalm(s, a)
    case Delete(a, k) => IsCalm(s, a) && LiveSlot(s, k) && Quiet(s, k)
    case WaitSem(a, k) => IsCalm(s, a) && LiveSlot(s, k) && s.sems[k].sem.value > 0
    case WaitCount(a) => Active(s, a) && OpOf(s, a).WaitPending? && OpOf(s, a).slot < MAX_SEMAPHORES
    case PostSem(a, k) => IsCalm(s, a) && LiveSlot(s, k) && s.sems[k].sem.value < SEM_VALUE_MAX
    case PostCount(a) => Active(s, a) && OpOf(s, a).PostPending? && OpOf(s, a).slot < MAX_SEMAPHORES
    case Clear => IsCalm(s, MainThread)
    case Execute(a, id) => IsCalm(s, a) && id !in s.tasks
    case Return(id) => IsCalm(s, Callback(id))
    case FreeSlot(id) => id in s.tasks && s.tasks[id].phase == Returned && s.tasks[id].slot < MAX_THREADS
    case Exit(id) => id in s.tasks && s.tasks[id].phase == Marked
    case StartDrain => IsCalm(s, MainThread)
    case CheckSlot => s.main.Check? && s.main.i < MAX_THREADS
    case JoinCall => s.main.Join? && s.main.i < MAX_THREADS
    case JoinDone => s.main.Joining? && s.main.thread in s.tasks && s.tasks[s.main.thread].phase == Exited
    case MarkSlot => s.main.Mark? && s.main.i < MAX_THREADS
    case EndDrain => s.main == Check(MAX_THREADS)
    case Counted => s.main == Drained
  }

  ghost function Next(s: State, e: Event): (r: State)
    requires Sized(s) && Enabled(s, e)
    ensures Sized(r)
  {
    match e
    case Create(_, units) =>
      var k := FreeSem(s.sems);
      if k == MAX_SEMAPHORES then s
      else s.(sems := CreateSem(s.sems, units), base := s.base[k := units])
    case Delete(_, k) => s.(sems := DeleteSem(s.sems, k))
    case WaitSem(a, k) =>
      SetOp(s.(sems := WithValue(s.sems, k, s.sems[k].sem.value - 1)), a, WaitPending(k))
    case WaitCount(a) =>
      var k := OpOf(s, a).slot;
      SetOp(s.(sems := WithCount(s.sems, k, s.sems[k].count + 1)), a, Calm)
    case PostSem(a, k) =>
      SetOp(s.(sems := WithValue(s.sems, k, s.sems[k].sem.value + 1)), a, PostPending(k))
    case PostCount(a) =>
      var k := OpOf(s, a).slot;
      SetOp(s.(sems := WithCount(s.sems, k, s.sems[k].count - 1)), a, Calm)
    case Clear =>
      s.(sems := ClearCounts(s.sems), base := Settled(s))
    case Execute(_, id) =>
      var i := FreeThread(s.threads);
      if i == MAX_THREADS then s
      else s.(threads := s.threads[i := ThreadInfo(true, id)], tasks := s.tasks[id := Task(i, Running(Calm))])
    case Return(id) => s.(tasks := s.tasks[id := s.tasks[id].(phase := Returned)])
    case FreeSlot(id) =>
      s.(threads := MarkFree(s.threads, s.tasks[id].slot), tasks := s.tasks[id := s.tasks[id].(phase := Marked)])
    case Exit(id) => s.(tasks := s.tasks[id := s.tasks[id].(phase := Exited)])
    case StartDrain => s.(main := Check(0))
    case CheckSlot => s.(main := if s.threads[s.main.i].used then Join(s.main.i) else Check(s.main.i + 1))
    case JoinCall => s.(main := Joining(s.main.i, s.threads[s.main.i].thread))
    case JoinDone => s.(main := Mark(s.main.i), joined := s.joined + {s.main.thread})
    case MarkSlot => s.(main := Check(s.main.i + 1), threads := MarkFree(s.threads, s.main.i))
    case EndDrain => s.(main := Drained)
    case Counted => s.(main := Working(Calm))
  }

  /** The values of all semaphores, operations that are half done settled. */
  ghost function Settled(s: State): (r: seq<int>)
    requires Sized(s)
    ensures |r| == MAX_SEMAPHORES
  {
    seq(MAX_SEMAPHORES, k requires 0 <= k < MAX_SEMAPHORES =>
      if s.sems[k].sem.Live? then s.sems[k].sem.value + Owed(s, k) else s.base[k])
  }

  // ---------- What every step keeps ----------

  /** A live slot's value, count and half-done operations add up to its base value. */
  ghost predicate Balanced(s: State, k: nat)
    requires Sized(s) && k < MAX_SEMAPHORES
  {
    s.sems[k].sem.Live? ==> s.sems[k].sem.value + s.sems[k].count + Owed(s, k) == s.base[k]
  }

  /** A live slot is used, and its value one a semaphore can have; nobody stands on one that is not
      live, and its count is zero. */
  ghost predicate SlotOk(s: State, k: nat)
    requires Sized(s) && k < MAX_SEMAPHORES
  {
    && (s.sems[k].sem.Live? ==> s.sems[k].used && s.sems[k].sem.value <= 0x7fff_ffff)
    && (s.sems[k].sem.NoSem? ==> s.sems[k].count == 0 && Quiet(s, k))
  }

  ghost predicate SemInv(s: State) {
    && Sized(s)
    && (forall k: nat :: k < MAX_SEMAPHORES ==> Balanced(s, k))
    && (forall k: nat :: k < MAX_SEMAPHORES ==> SlotOk(s, k))
  }

  // ---------- Semaphores ----------

  /** Only the op of one actor changes: what is owed changes by that actor alone. */
  function Weight(op: Op, k: nat): int {
    if op == WaitPending(k) then 1 else if op == PostPending(k) then -1 else 0
  }

  lemma AtBesides(tasks: map<nat, Task>, id: nat, at: Op)
    requires id in tasks
    ensures |At(tasks, at)| == |At(tasks, at) - {id}| + if TaskOp(tasks[id]) == at then 1 else 0
  {
    var others := At(tasks, at) - {id};
    if TaskOp(tasks[id]) == at {
      assert At(tasks, at) == others + {id};
    } else {
      assert At(tasks, at) == others;
    }
  }

  lemma CallbackMoves(tasks: map<nat, Task>, id: nat, op: Op, at: Op)
    requires id in tasks && tasks[id].phase.Running?
    ensures var after := tasks[id := tasks[id].(phase := Running(op))];
            |At(after, at)| == |At(tasks, at)| - (if tasks[id].phase.op == at then 1 else 0) + (if op == at then 1 else 0)
  {
    var after := tasks[id := tasks[id].(phase := Running(op))];
    AtBesides(tasks, id, at);
    AtBesides(after, id, at);
    assert At(after, at) - {id} == At(tasks, at) - {id};
  }

  lemma StandingAfter(s: State, a: Actor, op: Op, at: Op)
    requires Active(s, a)
    ensures Standing(SetOp(s, a, op), at)
         == Standing(s, at) - (if OpOf(s, a) == at then 1 else 0) + (if op == at then 1 else 0)
  {
    if a.Callback? {
      CallbackMoves(s.tasks, a.id, op, at);
    }
  }

  lemma OwedAfter(s: State, a: Actor, op: Op, k: nat)
    requires Active(s, a)
    ensures Owed(SetOp(s, a, op), k) == Owed(s, k) - Weight(OpOf(s, a), k) + Weight(op, k)
    ensures (OpOf(s, a) == Calm || OpOf(s, a).slot != k) && (op == Calm || op.slot != k) && Quiet(s, k) ==> Quiet(SetOp(s, a, op), k)
  {
    StandingAfter(s, a, op, WaitPending(k));
    StandingAfter(s, a, op, PostPending(k));
  }

  /** A step that leaves every actor's op alone leaves what is owed alone. */
  lemma OwedUnchanged(s: State, after: State)
    requires MainOp(s.main) == MainOp(after.main)
    requires forall id :: id in s.tasks ==> id in after.tasks && TaskOp(after.tasks[id]) == TaskOp(s.tasks[id])
    requires forall id :: id in after.tasks && id !in s.tasks ==> TaskOp(after.tasks[id]) == Calm
    ensures forall k: nat :: Owed(after, k) == Owed(s, k) && (Quiet(s, k) ==> Quiet(after, k))
  {
    forall k: nat
      ensures Owed(after, k) == Owed(s, k) && (Quiet(s, k) ==> Quiet(after, k))
    {
      assert At(after.tasks, WaitPending(k)) == At(s.tasks, WaitPending(k));
      assert At(after.tasks, PostPending(k)) == At(s.tasks, PostPending(k));
    }
  }

  /** An actor that stands on a slot is counted there. */
  lemma StandingCounts(s: State, a: Actor)
    requires Active(s, a)
    ensures Standing(s, OpOf(s, a)) > 0
  {
    if a.Callback? {
      assert a.id in At(s.tasks, OpOf(s, a));
    }
  }

  /** Either step of a wait or signal: an actor moves on and slot k changes by as much. */
  lemma OpStepKeepsSemInv(s: State, sems: seq<SemInfo>, a: Actor, op: Op, k: nat)
    requires SemInv(s) && Active(s, a) && LiveSlot(s, k) && |sems| == MAX_SEMAPHORES
    requires sems == s.sems[k := sems[k]] && sems[k].used && sems[k].sem.Live? && sems[k].sem.value <= SEM_VALUE_MAX
    requires OpOf(s, a) == Calm || OpOf(s, a).slot == k
    requires op == Calm || op.slot == k
    requires sems[k].sem.value + sems[k].count - Weight(OpOf(s, a), k) + Weight(op, k)
          == s.sems[k].sem.value + s.sems[k].count
    ensures SemInv(SetOp(s.(sems := sems), a, op))
  {
    var after := SetOp(s.(sems := sems), a, op);
    forall j: nat | j < MAX_SEMAPHORES
      ensures Balanced(after, j) && SlotOk(after, j)
    {
      assert Balanced(s, j) && SlotOk(s, j);
      OwedAfter(s, a, op, j);
      assert Owed(after, j) == Owed(SetOp(s, a, op), j);
    }
  }

  /** Whoever stands on a slot stands on a live one. */
  lemma StandsOnLive(s: State, a: Actor)
    requires SemInv(s) && Active(s, a) && OpOf(s, a) != Calm && OpOf(s, a).slot < MAX_SEMAPHORES
    ensures LiveSlot(s, OpOf(s, a).slot)
  {
    StandingCounts(s, a);
    assert !Quiet(s, OpOf(s, a).slot) && SlotOk(s, OpOf(s, a).slot);
  }

  predicate MovesUnits(e: Event) { e.WaitSem? || e.PostSem? || e.WaitCount? || e.PostCount? }

  /** A step that leaves every actor's op alone. */
  lemma TableStepKeepsSemInv(s: State, e: Event)
    requires SemInv(s) && Enabled(s, e) && !MovesUnits(e)
    ensures SemInv(Next(s, e))
  {
    var after := Next(s, e);
    OwedUnchanged(s, after);
    forall j: nat | j < MAX_SEMAPHORES
      ensures Balanced(after, j) && SlotOk(after, j)
    {
      assert Balanced(s, j) && SlotOk(s, j);
      if e.Clear? || e.Create? || e.Delete? {
        SlotStepKeepsBalance(s, e, j);
      }
    }
  }

  lemma SlotStepKeepsBalance(s: State, e: Event, j: nat)
    requires Sized(s) && Enabled(s, e) && (e.Clear? || e.Create? || e.Delete?)
    requires j < MAX_SEMAPHORES && Balanced(s, j) && SlotOk(s, j)
    requires Owed(Next(s, e), j) == Owed(s, j) && (Quiet(s, j) ==> Quiet(Next(s, e), j))
    ensures Balanced(Next(s, e), j) && SlotOk(Next(s, e), j)
  {
  }

  lemma OpEventKeepsSemInv(s: State, e: Event)
    requires SemInv(s) && Enabled(s, e)
    requires MovesUnits(e)
    ensures SemInv(Next(s, e))
  {
    match e
    case WaitSem(a, k) =>
      assert SlotOk(s, k);
      OpStepKeepsSemInv(s, WithValue(s.sems, k, s.sems[k].sem.value - 1), a, WaitPending(k), k);
    case PostSem(a, k) =>
      OpStepKeepsSemInv(s, WithValue(s.sems, k, s.sems[k].sem.value + 1), a, PostPending(k), k);
    case WaitCount(a) =>
      StandsOnLive(s, a);
      var k := OpOf(s, a).slot;
      assert SlotOk(s, k);
      OpStepKeepsSemInv(s, WithCount(s.sems, k, s.sems[k].count + 1), a, Calm, k);
    case PostCount(a) =>
      StandsOnLive(s, a);
      var k := OpOf(s, a).slot;
      assert SlotOk(s, k);
      OpStepKeepsSemInv(s, WithCount(s.sems, k, s.sems[k].count - 1), a, Calm, k);
  }

  lemma StepKeepsSemInv(s: State, e: Event)
    requires SemInv(s) && Enabled(s, e)
    ensures SemInv(Next(s, e))
  {
    if MovesUnits(e) {
      OpEventKeepsSemInv(s, e);
    } else {
      TableStepKeepsSemInv(s, e);
    }
  }

  // ---------- Whole runs ----------

  ghost predicate Run(s: State, es: seq<Event>)
    requires Sized(s)
    decreases |es|
  {
    es == [] || (Enabled(s, es[0]) && Run(Next(s, es[0]), es[1..]))
  }

  ghost function End(s: State, es: seq<Event>): (r: State)
    requires Sized(s) && Run(s, es)
    ensures Sized(r)
    decreases |es|
  {
    if es == [] then s else End(Next(s, es[0]), es[1..])
  }

  lemma InitIsQuiet(k: nat)
    ensures Quiet(Init(), k) && Owed(Init(), k) == 0
  {
    assert At(Init().tasks, WaitPending(k)) == {} && At(Init().tasks, PostPending(k)) == {};
  }

  lemma InitHolds()
    ensures SemInv(Init())
  {
    forall k: nat | k < MAX_SEMAPHORES
      ensures Balanced(Init(), k) && Quiet(Init(), k)
    {
      InitIsQuiet(k);
    }
  }

  lemma {:induction false} RunKeepsSemInv(s: State, es: seq<Event>)
    requires SemInv(s) && Run(s, es)
    ensures SemInv(End(s, es))
    decreases |es|
  {
    if es != [] {
      StepKeepsSemInv(s, es[0]);
      RunKeepsSemInv(Next(s, es[0]), es[1..]);
    }
  }

  /** In every run, at every moment, a live slot's value, count and half-done operations add up
      to its base value. */
  lemma SemaphoreAccounting(es: seq<Event>, k: nat)
    requires Run(Init(), es) && k < MAX_SEMAPHORES
    ensures var s := End(Init(), es);
            s.sems[k].sem.Live? ==> s.sems[k].sem.value + s.sems[k].count + Owed(s, k) == s.base[k]
  {
    InitHolds();
    RunKeepsSemInv(Init(), es);
    assert Balanced(End(Init(), es), k);
  }

  lemma TwoSteps(s: State, e: Event, f: Event)
    requires Sized(s)
    ensures Run(s, [e, f]) <==> Enabled(s, e) && Enabled(Next(s, e), f)
    ensures Run(s, [e, f]) ==> End(s, [e, f]) == Next(Next(s, e), f)
  {
    assert [e, f][1..] == [f] && [f][1..] == [];
    if Enabled(s, e) {
      assert Run(Next(s, e), [f]) <==> Enabled(Next(s, e), f);
      if Enabled(Next(s, e), f) {
        assert End(Next(s, e), [f]) == Next(Next(s, e), f);
      }
    }
  }

  /** A wait without a step of others in between goes through exactly on a value above zero, and
      moves one unit from the value to the count; a signal moves it back. */
  lemma WaitIsTwoSteps(s: State, a: Actor, k: nat)
    requires SemInv(s) && IsCalm(s, a) && LiveSlot(s, k)
    ensures var es := [WaitSem(a, k), WaitCount(a)];
            && (Run(s, es) <==> s.sems[k].sem.value > 0)
            && (Run(s, es) ==> Moved(s.sems, End(s, es).sems, k, 1) && IsCalm(End(s, es), a))
  {
    TwoSteps(s, WaitSem(a, k), WaitCount(a));
  }

  lemma SignalIsTwoSteps(s: State, a: Actor, k: nat)
    requires SemInv(s) && IsCalm(s, a) && LiveSlot(s, k)
    ensures var es := [PostSem(a, k), PostCount(a)];
            && (Run(s, es) <==> s.sems[k].sem.value < 0x7fff_ffff)
            && (Run(s, es) ==> Moved(s.sems, End(s, es).sems, k, -1) && IsCalm(End(s, es), a))
  {
    TwoSteps(s, PostSem(a, k), PostCount(a));
  }

  /** Slots whose semaphore is back at its base value, and slots leaked by a failed sem_init. */
  ghost function BackAtBase(s: State): set<nat>
    requires Sized(s)
  {
    set k: nat | k < MAX_SEMAPHORES && s.sems[k].used && (s.sems[k].sem.Live? ==> s.sems[k].sem.value == s.base[k])
  }

  /** With nothing half done, `released` is exactly the number of slots back at base. */
  lemma ReleasedIsBackAtBase(s: State)
    requires SemInv(s) && forall k: nat :: k < MAX_SEMAPHORES ==> Quiet(s, k)
    ensures ReleasedSlots(s.sems) == BackAtBase(s)
    ensures |BackAtBase(s)| <= |UsedSlots(s.sems)| <= MAX_SEMAPHORES
  {
    forall k: nat | k < MAX_SEMAPHORES
      ensures k in ReleasedSlots(s.sems) <==> k in BackAtBase(s)
    {
      assert Balanced(s, k) && SlotOk(s, k) && Quiet(s, k);
    }
    assert ReleasedSlots(s.sems) == BackAtBase(s);
    CountsBounded(s.sems);
  }

  // ---------- Leaked slots ----------

  /** A slot is taken for a semaphore that cannot be initialised. */
  predicate Leaks(s: State, e: Event) {
    e.Create? && e.units > SEM_VALUE_MAX && FreeSem(s.sems) < MAX_SEMAPHORES
  }

  ghost predicate NeverLeaks(s: State, es: seq<Event>)
    requires Sized(s) && Run(s, es)
    decreases |es|
  {
    es != [] ==> !Leaks(s, es[0]) && NeverLeaks(Next(s, es[0]), es[1..])
  }

  /** Every used slot holds a live semaphore. */
  predicate AllLive(s: State)
    requires Sized(s)
  {
    forall k: nat :: k < MAX_SEMAPHORES && s.sems[k].used ==> LiveSlot(s, k)
  }

  /** A leaked slot is never given back, and nothing but such a call leaks one. */
  lemma LeakStep(s: State, e: Event)
    requires SemInv(s) && Enabled(s, e)
    ensures AllLive(Next(s, e)) <==> AllLive(s) && !Leaks(s, e)
  {
    var after := Next(s, e);
    if Leaks(s, e) {
      assert after.sems[FreeSem(s.sems)].used && !LiveSlot(after, FreeSem(s.sems));
    } else if MovesUnits(e) && OpOf(s, e.a) != Calm {
      StandsOnLive(s, e.a);
    }
    forall k: nat | k < MAX_SEMAPHORES && s.sems[k].used && !LiveSlot(s, k)
      ensures after.sems[k].used && !LiveSlot(after, k)
    {
    }
  }

  lemma {:induction false} RunLeaks(s: State, es: seq<Event>)
    requires SemInv(s) && Run(s, es)
    ensures AllLive(End(s, es)) <==> AllLive(s) && NeverLeaks(s, es)
    decreases |es|
  {
    if es != [] {
      LeakStep(s, es[0]);
      StepKeepsSemInv(s, es[0]);
      RunLeaks(Next(s, es[0]), es[1..]);
    }
  }

  /** The live semaphores that are back at their base value. */
  ghost function LiveAtBase(s: State): set<nat>
    requires Sized(s)
  {
    set k: nat | k < MAX_SEMAPHORES && LiveSlot(s, k) && s.sems[k].sem.value == s.base[k]
  }

  /** Of every run with nothing half done at its end: `released` is the number of live semaphores
      back at base exactly when no initialisation has failed while a slot was free. */
  lemma ReleasedIsLiveExactly(es: seq<Event>)
    requires Run(Init(), es) && forall k: nat :: k < MAX_SEMAPHORES ==> Quiet(End(Init(), es), k)
    ensures |ReleasedSlots(End(Init(), es).sems)| == |LiveAtBase(End(Init(), es))| <==> NeverLeaks(Init(), es)
    ensures NeverLeaks(Init(), es) ==> ReleasedSlots(End(Init(), es).sems) == LiveAtBase(End(Init(), es))
  {
    var s := End(Init(), es);
    InitHolds();
    RunKeepsSemInv(Init(), es);
    RunLeaks(Init(), es);
    ReleasedIsBackAtBase(s);
    if AllLive(s) {
      assert BackAtBase(s) == LiveAtBase(s);
    } else {
      var leaked: nat :| leaked < MAX_SEMAPHORES && s.sems[leaked].used && !LiveSlot(s, leaked);
      assert leaked in BackAtBase(s);
      SubsetSize(LiveAtBase(s), BackAtBase(s) - {leaked});
    }
  }

  /** One such call leaves a slot that counts as released without any semaphore. */
  lemma FailedCreateLeaks()
    ensures var es := [Create(MainThread, SEM_VALUE_MAX + 1)];
            && Run(Init(), es) && !NeverLeaks(Init(), es)
            && ReleasedSlots(End(Init(), es).sems) == {0} && LiveAtBase(End(Init(), es)) == {}
  {
    var e := Create(MainThread, SEM_VALUE_MAX + 1);
    FirstFree(Init().sems, 0);
    assert [e][1..] == [];
    assert End(Init(), [e]) == Next(Init(), e);
  }
}
