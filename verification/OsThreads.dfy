/**
 The thread table of the ACPICA OS layer in all interleavings (src/libfwtsacpica/fwts_acpica.c):
 what is kept whatever happens, when a callback keeps its slot, when the drain leaves nothing
 behind, and that the drain can always finish.
 */
module OsThreads {
  import opened OsTables
  import opened OsRuns
  import opened Sets

  // ---------- What every step keeps ----------

  /** A callback that has not given its slot back. */
  predicate Unfinished(s: State, id: nat) {
    id in s.tasks && (s.tasks[id].phase.Running? || s.tasks[id].phase.Returned?)
  }

  predicate TaskOk(t: Task) {
    t.slot < MAX_THREADS && (TaskOp(t) == Calm || TaskOp(t).slot < MAX_SEMAPHORES)
  }

  /** Thread t was started in slot i. */
  predicate StartedIn(s: State, t: nat, i: nat) { t in s.tasks && s.tasks[t].slot == i }

  /** A used slot holds an unfinished thread that was started in it. */
  predicate Held(s: State, i: nat)
    requires i < |s.threads|
  {
    s.threads[i].used ==> StartedIn(s, s.threads[i].thread, i) && Unfinished(s, s.threads[i].thread)
  }

  /** What the drain is about to join was started in the slot it looks at, and not joined before. */
  predicate DrainOk(s: State)
    requires Sized(s)
  {
    match s.main
    case Working(_) => true
    case Check(i) => i <= MAX_THREADS
    case Join(i) => i < MAX_THREADS && StartedIn(s, s.threads[i].thread, i) && s.threads[i].thread !in s.joined
    case Joining(i, thread) => i < MAX_THREADS && StartedIn(s, thread, i) && thread !in s.joined
    case Mark(i) => i < MAX_THREADS
    case Drained => true
  }

  predicate ThreadInv(s: State) {
    && Sized(s)
    && (forall id :: id in s.tasks ==> TaskOk(s.tasks[id]))
    && (forall i :: 0 <= i < MAX_THREADS ==> Held(s, i))
    && (forall t :: t in s.joined ==> t in s.tasks && s.tasks[t].phase == Exited)
    && DrainOk(s)
  }

  /** The phase of one callback changes, to one that comes later unless it is the same. */
  lemma TaskStepKeepsThreadInv(s: State, id: nat, phase: Phase)
    requires ThreadInv(s) && id in s.tasks && TaskOk(s.tasks[id].(phase := phase))
    requires Unfinished(s, id) ==> phase.Running? || phase.Returned?
    requires s.tasks[id].phase != Exited
    ensures ThreadInv(s.(tasks := s.tasks[id := s.tasks[id].(phase := phase)]))
  {
    var after := s.(tasks := s.tasks[id := s.tasks[id].(phase := phase)]);
    forall i: nat | i < MAX_THREADS
      ensures Held(after, i)
    {
      assert Held(s, i);
    }
  }

  /** One slot is handed out or marked free. */
  lemma SlotStepKeepsThreadInv(s: State, e: Event)
    requires ThreadInv(s) && Enabled(s, e) && (e.Execute? || e.FreeSlot? || e.MarkSlot?)
    ensures ThreadInv(Next(s, e))
  {
    var after := Next(s, e);
    forall i: nat | i < MAX_THREADS
      ensures Held(after, i)
    {
      assert Held(s, i);
    }
  }

  /** A step that leaves the thread table and the callbacks alone. */
  lemma MainStepKeepsThreadInv(s: State, after: State)
    requires ThreadInv(s) && Sized(after) && after.threads == s.threads && after.tasks == s.tasks && DrainOk(after)
    requires forall t :: t in after.joined ==> t in s.tasks && s.tasks[t].phase == Exited
    ensures ThreadInv(after)
  {
    forall i: nat | i < MAX_THREADS
      ensures Held(after, i)
    {
      assert Held(s, i);
    }
  }

  lemma DrainStepKeepsThreadInv(s: State, e: Event)
    requires ThreadInv(s) && Enabled(s, e)
    requires e.StartDrain? || e.CheckSlot? || e.JoinCall? || e.JoinDone? || e.EndDrain? || e.Counted?
    ensures ThreadInv(Next(s, e))
  {
    if e.CheckSlot? {
      assert Held(s, s.main.i);
    }
    MainStepKeepsThreadInv(s, Next(s, e));
  }

  lemma SemEventKeepsThreadInv(s: State, e: Event)
    requires ThreadInv(s) && Enabled(s, e) && (MovesUnits(e) || e.Create? || e.Delete? || e.Clear?)
    ensures ThreadInv(Next(s, e))
  {
    var after := Next(s, e);
    if MovesUnits(e) && e.a.Callback? {
      var op := if e.WaitSem? then WaitPending(e.k) else if e.PostSem? then PostPending(e.k) else Calm;
      var moved := s.(tasks := s.tasks[e.a.id := s.tasks[e.a.id].(phase := Running(op))]);
      TaskStepKeepsThreadInv(s, e.a.id, Running(op));
      MainStepKeepsThreadInv(moved, after);
    } else {
      MainStepKeepsThreadInv(s, after);
    }
  }

  /** Every step keeps the invariant, callbacks started during the drain included. */
  lemma StepKeepsThreadInv(s: State, e: Event)
    requires ThreadInv(s) && Enabled(s, e)
    ensures ThreadInv(Next(s, e))
  {
    if MovesUnits(e) || e.Create? || e.Delete? || e.Clear? {
      SemEventKeepsThreadInv(s, e);
    } else if e.Execute? || e.FreeSlot? || e.MarkSlot? {
      SlotStepKeepsThreadInv(s, e);
    } else if e.Return? {
      TaskStepKeepsThreadInv(s, e.id, Returned);
    } else if e.Exit? {
      TaskStepKeepsThreadInv(s, e.id, Exited);
    } else {
      DrainStepKeepsThreadInv(s, e);
    }
  }

  lemma InitThreads()
    ensures ThreadInv(Init()) && AllOwn(Init()) && Guarded(Init()) && PassedAreLate(Init(), {})
  {
    forall i: nat | i < MAX_THREADS
      ensures Held(Init(), i)
    {
    }
  }

  lemma {:induction false} RunKeepsThreadInv(s: State, es: seq<Event>)
    requires ThreadInv(s) && Run(s, es)
    ensures ThreadInv(End(s, es))
    decreases |es|
  {
    if es != [] {
      StepKeepsThreadInv(s, es[0]);
      RunKeepsThreadInv(Next(s, es[0]), es[1..]);
    }
  }

  /** In no run does the drain join a thread twice. */
  lemma JoinsOnce(es: seq<Event>)
    requires Run(Init(), es) && Enabled(End(Init(), es), JoinDone)
    ensures End(Init(), es).main.thread !in End(Init(), es).joined
  {
    InitThreads();
    RunKeepsThreadInv(Init(), es);
  }

  /** The threads that the drain joins in a run, in order. */
  ghost function Joins(s: State, es: seq<Event>): seq<nat>
    requires Sized(s) && Run(s, es)
    decreases |es|
  {
    if es == [] then []
    else (if es[0].JoinDone? then [s.main.thread] else []) + Joins(Next(s, es[0]), es[1..])
  }

  lemma {:induction false} JoinsAreNew(s: State, es: seq<Event>)
    requires ThreadInv(s) && Run(s, es)
    ensures forall i :: 0 <= i < |Joins(s, es)| ==> Joins(s, es)[i] !in s.joined
    ensures forall i, j :: 0 <= i < j < |Joins(s, es)| ==> Joins(s, es)[i] != Joins(s, es)[j]
    decreases |es|
  {
    if es != [] {
      StepKeepsThreadInv(s, es[0]);
      JoinsAreNew(Next(s, es[0]), es[1..]);
    }
  }

  /** Of every run: the threads it joins are pairwise different. */
  lemma NoThreadJoinedTwice(es: seq<Event>)
    requires Run(Init(), es)
    ensures forall i, j :: 0 <= i < j < |Joins(Init(), es)| ==> Joins(Init(), es)[i] != Joins(Init(), es)[j]
  {
    InitThreads();
    JoinsAreNew(Init(), es);
  }

  /** A callback that nothing disturbs is started in the first unused slot, and leaves every slot as
      free as it was. */
  lemma CallbackLife(s: State, a: Actor, id: nat)
    requires Sized(s) && IsCalm(s, a) && id !in s.tasks
    ensures var es, i := [Execute(a, id), Return(id), FreeSlot(id), Exit(id)], FreeThread(s.threads);
            && (Run(s, es) <==> i < 128)
            && (Run(s, es) ==>
                  && End(s, es).tasks == s.tasks[id := Task(i, Exited)] && End(s, es).main == s.main
                  && FreeThread(End(s, es).threads) == i
                  && forall j :: 0 <= j < 128 ==> End(s, es).threads[j].used == s.threads[j].used)
  {
    var i := FreeThread(s.threads);
    var first, second := [Execute(a, id), Return(id)], [FreeSlot(id), Exit(id)];
    assert first + second == [Execute(a, id), Return(id), FreeSlot(id), Exit(id)];
    RunSplits(s, first, second);
    StartAndReturn(s, a, id);
    if i < MAX_THREADS {
      FreeAndExit(End(s, first), id, i);
      ExecuteThenFree(s.threads, id);
    }
  }

  lemma StartAndReturn(s: State, a: Actor, id: nat)
    requires Sized(s) && IsCalm(s, a) && id !in s.tasks
    ensures var es, i := [Execute(a, id), Return(id)], FreeThread(s.threads);
            && (Run(s, es) <==> i < MAX_THREADS)
            && (Run(s, es) ==>
                  End(s, es) == s.(threads := s.threads[i := ThreadInfo(true, id)], tasks := s.tasks[id := Task(i, Returned)]))
  {
    TwoSteps(s, Execute(a, id), Return(id));
  }

  lemma FreeAndExit(s: State, id: nat, i: nat)
    requires Sized(s) && id in s.tasks && s.tasks[id] == Task(i, Returned) && i < MAX_THREADS
    ensures var es := [FreeSlot(id), Exit(id)];
            Run(s, es) && End(s, es) == s.(threads := MarkFree(s.threads, i), tasks := s.tasks[id := Task(i, Exited)])
  {
    TwoSteps(s, FreeSlot(id), Exit(id));
    var marked := Next(s, FreeSlot(id));
    assert marked.tasks == s.tasks[id := Task(i, Marked)] && marked.threads == MarkFree(s.threads, i);
    assert Next(marked, Exit(id)).tasks == s.tasks[id := Task(i, Exited)];
  }

  lemma {:induction false} RunSplits(s: State, es: seq<Event>, fs: seq<Event>)
    requires Sized(s)
    ensures Run(s, es + fs) <==> Run(s, es) && Run(End(s, es), fs)
    ensures Run(s, es + fs) ==> End(s, es + fs) == End(End(s, es), fs)
    decreases |es|
  {
    if es == [] {
      assert [] + fs == fs;
    } else {
      assert (es + fs)[1..] == es[1..] + fs;
      if Enabled(s, es[0]) {
        RunSplits(Next(s, es[0]), es[1..], fs);
      }
    }
  }

  // ---------- When callbacks own their slots ----------

  predicate Owns(s: State, id: nat)
    requires Sized(s)
  {
    Unfinished(s, id) ==> s.tasks[id].slot < MAX_THREADS && s.threads[s.tasks[id].slot] == ThreadInfo(true, id)
  }

  /** Every unfinished callback owns the slot it was started in. */
  predicate AllOwn(s: State)
    requires Sized(s)
  {
    forall id :: id in s.tasks ==> Owns(s, id)
  }

  /** The drain marks a slot free that is in use. */
  predicate Erases(s: State, e: Event)
    requires Sized(s) && (e.MarkSlot? ==> s.main.Mark? && s.main.i < MAX_THREADS)
  {
    e.MarkSlot? && s.threads[s.main.i].used
  }

  /** Nobody becomes unfinished, and no slot of an unfinished callback changes. */
  lemma OwnsKept(s: State, after: State)
    requires Sized(s) && Sized(after) && AllOwn(s)
    requires forall id :: Unfinished(after, id) ==> Unfinished(s, id) && after.tasks[id].slot == s.tasks[id].slot
    requires forall id :: Unfinished(after, id) && after.tasks[id].slot < MAX_THREADS ==>
               after.threads[after.tasks[id].slot] == s.threads[after.tasks[id].slot]
    ensures AllOwn(after)
  {
    forall id | id in after.tasks
      ensures Owns(after, id)
    {
      assert Unfinished(after, id) ==> Owns(s, id);
    }
  }

  /** A step takes a slot away from a callback exactly when it marks a used slot free. */
  lemma OwnershipStep(s: State, e: Event)
    requires ThreadInv(s) && AllOwn(s) && Enabled(s, e)
    ensures AllOwn(Next(s, e)) <==> !Erases(s, e)
  {
    var after := Next(s, e);
    if e.MarkSlot? {
      var i := s.main.i;
      assert Held(s, i);
      if s.threads[i].used {
        assert !Owns(after, s.threads[i].thread);
      } else {
        OwnsKept(s, after);
      }
    } else if e.Execute? {
      forall id | id in after.tasks
        ensures Owns(after, id)
      {
        assert id in s.tasks ==> Owns(s, id);
      }
    } else if e.FreeSlot? {
      assert Owns(s, e.id);
      forall id | Unfinished(after, id)
        ensures s.tasks[id].slot != s.tasks[e.id].slot
      {
        assert Owns(s, id);
      }
      OwnsKept(s, after);
    } else {
      OwnsKept(s, after);
    }
  }

  ghost predicate OwnsThroughout(s: State, es: seq<Event>)
    requires Sized(s) && Run(s, es)
    decreases |es|
  {
    AllOwn(s) && (es != [] ==> OwnsThroughout(Next(s, es[0]), es[1..]))
  }

  ghost predicate NeverErases(s: State, es: seq<Event>)
    requires Sized(s) && Run(s, es)
    decreases |es|
  {
    es != [] ==> !Erases(s, es[0]) && NeverErases(Next(s, es[0]), es[1..])
  }

  lemma {:induction false} OwnershipFrom(s: State, es: seq<Event>)
    requires ThreadInv(s) && AllOwn(s) && Run(s, es)
    ensures OwnsThroughout(s, es) <==> NeverErases(s, es)
    decreases |es|
  {
    if es != [] {
      OwnershipStep(s, es[0]);
      StepKeepsThreadInv(s, es[0]);
      if AllOwn(Next(s, es[0])) {
        OwnershipFrom(Next(s, es[0]), es[1..]);
      }
    }
  }

  /** In every run, unfinished callbacks own their slots at every moment exactly when the drain
      never marks a used slot free. */
  lemma OwnershipExactly(es: seq<Event>)
    requires Run(Init(), es)
    ensures OwnsThroughout(Init(), es) <==> NeverErases(Init(), es)
  {
    InitThreads();
    OwnershipFrom(Init(), es);
  }

  lemma {:induction false} RunKeepsOwnership(s: State, es: seq<Event>)
    requires ThreadInv(s) && AllOwn(s) && Run(s, es) && NeverErases(s, es)
    ensures ThreadInv(End(s, es)) && AllOwn(End(s, es))
    decreases |es|
  {
    if es != [] {
      OwnershipStep(s, es[0]);
      StepKeepsThreadInv(s, es[0]);
      RunKeepsOwnership(Next(s, es[0]), es[1..]);
    }
  }

  /** Then unfinished callbacks have pairwise distinct used slots, so there are at most 128. */
  lemma CallbacksOwnDistinctSlots(es: seq<Event>)
    requires Run(Init(), es) && NeverErases(Init(), es)
    ensures var s := End(Init(), es);
            && (forall id :: Unfinished(s, id) ==> s.tasks[id].slot < MAX_THREADS && s.threads[s.tasks[id].slot].used)
            && (forall a, b :: Unfinished(s, a) && Unfinished(s, b) && a != b ==> s.tasks[a].slot != s.tasks[b].slot)
            && |UnfinishedBelow(s, MAX_THREADS)| <= MAX_THREADS
            && forall id :: Unfinished(s, id) ==> id in UnfinishedBelow(s, MAX_THREADS)
  {
    var s := End(Init(), es);
    InitThreads();
    RunKeepsOwnership(Init(), es);
    assert forall id :: Unfinished(s, id) ==> Owns(s, id);
    AtMostOnePerSlot(s, MAX_THREADS);
  }

  ghost function UnfinishedBelow(s: State, n: nat): set<nat> {
    set id | id in s.tasks && Unfinished(s, id) && s.tasks[id].slot < n
  }

  lemma {:induction false} AtMostOnePerSlot(s: State, n: nat)
    requires Sized(s) && AllOwn(s) && n <= MAX_THREADS
    ensures |UnfinishedBelow(s, n)| <= n
    decreases n
  {
    if n == 0 {
      assert UnfinishedBelow(s, 0) == {};
    } else {
      AtMostOnePerSlot(s, n - 1);
      var owner := s.threads[n - 1].thread;
      forall id | id in UnfinishedBelow(s, n)
        ensures id in UnfinishedBelow(s, n - 1) + {owner}
      {
        assert Owns(s, id);
      }
      SubsetSize(UnfinishedBelow(s, n), UnfinishedBelow(s, n - 1) + {owner});
    }
  }

  // ---------- Which AcpiOsExecute is to blame ----------

  /** The drain waits for the thread of slot i, or is about to mark it. */
  predicate UnderJoin(main: Main, i: nat) { main == Mark(i) || (main.Joining? && main.i == i) }

  /** AcpiOsExecute hands out the very slot whose thread the drain waits for or has joined. */
  predicate Races(s: State, e: Event)
    requires Sized(s)
  {
    e.Execute? && FreeThread(s.threads) < MAX_THREADS && UnderJoin(s.main, FreeThread(s.threads))
  }

  /** Nobody but the awaited thread is unfinished in the slot under the join. */
  ghost predicate Guarded(s: State) {
    match s.main
    case Joining(i, thread) => forall id :: Unfinished(s, id) && s.tasks[id].slot == i ==> id == thread
    case Mark(i) => forall id :: Unfinished(s, id) ==> s.tasks[id].slot != i
    case _ => true
  }

  /** The drain stays where it is, and nobody becomes unfinished. */
  lemma GuardedKept(s: State, after: State)
    requires Guarded(s) && after.main == s.main
    requires forall id :: Unfinished(after, id) ==> Unfinished(s, id) && after.tasks[id].slot == s.tasks[id].slot
    ensures Guarded(after)
  {
  }

  lemma GuardedStep(s: State, e: Event)
    requires ThreadInv(s) && AllOwn(s) && Guarded(s) && Enabled(s, e) && !Races(s, e)
    ensures !Erases(s, e) && Guarded(Next(s, e))
  {
    if e.MarkSlot? {
      assert Held(s, s.main.i);
    } else if e.JoinCall? {
      forall id | Unfinished(s, id) && s.tasks[id].slot == s.main.i
        ensures id == s.threads[s.main.i].thread
      {
        assert Owns(s, id);
      }
    } else if !e.Execute? && Next(s, e).main == s.main {
      GuardedKept(s, Next(s, e));
    }
  }

  ghost predicate NeverRaces(s: State, es: seq<Event>)
    requires Sized(s) && Run(s, es)
    decreases |es|
  {
    es != [] ==> !Races(s, es[0]) && NeverRaces(Next(s, es[0]), es[1..])
  }

  /** Without such a call the drain erases nothing. */
  lemma {:induction false} NoRaceNoErasure(s: State, es: seq<Event>)
    requires ThreadInv(s) && AllOwn(s) && Guarded(s) && Run(s, es) && NeverRaces(s, es)
    ensures NeverErases(s, es)
    decreases |es|
  {
    if es != [] {
      GuardedStep(s, es[0]);
      OwnershipStep(s, es[0]);
      StepKeepsThreadInv(s, es[0]);
      NoRaceNoErasure(Next(s, es[0]), es[1..]);
    }
  }

  predicate NoExecute(es: seq<Event>) { forall i :: 0 <= i < |es| ==> !es[i].Execute? }

  lemma {:induction false} NoExecuteNoRace(s: State, es: seq<Event>)
    requires Sized(s) && Run(s, es) && NoExecute(es)
    ensures NeverRaces(s, es)
    decreases |es|
  {
    if es != [] {
      assert !es[0].Execute?;
      assert forall i :: 0 <= i < |es[1..]| ==> es[1..][i] == es[i + 1];
      NoExecuteNoRace(Next(s, es[0]), es[1..]);
    }
  }

  /** However the run goes on without further callbacks, nobody loses a slot. */
  ghost predicate SafeFrom(s: State)
    requires Sized(s)
  {
    forall es: seq<Event> :: Run(s, es) && NoExecute(es) ==> OwnsThroughout(s, es)
  }

  /** Of one call of AcpiOsExecute in a run without races: what comes after it is safe exactly
      when it does not race itself. */
  lemma ExecuteSafeExactly(es: seq<Event>, e: Event)
    requires Run(Init(), es) && NeverRaces(Init(), es) && Enabled(End(Init(), es), e) && e.Execute?
    ensures SafeFrom(Next(End(Init(), es), e)) <==> !Races(End(Init(), es), e)
  {
    InitThreads();
    NoRaceNoErasure(Init(), es);
    RunKeepsOwnership(Init(), es);
    RunKeepsGuarded(Init(), es);
    SafeExactly(End(Init(), es), e);
  }

  lemma {:induction false} RunKeepsGuarded(s: State, es: seq<Event>)
    requires ThreadInv(s) && AllOwn(s) && Guarded(s) && Run(s, es) && NeverRaces(s, es)
    ensures Guarded(End(s, es))
    decreases |es|
  {
    if es != [] {
      GuardedStep(s, es[0]);
      OwnershipStep(s, es[0]);
      StepKeepsThreadInv(s, es[0]);
      RunKeepsGuarded(Next(s, es[0]), es[1..]);
    }
  }

  lemma SafeExactly(s: State, e: Event)
    requires ThreadInv(s) && AllOwn(s) && Guarded(s) && Enabled(s, e) && e.Execute?
    ensures SafeFrom(Next(s, e)) <==> !Races(s, e)
  {
    var after := Next(s, e);
    StepKeepsThreadInv(s, e);
    OwnershipStep(s, e);
    if Races(s, e) {
      var es := RaceLoses(s, e);
      assert !OwnsThroughout(after, es);
    } else {
      GuardedStep(s, e);
      forall es: seq<Event> | Run(after, es) && NoExecute(es)
        ensures OwnsThroughout(after, es)
      {
        NoExecuteNoRace(after, es);
        NoRaceNoErasure(after, es);
        OwnershipFrom(after, es);
      }
    }
  }

  /** The joined thread ends, the join returns, and the mark erases the new callback's slot. */
  lemma RaceLoses(s: State, e: Event) returns (es: seq<Event>)
    requires ThreadInv(s) && AllOwn(s) && Enabled(s, e) && Races(s, e)
    ensures Run(Next(s, e), es) && NoExecute(es) && !OwnsThroughout(Next(s, e), es)
  {
    var after := Next(s, e);
    StepKeepsThreadInv(s, e);
    OwnershipStep(s, e);
    if s.main.Mark? {
      es := [MarkSlot];
      MarkLoses(after);
    } else {
      var thread := s.main.thread;
      assert Owns(s, thread);
      if s.tasks[thread].phase == Exited {
        es := [JoinDone, MarkSlot];
        JoinLoses(after);
      } else {
        es := [Exit(thread), JoinDone, MarkSlot];
        ExitLoses(after, thread, es);
      }
    }
  }

  lemma ExitLoses(s: State, thread: nat, es: seq<Event>)
    requires ThreadInv(s) && AllOwn(s) && s.main.Joining? && s.main.thread == thread && s.threads[s.main.i].used
    requires Enabled(s, Exit(thread)) && es == [Exit(thread), JoinDone, MarkSlot]
    ensures Run(s, es) && NoExecute(es) && !OwnsThroughout(s, es)
  {
    var ended := Next(s, Exit(thread));
    StepKeepsThreadInv(s, Exit(thread));
    OwnershipStep(s, Exit(thread));
    JoinLoses(ended);
    assert es[1..] == [JoinDone, MarkSlot];
  }

  lemma MarkLoses(s: State)
    requires ThreadInv(s) && AllOwn(s) && s.main.Mark? && s.threads[s.main.i].used
    ensures Run(s, [MarkSlot]) && !OwnsThroughout(s, [MarkSlot])
  {
    var es := [MarkSlot];
    OwnershipStep(s, MarkSlot);
    assert es[1..] == [];
    assert Run(s, es);
  }

  lemma JoinLoses(s: State)
    requires ThreadInv(s) && AllOwn(s) && Enabled(s, JoinDone) && s.main.i < MAX_THREADS && s.threads[s.main.i].used
    ensures Run(s, [JoinDone, MarkSlot]) && !OwnsThroughout(s, [JoinDone, MarkSlot])
  {
    var es, after := [JoinDone, MarkSlot], Next(s, JoinDone);
    OwnershipStep(s, JoinDone);
    StepKeepsThreadInv(s, JoinDone);
    MarkLoses(after);
    assert es[1..] == [MarkSlot];
    assert Run(s, es);
  }

  // ---------- When the drain leaves nobody behind ----------

  /** The drain is done with slot j. */
  predicate Passed(main: Main, j: nat) {
    match main
    case Working(_) => false
    case Check(i) => j < i
    case Join(i) => j < i
    case Joining(i, _) => j < i
    case Mark(i) => j <= i
    case Drained => true
  }

  /** AcpiOsExecute hands out a slot the drain is done with, or waits in. */
  predicate LandsBehind(s: State, e: Event)
    requires Sized(s)
  {
    && e.Execute? && FreeThread(s.threads) < MAX_THREADS
    && (Passed(s.main, FreeThread(s.threads)) || UnderJoin(s.main, FreeThread(s.threads)))
  }

  /** The callbacks of a run that were started behind the drain. */
  ghost function Late(s: State, es: seq<Event>): set<nat>
    requires Sized(s) && Run(s, es)
    decreases |es|
  {
    if es == [] then {}
    else (if LandsBehind(s, es[0]) then {es[0].id} else {}) + Late(Next(s, es[0]), es[1..])
  }

  /** Callback x is unfinished, and the drain will not look at its slot again: it is done with
      the slot, or waits for somebody else there. */
  predicate Behind(s: State, x: nat) {
    && Unfinished(s, x)
    && (Passed(s.main, s.tasks[x].slot) || (s.main.Joining? && s.tasks[x].slot == s.main.i && x != s.main.thread))
  }

  /** Who is behind the drain was started there late. */
  ghost predicate PassedAreLate(s: State, late: set<nat>) {
    forall id :: Behind(s, id) ==> id in late
  }

  lemma NobodyBehindIsGuarded(s: State)
    requires PassedAreLate(s, {})
    ensures Guarded(s)
  {
    forall id | Unfinished(s, id)
      ensures s.main.Mark? ==> s.tasks[id].slot != s.main.i
      ensures s.main.Joining? && s.tasks[id].slot == s.main.i ==> id == s.main.thread
    {
      assert !Behind(s, id);
    }
  }

  lemma PassedStep(s: State, e: Event, late: set<nat>)
    requires ThreadInv(s) && AllOwn(s) && PassedAreLate(s, late) && Enabled(s, e)
    ensures PassedAreLate(Next(s, e), late + if LandsBehind(s, e) then {e.id} else {})
  {
    assert late + {} == late;
  }

  lemma {:induction false} RunKeepsPassed(s: State, es: seq<Event>, late: set<nat>)
    requires ThreadInv(s) && AllOwn(s) && PassedAreLate(s, late) && Run(s, es) && NeverErases(s, es)
    ensures PassedAreLate(End(s, es), late + Late(s, es))
    decreases |es|
  {
    if es == [] {
      assert late + {} == late;
    } else {
      var more := late + if LandsBehind(s, es[0]) then {es[0].id} else {};
      OwnershipStep(s, es[0]);
      StepKeepsThreadInv(s, es[0]);
      PassedStep(s, es[0], late);
      RunKeepsPassed(Next(s, es[0]), es[1..], more);
      assert late + Late(s, es) == more + Late(Next(s, es[0]), es[1..]);
    }
  }

  /** When the drain has finished, nobody is left exactly when nobody who was started behind it is. */
  lemma DrainIdleExactly(es: seq<Event>)
    requires Run(Init(), es) && NeverErases(Init(), es) && End(Init(), es).main == Drained
    ensures var s := End(Init(), es);
            (forall id :: !Unfinished(s, id)) <==> (forall id :: id in Late(Init(), es) ==> !Unfinished(s, id))
  {
    InitThreads();
    RunKeepsPassed(Init(), es, {});
  }

  /** What fwts_acpica_sem_count_get relies on when it counts the semaphores: no callback is
      left, no thread slot is used and nothing is half done, so that `released` counts what it
      should. */
  ghost predicate CountsExact(s: State)
    requires Sized(s)
  {
    && (forall id :: !Unfinished(s, id))
    && (forall i :: 0 <= i < MAX_THREADS ==> !s.threads[i].used)
    && (forall k: nat :: Quiet(s, k))
    && ReleasedSlots(s.sems) == BackAtBase(s)
    && |BackAtBase(s)| <= |UsedSlots(s.sems)| <= MAX_SEMAPHORES
  }

  lemma CountsAreExactAfterDrain(es: seq<Event>)
    requires Run(Init(), es) && NeverErases(Init(), es) && End(Init(), es).main == Drained
    requires forall id :: id in Late(Init(), es) ==> !Unfinished(End(Init(), es), id)
    ensures CountsExact(End(Init(), es))
  {
    var s := End(Init(), es);
    InitThreads();
    InitHolds();
    RunKeepsSemInv(Init(), es);
    RunKeepsThreadInv(Init(), es);
    DrainIdleExactly(es);
    forall i | 0 <= i < MAX_THREADS
      ensures !s.threads[i].used
    {
      assert Held(s, i);
    }
    IdleIsQuiet(s);
    ReleasedIsBackAtBase(s);
  }

  lemma IdleIsQuiet(s: State)
    requires s.main == Drained && forall id :: !Unfinished(s, id)
    ensures forall k: nat :: Quiet(s, k)
  {
    forall k: nat
      ensures Quiet(s, k)
    {
      forall id | id in s.tasks
        ensures TaskOp(s.tasks[id]) == Calm
      {
        assert !Unfinished(s, id);
      }
      assert At(s.tasks, WaitPending(k)) == {} && At(s.tasks, PostPending(k)) == {};
    }
  }

  /** If no call lands behind the drain, none races, and so all of the above holds. */
  lemma {:induction false} NothingLate(s: State, es: seq<Event>)
    requires ThreadInv(s) && AllOwn(s) && Guarded(s) && Run(s, es) && Late(s, es) == {}
    ensures NeverErases(s, es)
    decreases |es|
  {
    if es != [] {
      GuardedStep(s, es[0]);
      OwnershipStep(s, es[0]);
      StepKeepsThreadInv(s, es[0]);
      NothingLate(Next(s, es[0]), es[1..]);
    }
  }

  /** If no call lands behind the drain, the counts are exact whenever it has finished; and the
      number of released semaphores is that of the live ones back at their base value exactly
      when no initialisation has failed. */
  lemma CountsAreExactIfNothingLate(es: seq<Event>)
    requires Run(Init(), es) && Late(Init(), es) == {} && End(Init(), es).main == Drained
    ensures CountsExact(End(Init(), es))
    ensures |ReleasedSlots(End(Init(), es).sems)| == |LiveAtBase(End(Init(), es))| <==> NeverLeaks(Init(), es)
  {
    InitThreads();
    NothingLate(Init(), es);
    CountsAreExactAfterDrain(es);
    ReleasedIsLiveExactly(es);
  }

  /** Once the drain has left slot 0, it has left it free: AcpiOsExecute lands behind the drain
      then, as long as nobody else has. */
  lemma LateOnceMoving(s: State, e: Event, late: set<nat>)
    requires ThreadInv(s) && PassedAreLate(s, late) && forall id :: id in late ==> !Unfinished(s, id)
    requires Passed(s.main, 0) && Enabled(s, e) && e.Execute?
    ensures LandsBehind(s, e)
  {
    assert Held(s, 0);
    FirstFreeThread(s.threads, 0);
  }

  // ---------- The drain can finish ----------

  /** Steps a callback still takes. */
  function Work(t: Task): nat {
    match t.phase
    case Running(op) => if op == Calm then 3 else 4
    case Returned => 2
    case Marked => 1
    case Exited => 0
  }

  function Stage(main: Main): nat {
    match main
    case Check(_) => 3
    case Join(_) => 2
    case Joining(_, _) => 1
    case _ => 0
  }

  function Slot(main: Main): nat {
    match main
    case Check(i) => i
    case Join(i) => i
    case Joining(i, _) => i
    case Mark(i) => i
    case _ => MAX_THREADS
  }

  function WorkLeft(s: State): nat {
    if s.main.Joining? && s.main.thread in s.tasks then Work(s.tasks[s.main.thread]) else 0
  }

  predicate Draining(main: Main) { main.Check? || main.Join? || main.Joining? || main.Mark? }

  /** The next step of the awaited thread. */
  function ThreadStep(s: State, id: nat): Event
    requires id in s.tasks && s.tasks[id].phase != Exited
  {
    match s.tasks[id].phase
    case Running(Calm) => Return(id)
    case Running(WaitPending(_)) => WaitCount(Callback(id))
    case Running(PostPending(_)) => PostCount(Callback(id))
    case Returned => FreeSlot(id)
    case Marked => Exit(id)
  }

  /** A step of the drain itself, or of the thread it waits for. */
  predicate DrainEvent(s: State, e: Event) {
    || e in {CheckSlot, JoinCall, JoinDone, MarkSlot, EndDrain}
    || (s.main.Joining? && s.main.thread in s.tasks && s.tasks[s.main.thread].phase != Exited
        && e == ThreadStep(s, s.main.thread))
  }

  /** The drain is never stuck: it can step itself, or waits for a thread that exists, has not
      exited and can step; and the step brings the end of the drain nearer. */
  lemma DrainProgress(s: State) returns (e: Event)
    requires ThreadInv(s) && Draining(s.main)
    ensures Enabled(s, e) && DrainEvent(s, e)
    ensures var after := Next(s, e);
            after.main == Drained
            || (Draining(after.main)
                && (Slot(after.main) > Slot(s.main)
                    || (Slot(after.main) == Slot(s.main) && Stage(after.main) < Stage(s.main))
                    || (after.main == s.main && WorkLeft(after) < WorkLeft(s))))
  {
    match s.main
    case Check(i) => e := if i == MAX_THREADS then EndDrain else CheckSlot;
    case Join(_) => e := JoinCall;
    case Mark(_) => e := MarkSlot;
    case Joining(_, thread) =>
      assert TaskOk(s.tasks[thread]);
      e := if s.tasks[thread].phase == Exited then JoinDone else ThreadStep(s, thread);
  }

  /** A way on from s, without further callbacks, that ends the drain. */
  ghost predicate Finishes(s: State, es: seq<Event>)
    requires Sized(s)
  {
    NoExecute(es) && Run(s, es) && End(s, es).main == Drained
  }

  /** In every run, whenever the drain is on, it can be brought to its end. */
  lemma DrainCanFinish(es: seq<Event>)
    requires Run(Init(), es) && Draining(End(Init(), es).main)
    ensures exists more: seq<Event> :: Finishes(End(Init(), es), more)
  {
    InitThreads();
    RunKeepsThreadInv(Init(), es);
    var more := WayToEnd(End(Init(), es), 0);
  }

  predicate AllCalm(s: State) { forall id :: id in s.tasks ==> TaskOp(s.tasks[id]) == Calm }

  /** Such a step takes nobody back from behind the drain, and with nothing half done it changes
      no semaphore. */
  lemma DrainLeavesBehind(s: State, e: Event, x: nat)
    requires ThreadInv(s) && Enabled(s, e) && DrainEvent(s, e)
    ensures Behind(s, x) ==> Behind(Next(s, e), x) && Next(s, e).tasks[x] == s.tasks[x]
    ensures AllCalm(s) ==> AllCalm(Next(s, e)) && Next(s, e).sems == s.sems && Next(s, e).base == s.base
  {
    if e in {CheckSlot, JoinCall, JoinDone, MarkSlot, EndDrain} {
      assert Next(s, e).tasks == s.tasks && Next(s, e).sems == s.sems;
    } else if Behind(s, x) {
      assert x != s.main.thread;
    }
  }

  /** The way to the end of the drain; whoever is behind it stays there untouched, and with
      nothing half done no semaphore changes. */
  lemma {:induction false} WayToEnd(s: State, x: nat) returns (es: seq<Event>)
    requires ThreadInv(s) && Draining(s.main)
    ensures Finishes(s, es)
    ensures Behind(s, x) ==> Behind(End(s, es), x) && End(s, es).tasks[x] == s.tasks[x]
    ensures AllCalm(s) ==> End(s, es).sems == s.sems && End(s, es).base == s.base
    decreases MAX_THREADS - Slot(s.main), Stage(s.main), WorkLeft(s)
  {
    var e := DrainProgress(s);
    var after := Next(s, e);
    StepKeepsThreadInv(s, e);
    DrainLeavesBehind(s, e, x);
    var others := [];
    if after.main != Drained {
      others := WayToEnd(after, x);
    }
    es := [e] + others;
    assert es[1..] == others;
  }

  // ---------- Which AcpiOsExecute leaves somebody behind ----------

  /** However the run goes on without further callbacks, nobody is left when the drain has finished. */
  ghost predicate IdleFrom(s: State)
    requires Sized(s)
  {
    forall es: seq<Event>, id: nat :: Finishes(s, es) ==> !Unfinished(End(s, es), id)
  }

  /** Of one call of AcpiOsExecute, nobody being behind the drain yet: the drain leaves nobody,
      however the run goes on, exactly when the call does not land behind it. */
  lemma IdleExactly(s: State, e: Event)
    requires ThreadInv(s) && AllOwn(s) && PassedAreLate(s, {}) && Enabled(s, e) && e.Execute?
    ensures IdleFrom(Next(s, e)) <==> !LandsBehind(s, e)
  {
    var after := Next(s, e);
    StepKeepsThreadInv(s, e);
    OwnershipStep(s, e);
    PassedStep(s, e, {});
    if LandsBehind(s, e) {
      assert Behind(after, e.id);
      var es := [];
      if after.main != Drained {
        es := WayToEnd(after, e.id);
      }
      assert Finishes(after, es) && Unfinished(End(after, es), e.id);
    } else {
      NobodyBehindIsGuarded(after);
      forall es: seq<Event>, id: nat | Finishes(after, es)
        ensures !Unfinished(End(after, es), id)
      {
        NoExecuteNotLate(after, es);
        NothingLate(after, es);
        RunKeepsPassed(after, es, {});
        assert !Behind(End(after, es), id);
      }
    }
  }

  lemma {:induction false} NoExecuteNotLate(s: State, es: seq<Event>)
    requires Sized(s) && Run(s, es) && NoExecute(es)
    ensures Late(s, es) == {}
    decreases |es|
  {
    if es != [] {
      assert !es[0].Execute?;
      assert forall i :: 0 <= i < |es[1..]| ==> es[1..][i] == es[i + 1];
      NoExecuteNotLate(Next(s, es[0]), es[1..]);
    }
  }

  /** The same of a call in any run in which no call landed behind the drain before. */
  lemma ExecuteIdleExactly(es: seq<Event>, e: Event)
    requires Run(Init(), es) && Late(Init(), es) == {} && Enabled(End(Init(), es), e) && e.Execute?
    ensures IdleFrom(Next(End(Init(), es), e)) <==> !LandsBehind(End(Init(), es), e)
  {
    InitThreads();
    NothingLate(Init(), es);
    RunKeepsOwnership(Init(), es);
    RunKeepsPassed(Init(), es, {});
    IdleExactly(End(Init(), es), e);
  }

  /** After every call of AcpiOsExecute in the run, the drain leaves nobody however it goes on. */
  ghost predicate IdleAfterCalls(s: State, es: seq<Event>)
    requires Sized(s) && Run(s, es)
    decreases |es|
  {
    es != [] ==> (es[0].Execute? ==> IdleFrom(Next(s, es[0]))) && IdleAfterCalls(Next(s, es[0]), es[1..])
  }

  lemma {:induction false} IdleAfterCallsFrom(s: State, es: seq<Event>)
    requires ThreadInv(s) && AllOwn(s) && PassedAreLate(s, {}) && Run(s, es)
    ensures IdleAfterCalls(s, es) <==> Late(s, es) == {}
    decreases |es|
  {
    if es != [] {
      if es[0].Execute? {
        IdleExactly(s, es[0]);
      }
      if !LandsBehind(s, es[0]) {
        NobodyBehindIsGuarded(s);
        GuardedStep(s, es[0]);
        OwnershipStep(s, es[0]);
        StepKeepsThreadInv(s, es[0]);
        PassedStep(s, es[0], {});
        IdleAfterCallsFrom(Next(s, es[0]), es[1..]);
      }
    }
  }

  /** Of every run: each of its calls of AcpiOsExecute is idle in the end, however the run would
      go on from there, exactly when none of them lands behind the drain. */
  lemma IdleAfterCallsExactly(es: seq<Event>)
    requires Run(Init(), es)
    ensures IdleAfterCalls(Init(), es) <==> Late(Init(), es) == {}
  {
    InitThreads();
    IdleAfterCallsFrom(Init(), es);
  }

  // ---------- A callback that loses its slot ----------

  lemma OneMoreStep(s: State, es: seq<Event>, e: Event)
    requires Sized(s) && Run(s, es) && Enabled(End(s, es), e)
    ensures Run(s, es + [e]) && End(s, es + [e]) == Next(End(s, es), e)
  {
    RunSplits(s, es, [e]);
    assert [e][1..] == [];
  }

  /** A state that some run from the start reaches. */
  ghost predicate Reached(s: State) {
    exists es: seq<Event> :: ReachedBy(s, es)
  }

  ghost predicate ReachedBy(s: State, es: seq<Event>) {
    Run(Init(), es) && End(Init(), es) == s
  }

  lemma ReachNext(s: State, e: Event) returns (after: State)
    requires Reached(s) && Sized(s) && Enabled(s, e)
    ensures Reached(after) && Sized(after) && after == Next(s, e)
  {
    after := Next(s, e);
    var es: seq<Event> :| ReachedBy(s, es);
    OneMoreStep(Init(), es, e);
    assert ReachedBy(after, es + [e]);
  }

  lemma TwoCallbacksStart() returns (s: State)
    ensures Reached(s) && Sized(s) && s.sems == Init().sems
    ensures s.threads == Init().threads[0 := ThreadInfo(true, 1)][1 := ThreadInfo(true, 2)]
    ensures s.tasks == map[1 := Task(0, Running(Calm)), 2 := Task(1, Running(Calm))]
    ensures s.main == Working(Calm)
  {
    s := Init();
    assert ReachedBy(s, []);
    FirstFreeThread(s.threads, 0);
    s := ReachNext(s, Execute(MainThread, 1));
    FirstFreeThread(s.threads, 1);
    s := ReachNext(s, Execute(MainThread, 2));
  }

  /** The drain looks at the first slot and waits for its thread. */
  lemma DrainWaits() returns (s: State)
    ensures Reached(s) && Sized(s) && s.sems == Init().sems
    ensures s.threads == Init().threads[0 := ThreadInfo(true, 1)][1 := ThreadInfo(true, 2)]
    ensures s.tasks == map[1 := Task(0, Running(Calm)), 2 := Task(1, Running(Calm))]
    ensures s.main == Joining(0, 1)
  {
    s := TwoCallbacksStart();
    s := ReachNext(s, StartDrain);
    s := ReachNext(s, CheckSlot);
    s := ReachNext(s, JoinCall);
  }

  /** The first callback comes back and marks its slot free. */
  lemma FirstCallbackEnds() returns (s: State)
    ensures Reached(s) && Sized(s) && s.sems == Init().sems
    ensures s.threads == Init().threads[0 := ThreadInfo(false, 1)][1 := ThreadInfo(true, 2)]
    ensures s.tasks == map[1 := Task(0, Marked), 2 := Task(1, Running(Calm))]
    ensures s.main == Joining(0, 1)
  {
    s := DrainWaits();
    s := ReachNext(s, Return(1));
    s := ReachNext(s, FreeSlot(1));
  }

  /** It terminates, and the join is over. */
  lemma FirstCallbackJoined() returns (s: State)
    ensures Reached(s) && Sized(s) && s.sems == Init().sems
    ensures s.threads == Init().threads[0 := ThreadInfo(false, 1)][1 := ThreadInfo(true, 2)]
    ensures s.tasks == map[1 := Task(0, Exited), 2 := Task(1, Running(Calm))]
    ensures s.main == Mark(0)
  {
    s := FirstCallbackEnds();
    s := ReachNext(s, Exit(1));
    s := ReachNext(s, JoinDone);
  }

  /** A callback started between the drain's join and its mark loses its slot while it runs. */
  lemma OverlapLosesSlot() returns (s: State)
    ensures Reached(s) && Sized(s)
    ensures Unfinished(s, 3) && s.tasks[3].slot == 0 && !s.threads[0].used
  {
    s := FirstCallbackJoined();
    FirstFreeThread(s.threads, 0);
    s := ReachNext(s, Execute(Callback(2), 3));
    s := ReachNext(s, MarkSlot);
  }

  // ---------- A callback that is left behind ----------

  lemma {:induction false} ReachRun(s: State, es: seq<Event>)
    requires Sized(s) && Reached(s) && Run(s, es)
    ensures Reached(End(s, es))
    decreases |es|
  {
    if es != [] {
      var after := ReachNext(s, es[0]);
      ReachRun(after, es[1..]);
    }
  }

  lemma ReachedInv(s: State)
    requires Reached(s)
    ensures ThreadInv(s)
  {
    var es: seq<Event> :| ReachedBy(s, es);
    InitThreads();
    RunKeepsThreadInv(Init(), es);
  }

  /** A callback started in the first slot once the drain has moved on from it owns its slot, and
      still runs when the drain has finished. */
  lemma CallbackLeftBehind() returns (s: State)
    ensures Reached(s) && Sized(s) && s.main == Drained
    ensures 3 in s.tasks && s.tasks[3] == Task(0, Running(Calm)) && s.sems == Init().sems
  {
    var b := FirstCallbackJoined();
    b := ReachNext(b, MarkSlot);
    FirstFreeThread(b.threads, 0);
    b := ReachNext(b, Execute(Callback(2), 3));
    assert Behind(b, 3) && AllCalm(b);
    ReachedInv(b);
    var es := WayToEnd(b, 3);
    ReachRun(b, es);
    s := End(b, es);
  }

  /** Such a callback may take units while the semaphores are counted: one is counted as released
      although none is back at its base value. */
  lemma LeftBehindMiscounts() returns (s: State)
    ensures Reached(s) && Sized(s) && s.main == Drained
    ensures ReleasedSlots(s.sems) == {0} && BackAtBase(s) == {}
  {
    s := CallbackLeftBehind();
    FirstFree(s.sems, 0);
    s := ReachNext(s, Create(Callback(3), 1));
    s := ReachNext(s, WaitSem(Callback(3), 0));
  }
}
