/**
 The accounting tables of the ACPICA OS layer (src/libfwtsacpica/fwts_acpica.c): 2048
 semaphore slots and 128 thread slots, changed in place under their locks.

 Each method is one stretch of code that runs with a lock held (or one semaphore call that
 runs without), and is proved against a function on the table's contents.  Those functions
 are the steps of the transition system in OsRuns.
 */
module OsTables {
  import opened Sets
  import opened Wrappers

  const MAX_SEMAPHORES := 2048
  const MAX_THREADS := 128
  const SEM_VALUE_MAX := 0x7fff_ffff

  /** A POSIX semaphore: never initialised (or destroyed), or live with a value. */
  datatype Sem = NoSem | Live(value: nat)

  datatype SemInfo = SemInfo(sem: Sem, count: int, used: bool)

  datatype ThreadInfo = ThreadInfo(used: bool, thread: nat)

  datatype Status = AE_OK | AE_BAD_PARAMETER | AE_NO_MEMORY | AE_LIMIT | AE_TIME

  // ---------- Semaphore table ----------

  /** First free slot, or the length of the table. */
  function FreeSem(sems: seq<SemInfo>): (k: nat)
    ensures k <= |sems|
    ensures k < |sems| ==> !sems[k].used
    ensures forall j :: 0 <= j < k ==> sems[j].used
  {
    if sems == [] || !sems[0].used then 0 else 1 + FreeSem(sems[1..])
  }

  /** sem_init refuses a value above SEM_VALUE_MAX; the slot stays used all the same. */
  function Created(units: nat): SemInfo {
    SemInfo(if units <= SEM_VALUE_MAX then Live(units) else NoSem, 0, true)
  }

  function CreateSem(sems: seq<SemInfo>, units: nat): (r: seq<SemInfo>)
    ensures |r| == |sems|
  {
    var k := FreeSem(sems);
    if k < |sems| then sems[k := Created(units)] else sems
  }

  function DeleteSem(sems: seq<SemInfo>, k: nat): (r: seq<SemInfo>)
    ensures |r| == |sems|
  {
    if k < |sems| && sems[k].used then sems[k := SemInfo(NoSem, 0, false)] else sems
  }

  function WithValue(sems: seq<SemInfo>, k: nat, value: nat): (r: seq<SemInfo>)
    requires k < |sems|
    ensures |r| == |sems|
  {
    sems[k := sems[k].(sem := Live(value))]
  }

  function WithCount(sems: seq<SemInfo>, k: nat, count: int): (r: seq<SemInfo>)
    requires k < |sems|
    ensures |r| == |sems|
  {
    sems[k := sems[k].(count := count)]
  }

  function ClearCounts(sems: seq<SemInfo>): seq<SemInfo> {
    seq(|sems|, i requires 0 <= i < |sems| => sems[i].(count := 0))
  }

  ghost function UsedSlots(sems: seq<SemInfo>): set<nat> {
    set k: nat | k < |sems| && sems[k].used
  }

  /** Used slots whose count is back at zero. */
  ghost function ReleasedSlots(sems: seq<SemInfo>): set<nat> {
    set k: nat | k < |sems| && sems[k].used && sems[k].count == 0
  }

  // ---------- Thread table ----------

  function FreeThread(threads: seq<ThreadInfo>): (i: nat)
    ensures i <= |threads|
    ensures i < |threads| ==> !threads[i].used
    ensures forall j :: 0 <= j < i ==> threads[j].used
  {
    if threads == [] || !threads[0].used then 0 else 1 + FreeThread(threads[1..])
  }

  function MarkFree(threads: seq<ThreadInfo>, i: nat): (r: seq<ThreadInfo>)
    requires i < |threads|
    ensures |r| == |threads|
  {
    threads[i := threads[i].(used := false)]
  }

  // ---------- The tables in place ----------

  /** Units moved from a semaphore's value to its count: their sum stays, and so do all other slots. */
  ghost predicate Moved(before: seq<SemInfo>, after: seq<SemInfo>, k: nat, units: int)
    requires k < |before| && before[k].sem.Live?
  {
    && |after| == |before| && after[k].sem.Live? && after[k].used == before[k].used
    && after[k].count == before[k].count + units
    && after[k].sem.value + after[k].count == before[k].sem.value + before[k].count
    && forall j :: 0 <= j < |before| && j != k ==> after[j] == before[j]
  }

  class OsLayer {
    var semTable: array<SemInfo>
    var threads: array<ThreadInfo>

    ghost predicate Valid()
      reads this
    {
      semTable.Length == MAX_SEMAPHORES && threads.Length == MAX_THREADS
    }

    constructor ()
      ensures Valid() && fresh(semTable) && fresh(threads)
      ensures semTable[..] == seq(MAX_SEMAPHORES, _ => SemInfo(NoSem, 0, false))
      ensures threads[..] == seq(MAX_THREADS, _ => ThreadInfo(false, 0))
    {
      semTable := new SemInfo[MAX_SEMAPHORES](_ => SemInfo(NoSem, 0, false));
      threads := new ThreadInfo[MAX_THREADS](_ => ThreadInfo(false, 0));
    }

    /** AcpiOsCreateSemaphore, all of it under the lock. */
    method CreateSemaphore(units: nat) returns (status: Status, handle: Option<nat>)
      requires Valid()
      modifies semTable
      ensures semTable[..] == CreateSem(old(semTable[..]), units)
      ensures var k := FreeSem(old(semTable[..]));
              if k == 2048 then semTable[..] == old(semTable[..])
              else
                && semTable[k] == SemInfo(if units <= 0x7fff_ffff then Live(units) else NoSem, 0, true)
                && forall j :: 0 <= j < 2048 && j != k ==> semTable[j] == old(semTable[j])
      ensures var k := FreeSem(old(semTable[..]));
              if k == MAX_SEMAPHORES || units > SEM_VALUE_MAX then status == AE_NO_MEMORY && handle == None
              else status == AE_OK && handle == Some(k)
    {
      var i := 0;
      while i < MAX_SEMAPHORES && semTable[i].used
        invariant i <= MAX_SEMAPHORES
        invariant forall j :: 0 <= j < i ==> semTable[j].used
      {
        i := i + 1;
      }
      FirstFree(semTable[..], i);
      if i == MAX_SEMAPHORES {
        return AE_NO_MEMORY, None;
      }
      semTable[i] := SemInfo(semTable[i].sem, 0, true);
      if units > SEM_VALUE_MAX {
        semTable[i] := semTable[i].(sem := NoSem);
        return AE_NO_MEMORY, None;
      }
      semTable[i] := semTable[i].(sem := Live(units));
      return AE_OK, Some(i);
    }

    /** AcpiOsDeleteSemaphore; a handle that is no slot of the table is refused. */
    method DeleteSemaphore(handle: Option<nat>) returns (status: Status)
      requires Valid()
      modifies semTable
      ensures semTable[..] == if handle.Some? then DeleteSem(old(semTable[..]), handle.value) else old(semTable[..])
      ensures forall j :: 0 <= j < 2048 ==>
                semTable[j] == if handle == Some(j) && old(semTable[j]).used then SemInfo(NoSem, 0, false) else old(semTable[j])
      ensures status == AE_OK <==>
                handle.Some? && handle.value < MAX_SEMAPHORES && old(semTable[..])[handle.value].used
                && old(semTable[..])[handle.value].sem.Live?
    {
      if handle.None? {
        return AE_BAD_PARAMETER;
      }
      var i := 0;
      while i < MAX_SEMAPHORES && i != handle.value
        invariant i <= MAX_SEMAPHORES && i <= handle.value
      {
        i := i + 1;
      }
      if i == MAX_SEMAPHORES || !semTable[i].used {
        return AE_BAD_PARAMETER;
      }
      status := if semTable[i].sem.Live? then AE_OK else AE_BAD_PARAMETER;
      semTable[i] := SemInfo(NoSem, 0, false);
    }

    /** The semaphore step of AcpiOsWaitSemaphore, without the lock: it goes through only on a
        positive value (otherwise the caller is blocked or times out, and nothing changes). */
    method SemTryWait(k: nat) returns (status: Status)
      requires Valid() && k < MAX_SEMAPHORES && semTable[k].sem.Live?
      modifies semTable
      ensures var v := old(semTable[k].sem.value);
              if v > 0 then status == AE_OK && semTable[..] == WithValue(old(semTable[..]), k, v - 1)
              else status == AE_TIME && semTable[..] == old(semTable[..])
    {
      if semTable[k].sem.value == 0 {
        return AE_TIME;
      }
      semTable[k] := semTable[k].(sem := Live(semTable[k].sem.value - 1));
      return AE_OK;
    }

    /** The semaphore step of AcpiOsSignalSemaphore, without the lock. */
    method SemPost(k: nat) returns (status: Status)
      requires Valid() && k < MAX_SEMAPHORES && semTable[k].sem.Live?
      modifies semTable
      ensures var v := old(semTable[k].sem.value);
              if v < SEM_VALUE_MAX then status == AE_OK && semTable[..] == WithValue(old(semTable[..]), k, v + 1)
              else status == AE_LIMIT && semTable[..] == old(semTable[..])
    {
      if semTable[k].sem.value >= SEM_VALUE_MAX {
        return AE_LIMIT;
      }
      semTable[k] := semTable[k].(sem := Live(semTable[k].sem.value + 1));
      return AE_OK;
    }

    /** The locked step of both: the count goes up behind a wait and down behind a signal. */
    method AddToCount(k: nat, delta: int)
      requires Valid() && k < MAX_SEMAPHORES
      modifies semTable
      ensures semTable[..] == WithCount(old(semTable[..]), k, old(semTable[k].count) + delta)
    {
      semTable[k] := semTable[k].(count := semTable[k].count + delta);
    }

    /** AcpiOsWaitSemaphore with nothing in between its two steps; without a handle, or when the
        semaphore step does not go through, nothing is counted. */
    method WaitSemaphore(handle: Option<nat>) returns (status: Status)
      requires Valid() && (handle.Some? ==> handle.value < MAX_SEMAPHORES && semTable[handle.value].sem.Live?)
      modifies semTable
      ensures handle.None? ==> status == AE_BAD_PARAMETER
      ensures handle.Some? ==> status == if old(semTable[handle.value].sem.value) > 0 then AE_OK else AE_TIME
      ensures status != AE_OK ==> semTable[..] == old(semTable[..])
      ensures status == AE_OK ==> Moved(old(semTable[..]), semTable[..], handle.value, 1)
    {
      if handle.None? {
        return AE_BAD_PARAMETER;
      }
      status := SemTryWait(handle.value);
      if status == AE_OK {
        AddToCount(handle.value, 1);
      }
    }

    /** AcpiOsSignalSemaphore with nothing in between its two steps. */
    method SignalSemaphore(handle: Option<nat>) returns (status: Status)
      requires Valid() && (handle.Some? ==> handle.value < MAX_SEMAPHORES && semTable[handle.value].sem.Live?)
      modifies semTable
      ensures handle.None? ==> status == AE_BAD_PARAMETER
      ensures handle.Some? ==> status == if old(semTable[handle.value].sem.value) < SEM_VALUE_MAX then AE_OK else AE_LIMIT
      ensures status != AE_OK ==> semTable[..] == old(semTable[..])
      ensures status == AE_OK ==> Moved(old(semTable[..]), semTable[..], handle.value, -1)
    {
      if handle.None? {
        return AE_BAD_PARAMETER;
      }
      status := SemPost(handle.value);
      if status == AE_OK {
        AddToCount(handle.value, -1);
      }
    }

    /** fwts_acpica_sem_count_clear. */
    method SemCountClear()
      requires Valid()
      modifies semTable
      ensures semTable[..] == ClearCounts(old(semTable[..]))
      ensures forall j :: 0 <= j < 2048 ==> semTable[j] == SemInfo(old(semTable[j].sem), 0, old(semTable[j].used))
    {
      var i := 0;
      while i < MAX_SEMAPHORES
        invariant i <= MAX_SEMAPHORES
        invariant forall j :: 0 <= j < i ==> semTable[j] == old(semTable[j]).(count := 0)
        invariant forall j :: i <= j < MAX_SEMAPHORES ==> semTable[j] == old(semTable[j])
      {
        semTable[i] := semTable[i].(count := 0);
        i := i + 1;
      }
    }

    /** fwts_acpica_sem_count_get with nothing in between: every used thread slot is joined and
        marked free, and then the semaphores are counted. */
    method SemCountGet() returns (acquired: nat, released: nat)
      requires Valid()
      modifies threads
      ensures FreeThread(threads[..]) == 0
      ensures forall i :: 0 <= i < MAX_THREADS ==> threads[i] == ThreadInfo(false, old(threads[i].thread))
      ensures acquired == |UsedSlots(semTable[..])| && released == |ReleasedSlots(semTable[..])|
      ensures released <= acquired <= MAX_SEMAPHORES
    {
      var i := 0;
      while i < MAX_THREADS
        invariant 0 <= i <= MAX_THREADS
        invariant forall j :: 0 <= j < i ==> threads[j] == ThreadInfo(false, old(threads[j].thread))
        invariant forall j :: i <= j < MAX_THREADS ==> threads[j] == old(threads[j])
      {
        if threads[i].used {
          MarkThreadFree(i);
        }
        i := i + 1;
      }
      FirstFreeThread(threads[..], 0);
      acquired, released := CountSemaphores();
      CountsBounded(semTable[..]);
    }

    /** The loop that counts. */
    method CountSemaphores() returns (acquired: nat, released: nat)
      requires Valid()
      ensures acquired == |UsedSlots(semTable[..])| && released == |ReleasedSlots(semTable[..])|
    {
      acquired, released := 0, 0;
      var i := 0;
      while i < MAX_SEMAPHORES
        invariant i <= MAX_SEMAPHORES
        invariant acquired == |UsedSlots(semTable[..i])| && released == |ReleasedSlots(semTable[..i])|
      {
        OneMoreSlot(semTable[..], i);
        if semTable[i].used {
          acquired := acquired + 1;
          if semTable[i].count == 0 {
            released := released + 1;
          }
        }
        i := i + 1;
      }
      assert semTable[..i] == semTable[..];
    }

    /** The locked part of AcpiOsExecute; thread is what pthread_create stores. */
    method ExecuteSlot(thread: nat) returns (slot: Option<nat>)
      requires Valid()
      modifies threads
      ensures var i := FreeThread(old(threads[..]));
              if i == MAX_THREADS then slot == None && threads[..] == old(threads[..])
              else slot == Some(i) && threads[..] == old(threads[..])[i := ThreadInfo(true, thread)]
    {
      var i := 0;
      while i < MAX_THREADS
        invariant i <= MAX_THREADS
        invariant forall j :: 0 <= j < i ==> threads[j].used
        invariant threads[..] == old(threads[..])
      {
        if !threads[i].used {
          FirstFreeThread(threads[..], i);
          threads[i] := ThreadInfo(true, thread);
          return Some(i);
        }
        i := i + 1;
      }
      FirstFreeThread(threads[..], i);
      return None;
    }

    /** What the thread wrapper does under the lock, and the drain behind its join: the slot can
        be handed out again, and is next in line unless one in front of it is free. */
    method MarkThreadFree(i: nat)
      requires Valid() && i < MAX_THREADS
      modifies threads
      ensures threads[..] == MarkFree(old(threads[..]), i)
      ensures FreeThread(threads[..]) == if FreeThread(old(threads[..])) < i then FreeThread(old(threads[..])) else i
    {
      ghost var next := FreeThread(threads[..]);
      threads[i] := threads[i].(used := false);
      FirstFreeThread(threads[..], if next < i then next else i);
    }
  }

  lemma FirstFree(sems: seq<SemInfo>, i: nat)
    requires i <= |sems| && (forall j :: 0 <= j < i ==> sems[j].used) && (i < |sems| ==> !sems[i].used)
    ensures FreeSem(sems) == i
  {
  }

  lemma FirstFreeThread(threads: seq<ThreadInfo>, i: nat)
    requires i <= |threads| && (forall j :: 0 <= j < i ==> threads[j].used) && (i < |threads| ==> !threads[i].used)
    ensures FreeThread(threads) == i
  {
  }

  /** Handing a thread slot out and marking it free again leaves all slots as free as they were,
      and the same slot next in line. */
  lemma ExecuteThenFree(threads: seq<ThreadInfo>, thread: nat)
    requires FreeThread(threads) < |threads|
    ensures var i := FreeThread(threads);
            var after := MarkFree(threads[i := ThreadInfo(true, thread)], i);
            && FreeThread(after) == i
            && forall j :: 0 <= j < |threads| ==> after[j].used == threads[j].used && (j != i ==> after[j] == threads[j])
  {
    var i := FreeThread(threads);
    FirstFreeThread(MarkFree(threads[i := ThreadInfo(true, thread)], i), i);
  }

  /** Counting one more slot. */
  lemma OneMoreSlot(sems: seq<SemInfo>, i: nat)
    requires i < |sems|
    ensures |UsedSlots(sems[..i + 1])| == |UsedSlots(sems[..i])| + if sems[i].used then 1 else 0
    ensures |ReleasedSlots(sems[..i + 1])|
         == |ReleasedSlots(sems[..i])| + if sems[i].used && sems[i].count == 0 then 1 else 0
  {
    assert UsedSlots(sems[..i + 1]) == UsedSlots(sems[..i]) + if sems[i].used then {i} else {};
    assert ReleasedSlots(sems[..i + 1])
        == ReleasedSlots(sems[..i]) + if sems[i].used && sems[i].count == 0 then {i} else {};
  }

  /** Table sizes bound the two counts. */
  lemma CountsBounded(sems: seq<SemInfo>)
    requires |sems| == MAX_SEMAPHORES
    ensures |ReleasedSlots(sems)| <= |UsedSlots(sems)| <= MAX_SEMAPHORES
  {
    UsedWithinTable(sems);
    SubsetSize(ReleasedSlots(sems), UsedSlots(sems));
  }

  lemma {:induction false} UsedWithinTable(sems: seq<SemInfo>)
    ensures |UsedSlots(sems)| <= |sems|
    decreases |sems|
  {
    if sems != [] {
      var i := |sems| - 1;
      UsedWithinTable(sems[..i]);
      OneMoreSlot(sems, i);
      assert sems[..i + 1] == sems;
    }
  }
}
