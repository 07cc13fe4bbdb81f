/**
 The MADT test (src/acpi/madt/madt.c): choice of the reference entry, the walk over the
 subtables, uniqueness of IDs, and the comparison of I/O APICs with I/O SAPICs.
 */
module Madt {
  import opened Bytes
  import opened Sets
  import opened Wrappers

  // ---------- The reference entry ----------

  /** A row of the reference table; numTypes is zero in the terminator only. */
  datatype Row = Row(major: nat, minor: nat, revision: nat, numTypes: nat)

  function SpecInfo(): seq<Row> {
    [Row(1, 0, 1, 5), Row(3, 0, 1, 9), Row(4, 0, 2, 9), Row(4, 0, 3, 11), Row(5, 0, 3, 13), Row(5, 1, 3, 15), Row(6, 0, 3, 16),
     Row(6, 0, 4, 16), Row(6, 1, 4, 16), Row(6, 2, 4, 16), Row(6, 3, 5, 16), Row(6, 4, 5, 16), Row(6, 5, 6, 24), Row(6, 6, 7, 28),
     Row(0, 0, 0, 0)]
  }

  /** Version order. */
  predicate NoNewer(a: Row, major: nat, minor: nat) { a.major < major || (a.major == major && a.minor <= minor) }

  /** The order of the table: by revision and then by version. */
  predicate Before(a: Row, b: Row) {
    a.revision < b.revision || (a.revision == b.revision && NoNewer(a, b.major, b.minor))
  }

  /** Each row is before the next one, and only the last one is a terminator. */
  predicate Sorted(rows: seq<Row>) {
    && rows != [] && rows[|rows| - 1].numTypes == 0
    && (forall i :: 0 <= i < |rows| - 1 ==> rows[i].numTypes > 0)
    && (forall i, j :: 0 <= i && j == i + 1 < |rows| - 1 ==> Before(rows[i], rows[j]))
  }

  lemma {:induction false} SortedPairs(rows: seq<Row>, i: nat, j: nat)
    requires Sorted(rows) && i < j < |rows| - 1
    ensures Before(rows[i], rows[j])
    decreases j
  {
    if i < j - 1 {
      SortedPairs(rows, i, j - 1);
      assert Before(rows[j - 1], rows[j]);
    }
  }

  lemma SpecInfoIsSorted()
    ensures Sorted(SpecInfo())
  {
  }

  /** What the second scan looks for: both numbers are compared on their own. */
  predicate Fits(r: Row, revision: nat, major: nat, minor: nat) {
    r.numTypes > 0 && r.revision == revision && r.major <= major && r.minor <= minor
  }

  /** The greatest row that fits, or none when none does. */
  predicate Chosen(rows: seq<Row>, revision: nat, major: nat, minor: nat, chosen: Option<Row>) {
    && (chosen.None? <==> forall r <- rows :: !Fits(r, revision, major, minor))
    && (chosen.Some? ==>
          && chosen.value in rows && Fits(chosen.value, revision, major, minor)
          && forall r <- rows :: Fits(r, revision, major, minor) ==> NoNewer(r, chosen.value.major, chosen.value.minor))
  }

  method ChooseReference(rows: seq<Row>, revision: nat, major: nat, minor: nat) returns (chosen: Option<Row>)
    requires Sorted(rows)
    ensures Chosen(rows, revision, major, minor, chosen)
  {
    forall i, j | 0 <= i < j < |rows| - 1 ensures Before(rows[i], rows[j]) {
      SortedPairs(rows, i, j);
    }
    var ms := 0;
    while rows[ms].numTypes != 0
      invariant 0 <= ms < |rows|
      invariant forall i :: 0 <= i < ms ==> rows[i].revision != revision
      decreases |rows| - ms
    {
      if rows[ms].revision == revision {
        break;
      }
      ms := ms + 1;
    }
    chosen := None;
    ghost var first, at := ms, 0;
    while rows[ms].numTypes != 0 && rows[ms].revision == revision
      invariant first <= ms < |rows| && (first < ms ==> rows[first].revision == revision)
      invariant chosen.None? ==> forall i :: 0 <= i < ms ==> !Fits(rows[i], revision, major, minor)
      invariant chosen.Some? ==> 0 <= at < ms && rows[at] == chosen.value && Fits(rows[at], revision, major, minor)
                                 && forall i :: at < i < ms ==> !Fits(rows[i], revision, major, minor)
      decreases |rows| - ms
    {
      if rows[ms].major <= major && rows[ms].minor <= minor {
        chosen, at := Some(rows[ms]), ms;
      }
      ms := ms + 1;
    }
    forall i | ms <= i < |rows| ensures !Fits(rows[i], revision, major, minor) {
      if i < |rows| - 1 && ms > 0 {
        assert Before(rows[ms - 1], rows[i]);
        assert ms < i ==> Before(rows[ms], rows[i]);
      }
    }
  }

  /** The greatest row of the revision that is no newer than the FADT. */
  predicate Newest(rows: seq<Row>, r: Row, revision: nat, major: nat, minor: nat) {
    && r in rows && r.numTypes > 0 && r.revision == revision && NoNewer(r, major, minor)
    && forall q <- rows :: q.numTypes > 0 && q.revision == revision && NoNewer(q, major, minor) ==> NoNewer(q, r.major, r.minor)
  }

  predicate SameVersion(a: Row, b: Row) { a.major == b.major && a.minor == b.minor }

  /** That version is chosen exactly when its minor number is at most the FADT's; otherwise an
      older one is, or none at all. */
  lemma ChoiceIsNewest(rows: seq<Row>, revision: nat, major: nat, minor: nat, chosen: Option<Row>, newest: Row)
    requires Newest(rows, newest, revision, major, minor) && Chosen(rows, revision, major, minor, chosen)
    ensures (chosen.Some? && SameVersion(chosen.value, newest)) <==> newest.minor <= minor
    ensures chosen.None? ==> newest.minor > minor
  {
    if chosen.Some? {
      assert NoNewer(chosen.value, newest.major, newest.minor);
    }
    if newest.minor <= minor {
      assert Fits(newest, revision, major, minor);
    }
  }

  /** The rows of two revisions. */
  lemma RevisionRows()
    ensures Row(6, 0, 4, 16) in SpecInfo() && Row(6, 2, 4, 16) in SpecInfo() && Row(6, 4, 5, 16) in SpecInfo()
    ensures forall r <- SpecInfo() :: r.revision == 4 ==> r.major == 6 && r.minor <= 2 && r.numTypes == 16
    ensures forall r <- SpecInfo() :: r.revision == 5 ==> r.major == 6 && 3 <= r.minor <= 4
  {
    assert SpecInfo()[7] == Row(6, 0, 4, 16) && SpecInfo()[9] == Row(6, 2, 4, 16) && SpecInfo()[11] == Row(6, 4, 5, 16);
  }

  /** With an FADT of version 7.0 and a MADT of revision 4, 6.0 is chosen although 6.2 is there. */
  lemma OlderRowChosen(chosen: Option<Row>)
    requires Chosen(SpecInfo(), 4, 7, 0, chosen)
    ensures Newest(SpecInfo(), Row(6, 2, 4, 16), 4, 7, 0) && chosen == Some(Row(6, 0, 4, 16))
  {
    RevisionRows();
  }

  /** With the same FADT and revision 5, nothing is chosen although 6.4 is there. */
  lemma NoRowChosen(chosen: Option<Row>)
    requires Chosen(SpecInfo(), 5, 7, 0, chosen)
    ensures Newest(SpecInfo(), Row(6, 4, 5, 16), 5, 7, 0) && chosen == None
  {
    RevisionRows();
  }

  // ---------- Unique IDs ----------

  function Elems(ids: seq<nat>): set<nat> { set id | id in ids }

  lemma ElemsMore(ids: seq<nat>, id: nat)
    ensures |Elems(ids + [id])| == |Elems(ids)| + if id in ids then 0 else 1
  {
    assert Elems(ids + [id]) == Elems(ids) + {id};
  }

  /** Repetitions: entries minus distinct IDs. */
  function Repeated(ids: seq<nat>): int { |ids| - |Elems(ids)| }

  /** The IDs of each kind in the order in which they were read. */
  datatype Log = Log(apics: seq<nat>, sapics: seq<nat>, msis: seq<nat>, itses: seq<nat>)

  const NOTHING := Log([], [], [], [])

  /** An array with a flag for each ID; failures number the repetitions. */
  ghost predicate Flags(flags: seq<bool>, failures: nat, ids: seq<nat>) {
    && |flags| == 256 && failures == Repeated(ids)
    && (forall id :: id in ids ==> id < 256)
    && (forall id :: 0 <= id < 256 ==> (flags[id] <==> id in ids))
  }

  /** A list without repetitions of the same IDs. */
  ghost predicate Listed(list: seq<nat>, failures: nat, ids: seq<nat>) {
    failures == Repeated(ids) && Repeated(list) == 0 && forall id :: id in list <==> id in ids
  }

  /** The IDs seen so far, as the test keeps them: two byte arrays and two lists. */
  class SeenIds {
    const ioApics: array<bool>
    const ioSapics: array<bool>
    var msiFrameIds: seq<nat>
    var itsIds: seq<nat>
    var apicFailures: nat
    var sapicFailures: nat
    var msiFailures: nat
    var itsFailures: nat
    ghost var log: Log

    ghost predicate Valid()
      reads this, ioApics, ioSapics
    {
      && ioApics != ioSapics
      && Flags(ioApics[..], apicFailures, log.apics) && Flags(ioSapics[..], sapicFailures, log.sapics)
      && Listed(msiFrameIds, msiFailures, log.msis) && Listed(itsIds, itsFailures, log.itses)
    }

    constructor ()
      ensures Valid() && fresh(ioApics) && fresh(ioSapics) && log == NOTHING
    {
      ioApics := new bool[256](i => false);
      ioSapics := new bool[256](i => false);
      msiFrameIds, itsIds := [], [];
      apicFailures, sapicFailures, msiFailures, itsFailures := 0, 0, 0, 0;
      log := NOTHING;
    }

    method IoApic(id: Byte)
      requires Valid()
      modifies this, ioApics
      ensures Valid() && log == old(log).(apics := old(log.apics) + [id])
    {
      ElemsMore(log.apics, id);
      if !ioApics[id] {
        ioApics[id] := true;
      } else {
        apicFailures := apicFailures + 1;
      }
      log := log.(apics := log.apics + [id]);
    }

    method IoSapic(id: Byte)
      requires Valid()
      modifies this, ioSapics
      ensures Valid() && log == old(log).(sapics := old(log.sapics) + [id])
    {
      ElemsMore(log.sapics, id);
      if !ioSapics[id] {
        ioSapics[id] := true;
      } else {
        sapicFailures := sapicFailures + 1;
      }
      log := log.(sapics := log.sapics + [id]);
    }

    method GicMsiFrame(id: nat)
      requires Valid()
      modifies this
      ensures Valid() && log == old(log).(msis := old(log.msis) + [id])
    {
      var found := Search(msiFrameIds, id);
      ElemsMore(log.msis, id);
      if found {
        msiFailures := msiFailures + 1;
      } else {
        ElemsMore(msiFrameIds, id);
        msiFrameIds := msiFrameIds + [id];
      }
      log := log.(msis := log.msis + [id]);
    }

    method GicIts(id: nat)
      requires Valid()
      modifies this
      ensures Valid() && log == old(log).(itses := old(log.itses) + [id])
    {
      var found := Search(itsIds, id);
      ElemsMore(log.itses, id);
      if found {
        itsFailures := itsFailures + 1;
      } else {
        ElemsMore(itsIds, id);
        itsIds := itsIds + [id];
      }
      log := log.(itses := log.itses + [id]);
    }

    /** The part of the switch over the subtable type that keeps IDs. */
    method Check(mem: nat -> Byte, hdr: nat)
      requires Valid()
      modifies this, ioApics, ioSapics
      ensures Valid() && log == Logged(old(log), mem, hdr)
    {
      var kind := mem(hdr);
      if kind == IO_APIC {
        IoApic(mem(hdr + 2));
      } else if kind == IO_SAPIC {
        IoSapic(mem(hdr + 2));
      } else if kind == GIC_MSI_FRAME {
        GicMsiFrame(Word(mem, hdr + 4));
      } else if kind == GIC_ITS {
        GicIts(Word(mem, hdr + 4));
      }
    }

    /** Is the number of I/O SAPICs too small, and is an I/O APIC without an I/O SAPIC? */
    method IoApicSapicCompare(numIoApics: nat, numIoSapics: nat) returns (tooFew: bool, missing: bool)
      requires Valid()
      ensures tooFew <==> 0 < numIoSapics < numIoApics
      ensures missing <==> numIoSapics > 0 && Missing(log)
    {
      if numIoSapics == 0 {
        return false, false;
      }
      tooFew := numIoSapics < numIoApics;
      missing := false;
      for ioApic := 0 to 256
        invariant missing <==> exists id :: 0 <= id < ioApic && id in log.apics && id !in log.sapics
      {
        assert ioApics[..][ioApic] <==> ioApic in log.apics;
        assert ioSapics[..][ioApic] <==> ioApic in log.sapics;
        if ioApics[ioApic] && ioApics[ioApic] != ioSapics[ioApic] {
          missing := true;
        }
      }
    }
  }

  /** Some I/O APIC has no I/O SAPIC. */
  ghost predicate Missing(log: Log) { exists id :: id in log.apics && id !in log.sapics }

  method Search(ids: seq<nat>, id: nat) returns (found: bool)
    ensures found <==> id in ids
  {
    found := false;
    for i := 0 to |ids|
      invariant found <==> id in ids[..i]
    {
      if ids[i] == id {
        found := true;
      }
      assert ids[..i + 1] == ids[..i] + [ids[i]];
    }
    assert ids[..|ids|] == ids;
  }

  /** If every APIC ID is among the SAPIC IDs and none is repeated, there are at least as many SAPICs. */
  lemma Pigeonhole(apics: seq<nat>, sapics: seq<nat>)
    requires Repeated(apics) == 0 && forall id :: id in apics ==> id in sapics
    ensures |apics| <= |sapics|
  {
    assert Elems(apics) <= Elems(sapics);
    SubsetSize(Elems(apics), Elems(sapics));
    Distinct(sapics);
  }

  lemma {:induction false} Distinct(ids: seq<nat>)
    ensures |Elems(ids)| <= |ids|
    decreases |ids|
  {
    if ids != [] {
      var n := |ids| - 1;
      Distinct(ids[..n]);
      ElemsMore(ids[..n], ids[n]);
      assert ids == ids[..n] + [ids[n]];
    }
  }

  // ---------- The walk ----------

  const MADT_HEADER := 44
  const IO_APIC := 1
  const IO_SAPIC := 6
  const GIC_MSI_FRAME := 13
  const GIC_ITS := 15

  /** The log with the ID of the subtable at an offset; IDs differ in width. */
  function Logged(log: Log, mem: nat -> Byte, at: nat): Log {
    if mem(at) == IO_APIC then log.(apics := log.apics + [mem(at + 2)])
    else if mem(at) == IO_SAPIC then log.(sapics := log.sapics + [mem(at + 2)])
    else if mem(at) == GIC_MSI_FRAME then log.(msis := log.msis + [Word(mem, at + 4)])
    else if mem(at) == GIC_ITS then log.(itses := log.itses + [Word(mem, at + 4)])
    else log
  }

  /** The IDs of the subtables at offsets. */
  function LogOf(mem: nat -> Byte, offsets: seq<nat>): Log {
    if offsets == [] then NOTHING
    else
      var n := |offsets| - 1;
      Logged(LogOf(mem, offsets[..n]), mem, offsets[n])
  }

  /** The length bytes of the subtables at offsets. */
  function TotalLength(mem: nat -> Byte, offsets: seq<nat>): nat {
    if offsets == [] then 0
    else
      var n := |offsets| - 1;
      TotalLength(mem, offsets[..n]) + mem(offsets[n] + 1)
  }

  /** Each subtable starts where the lengths of those in front of it add up to. */
  predicate RunningSums(mem: nat -> Byte, offsets: seq<nat>) {
    offsets != [] ==>
      var n := |offsets| - 1;
      offsets[n] == MADT_HEADER + TotalLength(mem, offsets[..n]) && RunningSums(mem, offsets[..n])
  }

  /** The subtables stand one behind the other from byte 44 on, each as long as its second byte says. */
  lemma {:induction false} SumsAreSteps(mem: nat -> Byte, offsets: seq<nat>)
    ensures RunningSums(mem, offsets)
       <==> (offsets != [] ==> offsets[0] == 44) && forall i, j :: 0 <= i && j == i + 1 < |offsets| ==> offsets[j] == offsets[i] + mem(offsets[i] + 1)
    ensures RunningSums(mem, offsets) && offsets != [] ==>
              var last := offsets[|offsets| - 1];
              44 + TotalLength(mem, offsets) == last + mem(last + 1)
    decreases |offsets|
  {
    if offsets != [] {
      var n := |offsets| - 1;
      var before := offsets[..n];
      SumsAreSteps(mem, before);
      assert forall i :: 0 <= i < n ==> before[i] == offsets[i];
    }
  }

  /** What one more subtable adds: an ID byte of types 1 and 6, a 32-bit one of types 13 and 15. */
  lemma LogMore(mem: nat -> Byte, offsets: seq<nat>, at: nat)
    ensures var before, after := LogOf(mem, offsets), LogOf(mem, offsets + [at]);
            var id := mem(at + 4) + 0x100 * mem(at + 5) + 0x1_0000 * mem(at + 6) + 0x100_0000 * mem(at + 7);
            && after.apics == before.apics + (if mem(at) == 1 then [mem(at + 2)] else [])
            && after.sapics == before.sapics + (if mem(at) == 6 then [mem(at + 2)] else [])
            && after.msis == before.msis + (if mem(at) == 13 then [id] else [])
            && after.itses == before.itses + (if mem(at) == 15 then [id] else [])
    ensures LogOf(mem, []) == Log([], [], [], [])
  {
    assert (offsets + [at])[..|offsets|] == offsets;
  }

  /** The subtables that are visited, until at most two bytes are left or a length is zero. */
  ghost predicate Visited(mem: nat -> Byte, tableLength: nat, offsets: seq<nat>) {
    && RunningSums(mem, offsets)
    && (forall at :: at in offsets ==> at + 2 < tableLength)
    && (forall i :: 0 <= i < |offsets| - 1 ==> mem(offsets[i] + 1) != 0)
    && (MADT_HEADER + TotalLength(mem, offsets) + 2 >= tableLength
        || (offsets != [] && mem(offsets[|offsets| - 1] + 1) == 0))
  }

  /**
   From cleared state: the walk terminates on every table, having visited the running sums of the
   length bytes; failures number the repeated IDs of each kind.
   */
  method MadtSubtables(mem: nat -> Byte, tableLength: nat, seen: SeenIds, sbbr: bool)
    returns (offsets: seq<nat>, tooFew: bool, missing: bool)
    requires seen.Valid() && seen.log == NOTHING
    modifies seen, seen.ioApics, seen.ioSapics
    ensures Visited(mem, tableLength, offsets) && seen.Valid()
    ensures var log := LogOf(mem, offsets);
            && seen.apicFailures == Repeated(log.apics) && seen.sapicFailures == Repeated(log.sapics)
            && seen.msiFailures == Repeated(log.msis) && seen.itsFailures == Repeated(log.itses)
            && (tooFew <==> !sbbr && 0 < |log.sapics| < |log.apics|)
            && (missing <==> !sbbr && log.sapics != [] && Missing(log))
    ensures seen.apicFailures == 0 && !missing ==> !tooFew
  {
    var numIoApics, numIoSapics;
    offsets, numIoApics, numIoSapics := CheckSubtables(mem, tableLength, seen);
    tooFew, missing := false, false;
    if !sbbr {
      tooFew, missing := seen.IoApicSapicCompare(numIoApics, numIoSapics);
      if seen.apicFailures == 0 && !missing && numIoSapics > 0 {
        Pigeonhole(seen.log.apics, seen.log.sapics);
      }
    }
  }

  /** data is where the next subtable starts and length what is left of the table. */
  ghost predicate Going(mem: nat -> Byte, tableLength: nat, offsets: seq<nat>, data: nat, length: int) {
    && data + length == tableLength && data == MADT_HEADER + TotalLength(mem, offsets) && RunningSums(mem, offsets)
    && InTable(mem, tableLength, offsets)
  }

  /** All subtables start in the table, and none has length zero. */
  ghost predicate InTable(mem: nat -> Byte, tableLength: nat, offsets: seq<nat>) {
    forall at :: at in offsets ==> at + 2 < tableLength && mem(at + 1) != 0
  }

  lemma LastInTable(mem: nat -> Byte, tableLength: nat, before: seq<nat>, hdr: nat, offsets: seq<nat>)
    requires InTable(mem, tableLength, before) && hdr + 2 < tableLength && offsets == before + [hdr]
    ensures forall at :: at in offsets ==> at + 2 < tableLength
    ensures forall i :: 0 <= i < |offsets| - 1 ==> mem(offsets[i] + 1) != 0
    ensures mem(hdr + 1) != 0 ==> InTable(mem, tableLength, offsets)
  {
    forall i | 0 <= i < |before| ensures mem(offsets[i] + 1) != 0 {
      assert offsets[i] == before[i] && before[i] in before;
    }
    assert forall at :: at in offsets ==> at in before || at == hdr;
  }

  /** The loop over the subtables. */
  method CheckSubtables(mem: nat -> Byte, tableLength: nat, seen: SeenIds)
    returns (offsets: seq<nat>, numIoApics: nat, numIoSapics: nat)
    requires seen.Valid() && seen.log == NOTHING
    modifies seen, seen.ioApics, seen.ioSapics
    ensures Visited(mem, tableLength, offsets) && seen.Valid() && seen.log == LogOf(mem, offsets)
    ensures numIoApics == |seen.log.apics| && numIoSapics == |seen.log.sapics|
  {
    var data: nat, length: int := MADT_HEADER, tableLength - MADT_HEADER;
    numIoApics, numIoSapics, offsets := 0, 0, [];
    while length > 2
      invariant Going(mem, tableLength, offsets, data, length)
      invariant seen.Valid() && seen.log == LogOf(mem, offsets)
      invariant numIoApics == |seen.log.apics| && numIoSapics == |seen.log.sapics|
      decreases length
    {
      var hdr := data;
      data := data + 2;
      length := length - 2;
      numIoApics, numIoSapics := CheckSubtable(mem, hdr, seen, numIoApics, numIoSapics);
      ghost var before := offsets;
      offsets := offsets + [hdr];
      WalkedOn(mem, tableLength, before, hdr, length + 2, offsets);
      var skip := mem(hdr + 1) as int - 2;
      if mem(hdr + 1) == 0 {
        return;
      }
      data := data + skip;
      length := length - skip;
    }
    forall i | 0 <= i < |offsets| ensures mem(offsets[i] + 1) != 0 {
      assert offsets[i] in offsets;
    }
  }

  /** The checks of one subtable, which is counted if it is an I/O APIC or an I/O SAPIC. */
  method CheckSubtable(mem: nat -> Byte, hdr: nat, seen: SeenIds, ioApics: nat, ioSapics: nat)
    returns (numIoApics: nat, numIoSapics: nat)
    requires seen.Valid() && ioApics == |seen.log.apics| && ioSapics == |seen.log.sapics|
    modifies seen, seen.ioApics, seen.ioSapics
    ensures seen.Valid() && seen.log == Logged(old(seen.log), mem, hdr)
    ensures numIoApics == |seen.log.apics| && numIoSapics == |seen.log.sapics|
  {
    numIoApics, numIoSapics := ioApics, ioSapics;
    seen.Check(mem, hdr);
    if mem(hdr) == IO_APIC {
      numIoApics := numIoApics + 1;
    } else if mem(hdr) == IO_SAPIC {
      numIoSapics := numIoSapics + 1;
    }
  }

  /** The walk goes on behind a subtable; one of length zero is the last one. */
  lemma WalkedOn(mem: nat -> Byte, tableLength: nat, before: seq<nat>, hdr: nat, length: int, offsets: seq<nat>)
    requires Going(mem, tableLength, before, hdr, length) && length > 2 && offsets == before + [hdr]
    ensures var len := mem(hdr + 1);
            if len == 0 then Visited(mem, tableLength, offsets)
            else Going(mem, tableLength, offsets, hdr + len, length - len)
    ensures LogOf(mem, offsets) == Logged(LogOf(mem, before), mem, hdr)
  {
    LastInTable(mem, tableLength, before, hdr, offsets);
  }
}
