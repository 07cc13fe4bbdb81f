/**
 The record walk of the HEST test (src/acpi/hest/hest.c).  mem gives the bytes from the start of
 the table on; the length in the header is not compared with what was loaded.  Within that length
 only the type of a record can be read past the end (TypeReads).  fieldsOk tells whether the field checks of the record at an offset all pass.
 */
module Hest {
  import opened Bytes
  import opened Walks
  import opened Wrappers

  const HEST_HEADER := 40
  const BANK := 28

  function Kind(mem: nat -> Byte, at: nat): nat { mem(at) + 0x100 * mem(at + 1) }

  function TableLength(mem: nat -> Byte): nat { Word(mem, 4) }

  /** The size of the record at an offset; types 0, 1 and 11 say how many banks follow. */
  function Size(mem: nat -> Byte, at: nat): (r: Option<nat>)
    ensures r.Some? ==> r.value > 0
  {
    match Kind(mem, at)
    case 0 => Some(40 + BANK * mem(at + 32))
    case 1 => Some(48 + BANK * mem(at + 44))
    case 11 => Some(48 + BANK * mem(at + 44))
    case 2 => Some(18)
    case 6 => Some(48)
    case 7 => Some(44)
    case 8 => Some(56)
    case 9 => Some(64)
    case 10 => Some(92)
    case _ => None
  }

  predicate Record(mem: nat -> Byte, a: nat, b: nat) {
    a < b <= TableLength(mem) && Size(mem, a) == Some(b - a)
  }

  ghost function Step(mem: nat -> Byte): (nat, nat) -> bool { (a: nat, b: nat) => Record(mem, a, b) }

  ghost function AtEnd(mem: nat -> Byte): nat -> bool { (a: nat) => a >= TableLength(mem) }

  /** Records of known types tile the bytes behind the header. */
  ghost predicate Tiles(mem: nat -> Byte, points: seq<nat>) { Run(Step(mem), AtEnd(mem), HEST_HEADER, points) }

  /** No two records are of the same type k. */
  ghost predicate AtMostOne(mem: nat -> Byte, points: seq<nat>, k: nat) {
    forall i, j :: 0 <= i < j < |points| - 1 ==> !(Kind(mem, points[i]) == k && Kind(mem, points[j]) == k)
  }

  /** A record as bytes: the type, and as many bytes as it asks for. */
  predicate RecordBytes(r: seq<Byte>) {
    && |r| >= 2 && r[1] == 0
    && match r[0]
       case 0 => |r| >= 40 && |r| == 40 + 28 * (r[32] as int)
       case 1 => |r| >= 48 && |r| == 48 + 28 * (r[44] as int)
       case 2 => |r| == 18
       case 6 => |r| == 48
       case 7 => |r| == 44
       case 8 => |r| == 56
       case 9 => |r| == 64
       case 10 => |r| == 92
       case 11 => |r| >= 48 && |r| == 48 + 28 * (r[44] as int)
       case _ => false
  }

  /** A step of the walk leads over the bytes of one record. */
  lemma RecordIs(mem: nat -> Byte, a: nat, b: nat)
    ensures Record(mem, a, b) <==> a < b <= TableLength(mem) && RecordBytes(Slice(mem, a, b))
  {
    if a < b {
      var r := Slice(mem, a, b);
      if Record(mem, a, b) || RecordBytes(r) {
        assert r[0] == mem(a) && r[1] == mem(a + 1);
      }
    }
  }

  /** A tiling leads from the end of the header to the end of the table. */
  lemma TilesToTheEnd(mem: nat -> Byte, points: seq<nat>)
    requires Tiles(mem, points)
    ensures points[0] == 40 && points[|points| - 1] == if TableLength(mem) < 40 then 40 else TableLength(mem)
    ensures TableLength(mem) == mem(4) + 0x100 * mem(5) + 0x1_0000 * mem(6) + 0x100_0000 * mem(7)
  {
    var n := |points| - 1;
    if n > 0 {
      assert Step(mem)(points[0], points[1]) && Step(mem)(points[n - 1], points[n]);
    }
  }

  /** The type takes two bytes.  At the points of a walk it is read within the length in the header
      exactly if the walk does not come to the last byte. */
  lemma TypeReads(mem: nat -> Byte, points: seq<nat>)
    requires Path(Step(mem), points)
    ensures (forall i :: 0 <= i < |points| && points[i] < TableLength(mem) ==> points[i] + 2 <= TableLength(mem))
            <==> points[|points| - 1] + 1 != TableLength(mem)
  {
    var n := |points| - 1;
    forall i | 0 <= i < n ensures points[i] + 2 <= TableLength(mem) {
      assert Step(mem)(points[i], points[i + 1]);
      assert Record(mem, points[i], points[i + 1]);
    }
    assert forall i :: 0 <= i < |points| ==> i < n || points[i] == points[n];
  }

  // ---------- Counting types ----------

  function Count(kinds: seq<nat>, k: nat): nat {
    if kinds == [] then 0
    else Count(kinds[..|kinds| - 1], k) + if kinds[|kinds| - 1] == k then 1 else 0
  }

  lemma {:induction false} CountPositive(kinds: seq<nat>, k: nat)
    ensures Count(kinds, k) > 0 <==> k in kinds
    decreases |kinds|
  {
    if kinds != [] {
      CountPositive(kinds[..|kinds| - 1], k);
      Joined(kinds, |kinds| - 1);
    }
  }

  lemma {:induction false} CountAtMostOne(kinds: seq<nat>, k: nat)
    ensures Count(kinds, k) <= 1 <==> forall i, j :: 0 <= i < j < |kinds| ==> !(kinds[i] == k && kinds[j] == k)
    decreases |kinds|
  {
    if kinds != [] {
      var n := |kinds| - 1;
      var before := kinds[..n];
      CountAtMostOne(before, k);
      CountPositive(before, k);
      assert forall i :: 0 <= i < n ==> before[i] == kinds[i];
      if kinds[n] == k && k in before {
        var i :| 0 <= i < n && before[i] == k;
        assert kinds[i] == k;
      }
    }
  }

  ghost predicate Counted(kinds: seq<nat>, count00: nat, count01: nat, count02: nat) {
    count00 == Count(kinds, 0) && count01 == Count(kinds, 1) && count02 == Count(kinds, 2)
  }

  // ---------- The walk ----------

  /** The bookkeeping of a handler: step over the record, or give up. */
  ghost predicate Handled(mem: nat -> Byte, size: nat, length: int, data: nat, passed: bool, fieldsOk: nat -> bool,
                          length': int, data': nat, passed': bool)
  {
    if length < size then length' == 0 && data' == data && !passed'
    else length' == length - size && data' == data + size && (passed' <==> passed && fieldsOk(data))
  }

  /** Types 0, 1 and 11: banks at an offset tells how many banks follow the base. */
  method CheckBanked(mem: nat -> Byte, base: nat, banks: nat, length: int, data: nat, passed: bool, fieldsOk: nat -> bool)
    returns (length': int, data': nat, passed': bool)
    ensures Handled(mem, base + BANK * mem(data + banks), length, data, passed, fieldsOk, length', data', passed')
  {
    length', data', passed' := length, data, passed;
    if length < base {
      return 0, data, false;
    }
    var totalSize := base + mem(data + banks) * BANK;
    if length < totalSize {
      return 0, data, false;
    }
    passed' := passed && fieldsOk(data);
    length' := length - totalSize;
    data' := data + totalSize;
  }

  method CheckFixed(mem: nat -> Byte, size: nat, length: int, data: nat, passed: bool, fieldsOk: nat -> bool)
    returns (length': int, data': nat, passed': bool)
    ensures Handled(mem, size, length, data, passed, fieldsOk, length', data', passed')
  {
    if length < size {
      return 0, data, false;
    }
    return length - size, data + size, passed && fieldsOk(data);
  }

  /** The switch over the type of a record. */
  method CheckRecord(mem: nat -> Byte, length: int, data: nat, passed: bool, fieldsOk: nat -> bool)
    returns (length': int, data': nat, passed': bool)
    ensures var size := Size(mem, data);
            if size.None? then length' == 0 && data' == data && !passed'
            else Handled(mem, size.value, length, data, passed, fieldsOk, length', data', passed')
  {
    var kind := Kind(mem, data);
    if kind == 0 {
      length', data', passed' := CheckBanked(mem, 40, 32, length, data, passed, fieldsOk);
    } else if kind == 1 || kind == 11 {
      length', data', passed' := CheckBanked(mem, 48, 44, length, data, passed, fieldsOk);
    } else if kind == 2 {
      length', data', passed' := CheckFixed(mem, 18, length, data, passed, fieldsOk);
    } else if kind == 6 {
      length', data', passed' := CheckFixed(mem, 48, length, data, passed, fieldsOk);
    } else if kind == 7 {
      length', data', passed' := CheckFixed(mem, 44, length, data, passed, fieldsOk);
    } else if kind == 8 {
      length', data', passed' := CheckFixed(mem, 56, length, data, passed, fieldsOk);
    } else if kind == 9 {
      length', data', passed' := CheckFixed(mem, 64, length, data, passed, fieldsOk);
    } else if kind == 10 {
      length', data', passed' := CheckFixed(mem, 92, length, data, passed, fieldsOk);
    } else {
      return 0, data, false;
    }
  }

  /** The types of the records in front of the last point. */
  ghost predicate KindsOf(mem: nat -> Byte, points: seq<nat>, kinds: seq<nat>) {
    |kinds| == |points| - 1 && forall i :: 0 <= i < |kinds| ==> kinds[i] == Kind(mem, points[i])
  }

  /** The records that were stepped over so far. */
  ghost predicate Walked(mem: nat -> Byte, fieldsOk: nat -> bool, length: int, data: nat, passed: bool, points: seq<nat>, kinds: seq<nat>) {
    && data + length == TableLength(mem)
    && Path(Step(mem), points) && points[0] == HEST_HEADER && points[|points| - 1] == data
    && (passed <==> AllOk(fieldsOk, points))
    && KindsOf(mem, points, kinds)
  }

  /** What a handled record adds. */
  lemma WalkedOn(mem: nat -> Byte, fieldsOk: nat -> bool, length: int, data: nat, passed: bool, points: seq<nat>, kinds: seq<nat>,
                 length': int, data': nat, passed': bool)
    requires Walked(mem, fieldsOk, length, data, passed, points, kinds) && 0 < length
    requires Size(mem, data).Some? && Size(mem, data).value <= length
    requires Handled(mem, Size(mem, data).value, length, data, passed, fieldsOk, length', data', passed')
    ensures Walked(mem, fieldsOk, length', data', passed', points + [data'], kinds + [Kind(mem, data)])
  {
    assert Record(mem, data, data');
    PathMore(Step(mem), points, data');
    var more := points + [data'];
    assert forall i :: 0 <= i < |points| ==> more[i] == points[i];
    assert AllOk(fieldsOk, more) <==> AllOk(fieldsOk, points) && fieldsOk(points[|points| - 1]);
  }

  method Walk(mem: nat -> Byte, fieldsOk: nat -> bool)
    returns (passed: bool, data: nat, length: int, count00: nat, count01: nat, count02: nat,
             ghost aborted: bool, ghost points: seq<nat>, ghost kinds: seq<nat>)
    ensures length <= 0 && if aborted then length == 0 else data + length == TableLength(mem)
    ensures Path(Step(mem), points) && points[0] == HEST_HEADER && points[|points| - 1] == data
    ensures aborted ==> !passed && forall run :: !Tiles(mem, run)
    ensures !aborted ==>
              && Tiles(mem, points) && KindsOf(mem, points, kinds) && (passed <==> AllOk(fieldsOk, points))
              && Counted(kinds, count00, count01, count02)
  {
    passed := true;
    data, length := HEST_HEADER, TableLength(mem) - HEST_HEADER;
    var count11 := 0;
    count00, count01, count02 := 0, 0, 0;
    aborted, points, kinds := false, [HEST_HEADER], [];
    while length > 0
      invariant Path(Step(mem), points) && points[0] == HEST_HEADER && points[|points| - 1] == data
      invariant aborted ==> length == 0 && !passed && forall run :: !Tiles(mem, run)
      invariant !aborted ==>
                  && Walked(mem, fieldsOk, length, data, passed, points, kinds)
                  && Counted(kinds, count00, count01, count02)
      decreases length
    {
      var kind := Kind(mem, data);
      var length', data', passed' := CheckRecord(mem, length, data, passed, fieldsOk);
      if Size(mem, data).None? || length < Size(mem, data).value {
        DeadEnd(Step(mem), AtEnd(mem), points);
        aborted := true;
      } else {
        WalkedOn(mem, fieldsOk, length, data, passed, points, kinds, length', data', passed');
        points := points + [data'];
        kinds := kinds + [kind];
      }
      length, data, passed := length', data', passed';
      if kind == 0 {
        count00 := count00 + 1;
      } else if kind == 1 {
        count01 := count01 + 1;
      } else if kind == 2 {
        count02 := count02 + 1;
      } else if kind == 11 {
        count11 := count11 + 1;
      }
    }
  }

  /** Records of known types tile the table, their fields are right, and types 0 to 2 are not repeated. */
  ghost predicate Sound(mem: nat -> Byte, fieldsOk: nat -> bool, points: seq<nat>) {
    && Tiles(mem, points) && AllOk(fieldsOk, points)
    && AtMostOne(mem, points, 0) && AtMostOne(mem, points, 1) && AtMostOne(mem, points, 2)
  }

  lemma Verdict(mem: nat -> Byte, fieldsOk: nat -> bool, points: seq<nat>, kinds: seq<nat>)
    requires Tiles(mem, points) && KindsOf(mem, points, kinds)
    ensures (exists run :: Sound(mem, fieldsOk, run))
            <==> AllOk(fieldsOk, points) && Count(kinds, 0) <= 1 && Count(kinds, 1) <= 1 && Count(kinds, 2) <= 1
  {
    forall run | Sound(mem, fieldsOk, run) ensures run == points {
      RunOnce(Step(mem), AtEnd(mem), HEST_HEADER, run, points);
    }
    forall k: nat ensures AtMostOne(mem, points, k) <==> Count(kinds, k) <= 1 {
      CountAtMostOne(kinds, k);
    }
    assert Sound(mem, fieldsOk, points)
           <==> AllOk(fieldsOk, points) && Count(kinds, 0) <= 1 && Count(kinds, 1) <= 1 && Count(kinds, 2) <= 1;
  }

  /**
   A pass is reported exactly when records tile the bytes behind the header with nothing left
   over, all field checks pass, and types 0, 1 and 2 occur at most once each.  A length shorter
   than the header leaves nothing to tile.  The loaded length is compared modulo 2^32.
   */
  method HestTest1(mem: nat -> Byte, loaded: nat, fieldsOk: nat -> bool) returns (passReported: bool)
    ensures passReported <==> loaded % WORD32 >= HEST_HEADER && exists run :: Sound(mem, fieldsOk, run)
  {
    if loaded % WORD32 < HEST_HEADER {
      return false;
    }
    var passed, data, length, count00, count01, count02;
    ghost var aborted, points, kinds;
    passed, data, length, count00, count01, count02, aborted, points, kinds := Walk(mem, fieldsOk);
    if !aborted {
      Verdict(mem, fieldsOk, points, kinds);
    }
    if count00 > 1 {
      passed := false;
    }
    if count01 > 1 {
      passed := false;
    }
    if count02 > 1 {
      passed := false;
    }
    return passed;
  }
}
