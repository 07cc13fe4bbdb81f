/**
 The structure walk of the LPIT test (src/acpi/lpit/lpit.c).  mem gives the bytes from the start
 of the table on; fieldsOk tells whether the field checks of the structure at an offset all pass.
 */
module Lpit {
  import opened Bytes
  import opened Walks

  const LPIT_HEADER := 36
  const C_STATE := 56

  function Id(mem: nat -> Byte, at: nat): nat { mem(at + 8) + 0x100 * mem(at + 9) }

  /** Where the structures end; the subtraction of the header wraps around. */
  function Limit(mem: nat -> Byte): nat { LPIT_HEADER + (Word(mem, 4) - LPIT_HEADER) % WORD32 }

  predicate Structure(mem: nat -> Byte, a: nat, b: nat) {
    a + 8 < Limit(mem) && Word(mem, a) == 0 && C_STATE <= Word(mem, a + 4) && b == a + Word(mem, a + 4) <= Limit(mem)
  }

  ghost function Step(mem: nat -> Byte): (nat, nat) -> bool { (a: nat, b: nat) => Structure(mem, a, b) }

  /** Up to eight bytes may be left over. */
  ghost function AtEnd(mem: nat -> Byte): nat -> bool { (a: nat) => a + 8 >= Limit(mem) }

  /** The IDs of the structures that start at all points but the last. */
  ghost predicate IdsAre(mem: nat -> Byte, points: seq<nat>, ids: seq<nat>) {
    |ids| == |points| - 1 && forall i :: 0 <= i < |ids| ==> ids[i] == Id(mem, points[i])
  }

  /** The first ID is zero, and each one is that in front of it or one more. */
  predicate Climbs(ids: seq<nat>) {
    && (ids != [] ==> ids[0] == 0)
    && forall i, j :: 0 <= i && j == i + 1 < |ids| ==> ids[j] == ids[i] || ids[j] == ids[i] + 1
  }

  /** A structure as bytes: type 0, its own length, and at least 56 of them. */
  predicate StructureBytes(r: seq<Byte>) {
    && |r| >= 56 && r[0] == r[1] == r[2] == r[3] == 0
    && |r| == r[4] as int + 0x100 * r[5] as int + 0x1_0000 * r[6] as int + 0x100_0000 * r[7] as int
  }

  /** A step of the walk leads over the bytes of one structure. */
  lemma StructureIs(mem: nat -> Byte, a: nat, b: nat)
    ensures Structure(mem, a, b) <==> a < b <= Limit(mem) && StructureBytes(Slice(mem, a, b))
  {
    if a < b {
      var r := Slice(mem, a, b);
      if b >= a + 8 {
        assert r[0] == mem(a) && r[1] == mem(a + 1) && r[2] == mem(a + 2) && r[3] == mem(a + 3);
        assert r[4] == mem(a + 4) && r[5] == mem(a + 5) && r[6] == mem(a + 6) && r[7] == mem(a + 7);
      }
    }
  }

  /** A tiling leads from the end of the header to at most eight bytes before the end of the table;
      a length shorter than the header wraps around. */
  lemma TilesAlmostToTheEnd(mem: nat -> Byte, points: seq<nat>)
    requires Run(Step(mem), AtEnd(mem), LPIT_HEADER, points)
    ensures var length := mem(4) + 0x100 * mem(5) + 0x1_0000 * mem(6) + 0x100_0000 * mem(7);
            var end := if length < 36 then 0x1_0000_0000 + length else length;
            points[0] == 36 && points[|points| - 1] <= end <= points[|points| - 1] + 8
  {
    var length := mem(4) + 0x100 * mem(5) + 0x1_0000 * mem(6) + 0x100_0000 * mem(7);
    assert Word(mem, 4) == length;
    var n := |points| - 1;
    if n > 0 {
      assert Step(mem)(points[n - 1], points[n]);
    }
  }

  /** Where the walk stands at a structure whose ID it reads, at +8 and +9. */
  predicate ReadsId(mem: nat -> Byte, at: nat) {
    at + 8 < Limit(mem) && at + Word(mem, at + 4) <= Limit(mem) && Word(mem, at) == 0
  }

  /** All IDs are read within the length in the header exactly if the walk does not end nine bytes
      before it at such a structure. */
  lemma IdReads(mem: nat -> Byte, points: seq<nat>)
    requires Path(Step(mem), points)
    ensures (forall i :: 0 <= i < |points| && ReadsId(mem, points[i]) ==> points[i] + 10 <= Limit(mem))
            <==> !(ReadsId(mem, points[|points| - 1]) && points[|points| - 1] + 9 == Limit(mem))
  {
    var n := |points| - 1;
    forall i | 0 <= i < n ensures points[i] + 10 <= Limit(mem) {
      assert Step(mem)(points[i], points[i + 1]);
      assert Structure(mem, points[i], points[i + 1]);
    }
    assert forall i :: 0 <= i < |points| ==> i < n || points[i] == points[n];
  }

  // ---------- What climbing means ----------

  lemma {:induction false} ClimbsTo(ids: seq<nat>, i: nat)
    requires Climbs(ids) && i < |ids|
    ensures forall k :: 0 <= k <= i ==> ids[k] <= ids[i]
    ensures forall v: nat :: v in ids || v > ids[i]
    decreases i
  {
    assert ids[0] in ids && ids[i] in ids;
    if i > 0 {
      ClimbsTo(ids, i - 1);
      assert ids[i] == ids[i - 1] || ids[i] == ids[i - 1] + 1;
    }
  }

  /** IDs climb exactly when they are in order and all of 0..last are present and nothing else. */
  lemma ClimbsLeavesNoGap(ids: seq<nat>)
    requires ids != []
    ensures Climbs(ids)
            <==> (forall i, j :: 0 <= i <= j < |ids| ==> ids[i] <= ids[j])
                 && (forall v: nat :: v in ids <==> v <= ids[|ids| - 1])
  {
    var last := |ids| - 1;
    if Climbs(ids) {
      forall i, j | 0 <= i <= j < |ids| ensures ids[i] <= ids[j] {
        ClimbsTo(ids, j);
      }
      ClimbsTo(ids, last);
    }
    if (forall i, j :: 0 <= i <= j < |ids| ==> ids[i] <= ids[j]) && (forall v: nat :: v in ids <==> v <= ids[last]) {
      forall i, j | 0 <= i && j == i + 1 < |ids| ensures ids[j] == ids[i] || ids[j] == ids[i] + 1 {
        var v := ids[i] + 1;
        assert v in ids || v > ids[last];
        if v in ids {
          var k :| 0 <= k < |ids| && ids[k] == v;
          assert k <= i || k >= j;
        }
      }
      assert 0 in ids;
      var z :| 0 <= z < |ids| && ids[z] == 0;
      assert ids[0] <= ids[z];
    }
  }

  // ---------- Two structures ----------

  /** Two structures of 56 bytes: they are sound exactly if their fields are and the ID of the first,
      in its bytes 8 and 9, is zero and that of the second zero or one. */
  lemma TwoStructures(mem: nat -> Byte, fieldsOk: nat -> bool)
    requires Word(mem, 4) == 148 && StructureBytes(Slice(mem, 36, 92)) && StructureBytes(Slice(mem, 92, 148))
    ensures (exists run, ids :: Sound(mem, fieldsOk, run, ids))
            <==> fieldsOk(36) && fieldsOk(92) && mem(44) == mem(45) == 0 && mem(100) <= 1 && mem(101) == 0
  {
    var points, ids := [36, 92, 148], [Id(mem, 36), Id(mem, 92)];
    StructureIs(mem, 36, 92);
    StructureIs(mem, 92, 148);
    OnlyRun(mem, fieldsOk, points, ids);
    assert AllOk(fieldsOk, points) <==> fieldsOk(points[0]) && fieldsOk(points[1]);
    assert Climbs(ids) <==> ids[0] == 0 && (ids[1] == ids[0] || ids[1] == ids[0] + 1);
  }

  // ---------- The walk ----------

  /** lpit_check_type_0: a structure that is too short ends the walk. */
  method CheckType0(mem: nat -> Byte, length: uint32, data: nat, passed: bool, fieldsOk: nat -> bool)
    returns (length': uint32, data': nat, passed': bool)
    requires Word(mem, data + 4) <= length as nat
    ensures var size := Word(mem, data + 4);
            if size < C_STATE then length' == 0 && data' == data && !passed'
            else length' as nat == length as nat - size && data' == data + size && (passed' <==> passed && fieldsOk(data))
  {
    var size := Word(mem, data + 4);
    if size < C_STATE {
      return 0, data, false;
    }
    return length - size as uint32, data + size, passed && fieldsOk(data);
  }

  ghost predicate Walked(mem: nat -> Byte, fieldsOk: nat -> bool, length: uint32, data: nat, uid: nat, initId: nat, passed: bool,
                         points: seq<nat>, ids: seq<nat>)
  {
    && data + length as nat == Limit(mem)
    && Path(Step(mem), points) && points[0] == LPIT_HEADER && points[|points| - 1] == data
    && IdsAre(mem, points, ids)
    && (passed <==> AllOk(fieldsOk, points) && Climbs(ids))
    && uid == (if ids == [] then 0 else ids[|ids| - 1])
    && (passed ==> initId == if ids == [] then 0 else 1)
  }

  lemma WalkedOn(mem: nat -> Byte, fieldsOk: nat -> bool, length: uint32, data: nat, uid: nat, initId: nat, passed: bool,
                 points: seq<nat>, ids: seq<nat>, length': uint32, data': nat, initId': nat, passed': bool)
    requires Walked(mem, fieldsOk, length, data, uid, initId, passed, points, ids) && length > 8
    requires var id, size := Id(mem, data), Word(mem, data + 4);
             && Word(mem, data) == 0 && C_STATE <= size <= length as nat
             && length' as nat == length as nat - size && data' == data + size
             && initId' == (if initId == 0 && id != 0 then initId else 1)
             && (passed' <==> passed && fieldsOk(data) && !(initId == 0 && id != 0) && !(uid > id || id - uid > 1))
    ensures Walked(mem, fieldsOk, length', data', Id(mem, data), initId', passed', points + [data'], ids + [Id(mem, data)])
  {
    assert Structure(mem, data, data');
    PathMore(Step(mem), points, data');
    var more, ids' := points + [data'], ids + [Id(mem, data)];
    assert forall i :: 0 <= i < |points| ==> more[i] == points[i];
    assert AllOk(fieldsOk, more) <==> AllOk(fieldsOk, points) && fieldsOk(points[|points| - 1]);
    ClimbsMore(ids, Id(mem, data));
  }

  lemma ClimbsMore(ids: seq<nat>, id: nat)
    ensures Climbs(ids + [id])
            <==> Climbs(ids) && if ids == [] then id == 0 else id == ids[|ids| - 1] || id == ids[|ids| - 1] + 1
  {
    var more := ids + [id];
    assert forall i :: 0 <= i < |ids| ==> more[i] == ids[i];
    if ids != [] && Climbs(more) {
      var i := |ids| - 1;
      assert more[i + 1] == more[i] || more[i + 1] == more[i] + 1;
    }
  }

  /** Structures reach to at most eight bytes before the end, their fields are right, and their IDs climb. */
  ghost predicate Sound(mem: nat -> Byte, fieldsOk: nat -> bool, points: seq<nat>, ids: seq<nat>) {
    Run(Step(mem), AtEnd(mem), LPIT_HEADER, points) && AllOk(fieldsOk, points) && IdsAre(mem, points, ids) && Climbs(ids)
  }

  lemma StructuresAreSteps(mem: nat -> Byte)
    ensures Steps(Step(mem), AtEnd(mem))
  {
    forall a, b, c | Step(mem)(a, b) && Step(mem)(a, c) ensures b == c {
      assert Structure(mem, a, b) && Structure(mem, a, c);
    }
  }

  lemma OnlyRun(mem: nat -> Byte, fieldsOk: nat -> bool, points: seq<nat>, ids: seq<nat>)
    requires Run(Step(mem), AtEnd(mem), LPIT_HEADER, points) && IdsAre(mem, points, ids)
    ensures (exists run, theirs :: Sound(mem, fieldsOk, run, theirs)) <==> AllOk(fieldsOk, points) && Climbs(ids)
  {
    StructuresAreSteps(mem);
    forall run, theirs | Sound(mem, fieldsOk, run, theirs) ensures run == points && theirs == ids {
      RunOnce(Step(mem), AtEnd(mem), LPIT_HEADER, run, points);
    }
    assert Sound(mem, fieldsOk, points, ids) <==> AllOk(fieldsOk, points) && Climbs(ids);
  }

  /** A pass is reported exactly for the sound tables; ids are then the IDs in order. */
  method LpitTest1(mem: nat -> Byte, loaded: nat, fieldsOk: nat -> bool) returns (passed: bool, ghost points: seq<nat>, ghost ids: seq<nat>)
    ensures passed <==> loaded >= LPIT_HEADER && exists run, theirs :: Sound(mem, fieldsOk, run, theirs)
    ensures passed ==> Sound(mem, fieldsOk, points, ids)
    ensures Path(Step(mem), points) && points[0] == LPIT_HEADER
  {
    passed, points, ids := true, [LPIT_HEADER], [];
    if loaded < LPIT_HEADER {
      return false, points, ids;
    }
    StructuresAreSteps(mem);
    var uid: nat, initId: nat := 0, 0;
    var length := ((Word(mem, 4) - LPIT_HEADER) % WORD32) as uint32;
    var data: nat := LPIT_HEADER;
    while length > 8
      invariant Walked(mem, fieldsOk, length, data, uid, initId, passed, points, ids)
    {
      var lpiLength := Word(mem, data + 4);
      if length as nat < lpiLength {
        NoRun(mem, fieldsOk, points);
        return false, points, ids;
      }
      if Word(mem, data) == 0 {
        var id := Id(mem, data);
        var length', data', passed' := CheckType0(mem, length, data, passed, fieldsOk);
        if lpiLength < C_STATE {
          NoRun(mem, fieldsOk, points);
        }
        var initId' := initId;
        if initId == 0 && id != 0 {
          passed' := false;
        } else {
          initId' := 1;
        }
        if uid > id || id - uid > 1 {
          passed' := false;
        }
        if lpiLength < C_STATE {
          return false, points, ids;
        }
        WalkedOn(mem, fieldsOk, length, data, uid, initId, passed, points, ids, length', data', initId', passed');
        points, ids := points + [data'], ids + [id];
        length, data, passed, initId, uid := length', data', passed', initId', id;
      } else {
        NoRun(mem, fieldsOk, points);
        return false, points, ids;
      }
    }
    OnlyRun(mem, fieldsOk, points, ids);
  }

  lemma NoRun(mem: nat -> Byte, fieldsOk: nat -> bool, points: seq<nat>)
    requires Path(Step(mem), points) && points[0] == LPIT_HEADER
    requires var end := points[|points| - 1]; end + 8 < Limit(mem) && forall b :: !Structure(mem, end, b)
    ensures !exists run, theirs :: Sound(mem, fieldsOk, run, theirs)
  {
    StructuresAreSteps(mem);
    DeadEnd(Step(mem), AtEnd(mem), points);
  }
}
