/**
 The NHLT dumper (src/acpi/nhltdump/nhltdump.c): a second walker over the same tables, which
 clips what does not fit instead of failing.  fits tells that no truncation branch was taken.
 */
module NhltDump {
  import opened Bytes
  import opened Nhlt
  import opened NhltClip
  import opened NhltWalk
  import opened Wrappers

  /** Every dumped range lies inside the table. */
  ghost predicate Inside(visits: seq<Visit>, limit: nat) {
    forall i :: 0 <= i < |visits| ==> visits[i].lo <= visits[i].hi <= limit
  }

  predicate EnsureSpace(offset: uint32, limit: uint32, need: nat) {
    var remaining: nat := if offset > limit then 0 else (limit - offset) as nat;
    remaining >= need
  }

  method DumpConfig(data: seq<Byte>, offset: uint32, limit: uint32, ghost bound: nat, visited: seq<Visit>)
    returns (end: uint32, fits: bool, visits: seq<Visit>)
    requires offset <= limit && limit as nat <= bound == |data| && Inside(visited, bound)
    ensures offset <= end <= limit && Inside(visits, bound)
    ensures ConfigEnd(data, limit as nat, offset as nat) == if fits then Some(end as nat) else None
    ensures !fits ==> end == limit
    ensures Dumped(end as nat, visits) == ConfigDump(data, limit as nat, offset as nat, visited)
  {
    if !EnsureSpace(offset, limit, 4) {
      return limit, false, visited;
    }
    fits := true;
    var capSize := ReadLe32(data, offset);
    end := offset + 4;
    var remaining := limit - end;
    if capSize > remaining {
      fits := false;
      capSize := remaining;
    }
    visits := visited + [Visit(ConfigData, end as nat, end as nat + capSize as nat)];
    end := end + capSize;
  }

  method DumpDevicesInfo(data: seq<Byte>, offset: uint32, limit: uint32, ghost bound: nat, visited: seq<Visit>)
    returns (end: uint32, fits: bool, visits: seq<Visit>)
    requires offset <= limit && limit as nat <= bound == |data| && Inside(visited, bound)
    ensures offset <= end <= limit && Inside(visits, bound)
    ensures var w := DevicesWalk(data, limit as nat, offset as nat, visited);
            && (fits <==> w.At?)
            && (if fits then visits == w.visits else end == limit)
    ensures Dumped(end as nat, visits) == DevicesDump(data, limit as nat, offset as nat, visited)
  {
    end, visits := offset, visited;
    if end >= limit {
      return end, true, visits;
    }
    if !EnsureSpace(end, limit, 1) {
      return limit, false, visits;
    }
    var count := data[end];
    end := end + 1;
    ghost var start := end as nat;
    var i := 0;
    while i < count
      invariant i <= count && offset <= end <= limit && Inside(visits, bound)
      invariant InfoLoop(limit as nat, count, start, visited) == InfoLoop(limit as nat, count - i, end as nat, visits)
      invariant InfoDump(limit as nat, count, start, visited) == InfoDump(limit as nat, count - i, end as nat, visits)
    {
      if !EnsureSpace(end, limit, DEVICE_INFO) {
        return limit, false, visits;
      }
      visits := visits + [Visit(DeviceInfo, end as nat, end as nat + DEVICE_INFO)];
      end := end + DEVICE_INFO as uint32;
      i := i + 1;
    }
    fits := true;
  }

  method DumpFormats(data: seq<Byte>, offset: uint32, epEnd: uint32, ghost bound: nat, visited: seq<Visit>)
    returns (end: uint32, fits: bool, visits: seq<Visit>)
    requires offset <= epEnd && epEnd as nat <= bound == |data| && Inside(visited, bound)
    ensures offset <= end <= epEnd && Inside(visits, bound)
    ensures var w := FormatsWalk(data, epEnd as nat, offset as nat, visited);
            && (fits <==> w.At?)
            && (if fits then visits == w.visits && end as nat == w.off else end == epEnd)
    ensures Dumped(end as nat, visits) == FormatsDump(data, epEnd as nat, offset as nat, visited)
  {
    end, visits := offset, visited;
    if !EnsureSpace(end, epEnd, 1) {
      return epEnd, false, visits;
    }
    fits := true;
    var count := data[end];
    end := end + 1;
    ghost var start := end as nat;
    ghost var shown := FormatDump(data, epEnd as nat, count, start, visited);
    ghost var all := FormatLoop(data, epEnd as nat, count, start, visited);
    ghost var n: nat := count;
    var j := 0;
    while j < count
      invariant j + n == count && offset <= end <= epEnd && Inside(visits, bound)
      invariant fits || end == epEnd
      invariant shown == FormatDump(data, epEnd as nat, n, end as nat, visits)
      invariant if fits then all == FormatLoop(data, epEnd as nat, n, end as nat, visits) else all.Stuck?
    {
      var ok, whole;
      ghost var before := n;
      n := n - 1;
      ok, end, whole, visits := DumpFormat(data, end, epEnd, bound, visits, before, n);
      fits := fits && whole;
      if !ok {
        return;
      }
      j := j + 1;
    }
  }

  /** One format and its config; n' formats are left after it. */
  method DumpFormat(data: seq<Byte>, offset: uint32, epEnd: uint32, ghost bound: nat, visited: seq<Visit>, ghost n: nat, ghost n': nat)
    returns (ok: bool, end: uint32, whole: bool, visits: seq<Visit>)
    requires n == n' + 1 && offset <= epEnd && epEnd as nat <= bound == |data| && Inside(visited, bound)
    ensures offset <= end <= epEnd && Inside(visits, bound) && (!whole ==> end == epEnd) && (whole ==> ok)
    ensures var all := FormatLoop(data, epEnd as nat, n, offset as nat, visited);
            if whole then all == FormatLoop(data, epEnd as nat, n', end as nat, visits) else all.Stuck?
    ensures FormatDump(data, epEnd as nat, n, offset as nat, visited)
         == if ok then FormatDump(data, epEnd as nat, n', end as nat, visits) else Dumped(end as nat, visits)
  {
    if !EnsureSpace(offset, epEnd, WAVE_FORMAT_EXT) {
      return false, epEnd, false, visited;
    }
    visits := visited + [Visit(WaveFormat, offset as nat, offset as nat + WAVE_FORMAT_EXT)];
    end := offset + WAVE_FORMAT_EXT as uint32;
    end, whole, visits := DumpConfig(data, end, epEnd, bound, visits);
    ok := true;
  }

  /** One round of the endpoint loop; ok is false where the dump stops. */
  method DumpEndpoint(data: seq<Byte>, offset: uint32, tableLength: uint32, visited: seq<Visit>)
    returns (ok: bool, end: uint32, fits: bool, visits: seq<Visit>)
    requires offset <= tableLength && tableLength as nat == |data| && Inside(visited, |data|)
    ensures offset <= end <= tableLength && Inside(visits, |data|)
    ensures var w := EndpointWalk(data, |data|, offset as nat, visited);
            && (fits <==> w.At?)
            && (fits ==> ok && end as nat == w.off && visits == w.visits)
    ensures ok <==> Dumpable(data, offset as nat)
    ensures end as nat == if ok then EndpointEnd(data, offset as nat) else offset as nat
    ensures visits == if ok then EndpointDump(data, offset as nat, visited) else visited
  {
    end, visits := offset, visited;
    if !EnsureSpace(offset, tableLength, EP_DESCRIPTOR) {
      return false, end, false, visits;
    }
    var len := ReadLe32(data, offset);
    if len < EP_DESCRIPTOR as uint32 {
      return false, end, false, visits;
    }
    var epEnd;
    fits := true;
    if len > tableLength - offset {
      epEnd, fits := tableLength, false;
    } else {
      epEnd := offset + len;
    }
    visits := visits + [Visit(Descriptor, offset as nat, epEnd as nat)];
    end := offset + EP_DESCRIPTOR as uint32;
    assert end <= epEnd;  // nhltdump_test1 tests for the contrary here; that branch is never taken
    ghost var before := visits;
    var whole;
    end, whole, visits := DumpPayload(data, end, epEnd, |data|, visits);
    assert whole <==> PayloadWalk(data, epEnd as nat, offset as nat + EP_DESCRIPTOR, before).At?;
    fits := fits && whole;
    return true, epEnd, fits, visits;
  }

  /** Config, formats and devices of an endpoint. */
  method DumpPayload(data: seq<Byte>, offset: uint32, epEnd: uint32, ghost bound: nat, visited: seq<Visit>)
    returns (end: uint32, fits: bool, visits: seq<Visit>)
    requires offset <= epEnd && epEnd as nat <= bound == |data| && Inside(visited, bound)
    ensures offset <= end <= epEnd && Inside(visits, bound)
    ensures var w := PayloadWalk(data, epEnd as nat, offset as nat, visited);
            && (fits <==> w.At?)
            && (fits ==> visits == w.visits)
    ensures visits == PayloadDump(data, epEnd as nat, offset as nat, visited).visits
  {
    var ok;
    end, fits, visits := DumpConfig(data, offset, epEnd, bound, visited);
    end, ok, visits := DumpFormats(data, end, epEnd, bound, visits);
    fits := fits && ok;
    if end < epEnd {
      end, ok, visits := DumpDevicesInfo(data, end, epEnd, bound, visits);
      fits := fits && ok;
    }
  }

  /**
   On any table every dumped range lies inside it, and no truncation branch is taken exactly when
   the table parses; then the ranges are those the validator steps over.
   */
  method NhltDumpTest1(data: seq<Byte>) returns (fits: bool, visits: seq<Visit>)
    ensures var s := data[..|data| % WORD32];
            && Inside(visits, |s|)
            && (fits <==> ParseTable(s).Some?)
            && (fits ==> TableWalk(s).At? && visits == TableWalk(s).visits)
            && visits == TableDump(s)
            && forall t: seq<Byte> :: ParseTable(t).Some? && |s| <= |t| && t[..|s|] == s ==>
                 TableWalk(t).At? && visits == Clip(TableWalk(t).visits, |s|)
  {
    var tableLength: uint32 := (|data| % WORD32) as uint32;
    var table := data[..tableLength];
    fits, visits := Dump(table, tableLength);
    WalkFollowsGrammar(table);
    forall t: seq<Byte> | ParseTable(t).Some? && |table| <= |t| && t[..|table|] == table
      ensures TableWalk(t).At? && visits == Clip(TableWalk(t).visits, |table|)
    {
      TableClipped(t, |table|);
    }
  }

  /** The dump of the bytes it can reach. */
  method Dump(table: seq<Byte>, tableLength: uint32) returns (fits: bool, visits: seq<Visit>)
    requires tableLength as nat == |table|
    ensures Inside(visits, |table|)
    ensures fits <==> TableWalk(table).At?
    ensures fits ==> visits == TableWalk(table).visits
    ensures visits == TableDump(table)
  {
    if (TABLE_HEADER + 1) as uint32 > tableLength {
      return false, [];
    }
    var ok, offset;
    ok, offset, fits, visits := DumpEndpoints(table, tableLength);
    ghost var l := Looped(!ok, offset as nat, visits);
    ghost var w := EndpointLoop(table, |table|, table[TABLE_HEADER], TABLE_HEADER + 1, [], true);
    if ok && offset < tableLength {
      var whole;
      offset, whole, visits := DumpConfig(table, offset, tableLength, |table|, visits);
      fits := fits && whole;
    }
    TableInParts(table, l, w);
  }

  /** The loop and then the config behind it. */
  lemma TableInParts(table: seq<Byte>, l: Looped, w: Walk)
    requires |table| > TABLE_HEADER && l == LoopDump(table, table[TABLE_HEADER], TABLE_HEADER + 1, [])
    requires w == EndpointLoop(table, |table|, table[TABLE_HEADER], TABLE_HEADER + 1, [], true)
    ensures TableDump(table) == if l.stopped || l.off == |table| then l.visits else ConfigDump(table, |table|, l.off, l.visits).visits
    ensures TableWalk(table) == OedWalk(table, w)
  {
  }

  /** The endpoint loop; ok is false where the dump stops. */
  method DumpEndpoints(table: seq<Byte>, tableLength: uint32)
    returns (ok: bool, offset: uint32, fits: bool, visits: seq<Visit>)
    requires tableLength as nat == |table| > TABLE_HEADER
    ensures offset <= tableLength && Inside(visits, |table|)
    ensures var w := EndpointLoop(table, |table|, table[TABLE_HEADER], TABLE_HEADER + 1, [], true);
            && (fits <==> w.At?)
            && (fits ==> ok && offset as nat == w.off && visits == w.visits)
    ensures Looped(!ok, offset as nat, visits) == LoopDump(table, table[TABLE_HEADER], TABLE_HEADER + 1, [])
  {
    visits, ok, fits := [], true, true;
    offset := (TABLE_HEADER + 1) as uint32;
    ghost var passed := true;
    var count := table[TABLE_HEADER];
    ghost var all := EndpointLoop(table, |table|, count, TABLE_HEADER + 1, [], true);
    ghost var shown := LoopDump(table, count, TABLE_HEADER + 1, []);
    ghost var n: nat := count;
    var i := 0;
    while i < count
      invariant i + n == count && ok && offset <= tableLength && Inside(visits, |table|)
      invariant shown == LoopDump(table, n, offset as nat, visits)
      invariant fits ==> all == EndpointLoop(table, |table|, n, offset as nat, visits, passed)
      invariant !fits ==> all.Stuck?
    {
      ghost var before := n;
      n := n - 1;
      var whole;
      ok, offset, whole, visits, passed := DumpNext(table, offset, tableLength, visits, before, n, passed);
      fits := fits && whole;
      if !ok {
        return;
      }
      i := i + 1;
    }
  }

  /** One round of the loop; n' endpoints are left after it. */
  method DumpNext(table: seq<Byte>, offset: uint32, tableLength: uint32, visited: seq<Visit>,
                  ghost n: nat, ghost n': nat, ghost passed: bool)
    returns (ok: bool, end: uint32, whole: bool, visits: seq<Visit>, ghost passed': bool)
    requires n == n' + 1 && offset <= tableLength && tableLength as nat == |table| && Inside(visited, |table|)
    ensures end <= tableLength && Inside(visits, |table|)
    ensures var before := EndpointLoop(table, |table|, n, offset as nat, visited, passed);
            if whole then ok && before == EndpointLoop(table, |table|, n', end as nat, visits, passed')
            else before.Stuck?
    ensures LoopDump(table, n, offset as nat, visited)
         == if ok then LoopDump(table, n', end as nat, visits) else Looped(true, end as nat, visits)
  {
    ok, end, whole, visits := DumpEndpoint(table, offset, tableLength, visited);
    ghost var w := EndpointWalk(table, |table|, offset as nat, visited);
    passed' := passed && if w.At? then w.passed else !w.failed;
    LoopStep(table, |table|, n, offset as nat, visited, passed, w, n', passed');
    if ok {
      LoopDumps(table, n, offset as nat, visited, n', end as nat, visits);
    }
  }
}
