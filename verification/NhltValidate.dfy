/**
 The NHLT validator (src/acpi/nhlt/nhlt.c) in its own form: 32-bit offsets advanced through
 nested loops.  uint32 is a bounded type, so each method's proof includes that no offset
 computation wraps around and that every read lies inside the table.
 */
module NhltValidate {
  import opened Bytes
  import opened Nhlt
  import opened NhltWalk

  method ValidateFormatConfigs(data: seq<Byte>, offset: uint32, limit: uint32, passed: bool, visited: seq<Visit>)
    returns (ok: bool, end: uint32, passed': bool, visits: seq<Visit>)
    requires offset <= limit && limit as nat <= |data|
    ensures var w := FormatsWalk(data, limit as nat, offset as nat, visited);
            && (ok <==> w.At?)
            && (passed' <==> passed && ok)
            && (ok ==> end as nat == w.off && visits == w.visits)
  {
    end, passed', visits := offset, passed, visited;
    if end > limit || 1 > limit - end {
      return false, end, false, visits;
    }
    var count := data[end];
    end := end + 1;
    ghost var start := end as nat;
    var i := 0;
    while i < count
      invariant i <= count && end <= limit && passed' == passed
      invariant FormatLoop(data, limit as nat, count, start, visited)
             == FormatLoop(data, limit as nat, count - i, end as nat, visits)
    {
      if end > limit || WAVE_FORMAT_EXT as uint32 > limit - end {
        return false, end, false, visits;
      }
      visits := visits + [Visit(WaveFormat, end as nat, end as nat + WAVE_FORMAT_EXT)];
      end := end + WAVE_FORMAT_EXT as uint32;
      if end > limit || 4 > limit - end {
        return false, end, false, visits;
      }
      var configSize := ReadLe32(data, end);
      end := end + 4;
      if end > limit || configSize > limit - end {
        return false, end, false, visits;
      }
      visits := visits + [Visit(ConfigData, end as nat, end as nat + configSize as nat)];
      end := end + configSize;
      i := i + 1;
    }
    ok := true;
  }

  method ValidateEndpoint(data: seq<Byte>, endpointOffset: uint32, tableLength: uint32, passed: bool, visited: seq<Visit>)
    returns (ok: bool, end: uint32, passed': bool, visits: seq<Visit>)
    requires endpointOffset <= tableLength && tableLength as nat <= |data|
    ensures var w := EndpointWalk(data, tableLength as nat, endpointOffset as nat, visited);
            && (ok <==> w.At?)
            && (passed' <==> passed && if ok then w.passed else !w.failed)
            && (ok ==> end as nat == w.off && visits == w.visits)
  {
    end, passed', visits := endpointOffset, passed, visited;
    if endpointOffset > tableLength || EP_DESCRIPTOR as uint32 > tableLength - endpointOffset {
      return false, end, passed', visits;
    }
    var len := ReadLe32(data, endpointOffset);
    if len < EP_DESCRIPTOR as uint32 {
      return false, end, false, visits;
    }
    if endpointOffset > tableLength || len > tableLength - endpointOffset {
      return false, end, false, visits;
    }
    var linkType, deviceType, direction := data[endpointOffset + 4], data[endpointOffset + 16], data[endpointOffset + 17];
    if linkType > 6 {
      passed' := false;
    }
    if direction > 1 {
      passed' := false;
    }
    if linkType == 2 && deviceType > 1 {
      passed' := false;
    }
    if linkType == 3 && deviceType > 4 {
      passed' := false;
    }
    var endpointEnd := endpointOffset + len;
    var offset := endpointOffset + EP_DESCRIPTOR as uint32;
    visits := visits + [Visit(Descriptor, endpointOffset as nat, endpointEnd as nat)];
    ok, passed', visits := ValidatePayload(data, offset, endpointEnd, passed', visits);
    end := endpointEnd;
  }

  /** The part of the endpoint behind its descriptor. */
  method ValidatePayload(data: seq<Byte>, payload: uint32, endpointEnd: uint32, passed: bool, visited: seq<Visit>)
    returns (ok: bool, passed': bool, visits: seq<Visit>)
    requires payload <= endpointEnd && endpointEnd as nat <= |data|
    ensures var w := PayloadWalk(data, endpointEnd as nat, payload as nat, visited);
            && (ok <==> w.At?)
            && (passed' <==> passed && ok)
            && (ok ==> visits == w.visits)
  {
    var offset := payload;
    visits := visited;
    if offset > endpointEnd || 4 > endpointEnd - offset {
      return false, false, visits;
    }
    var deviceConfigSize := ReadLe32(data, offset);
    offset := offset + 4;
    if offset > endpointEnd || deviceConfigSize > endpointEnd - offset {
      return false, false, visits;
    }
    visits := visits + [Visit(ConfigData, offset as nat, offset as nat + deviceConfigSize as nat)];
    offset := offset + deviceConfigSize;
    ok, offset, passed', visits := ValidateFormatConfigs(data, offset, endpointEnd, passed, visits);
    if !ok {
      return;
    }
    if offset < endpointEnd {
      var count := data[offset];
      offset := offset + 1;
      ghost var start, before := offset as nat, visits;
      var i := 0;
      while i < count
        invariant i <= count && offset <= endpointEnd
        invariant InfoLoop(endpointEnd as nat, count, start, before)
               == InfoLoop(endpointEnd as nat, count - i, offset as nat, visits)
      {
        if DEVICE_INFO as uint32 > endpointEnd - offset {
          return false, false, visits;
        }
        visits := visits + [Visit(DeviceInfo, offset as nat, offset as nat + DEVICE_INFO)];
        offset := offset + DEVICE_INFO as uint32;
        i := i + 1;
      }
    }
  }

  /**
   The length is taken modulo 2^32.  A pass is reported exactly for the tables of the grammar;
   the bytes stepped over are the pieces of the table; nothing at all is reported exactly when,
   behind legal endpoints, the descriptor of the next endpoint is cut off.
   */
  method NhltTest1(data: seq<Byte>) returns (passReported: bool, failed: bool, visits: seq<Visit>)
    ensures var s := data[..|data| % WORD32];
            && (passReported <==> InGrammar(s))
            && (passReported ==> ParseTable(s).Some? && TableOk(ParseTable(s).value)
                                 && Shows(s, visits, TablePieces(ParseTable(s).value)))
            && !(passReported && failed)
            && (!passReported && !failed <==> |s| > TABLE_HEADER && Cut(s[TABLE_HEADER + 1..], s[TABLE_HEADER]))
  {
    var tableLength: uint32 := (|data| % WORD32) as uint32;
    var table := data[..tableLength];
    passReported, failed, visits := Walk(table, tableLength);
    WalkFollowsGrammar(table);
    AcceptsExactlyGrammar(table);
    SilentExactly(table);
    if TableWalk(table).At? {
      VisitsAreThePieces(table);
    }
  }

  /** The test on the bytes it can reach. */
  method Walk(table: seq<Byte>, tableLength: uint32) returns (passReported: bool, failed: bool, visits: seq<Visit>)
    requires tableLength as nat == |table|
    ensures var w := TableWalk(table);
            && (passReported <==> w.At? && w.passed)
            && (failed <==> if w.At? then !w.passed else w.failed)
            && (w.At? ==> visits == w.visits)
  {
    if tableLength < (TABLE_HEADER + 1) as uint32 {
      return false, true, [];
    }
    var ok, offset, passed;
    ok, offset, passed, visits := ValidateEndpoints(table, tableLength);
    if !ok {
      return false, !passed, visits;
    }
    if offset < tableLength {
      if 4 > tableLength - offset {
        return false, true, visits;
      }
      var configSize := ReadLe32(table, offset);
      offset := offset + 4;
      if configSize > tableLength - offset {
        return false, true, visits;
      }
      visits := visits + [Visit(ConfigData, offset as nat, offset as nat + configSize as nat)];
      offset := offset + configSize;
    }
    return passed, !passed, visits;
  }

  /** The endpoint loop of the test. */
  method ValidateEndpoints(table: seq<Byte>, tableLength: uint32)
    returns (ok: bool, offset: uint32, passed: bool, visits: seq<Visit>)
    requires tableLength as nat == |table| > TABLE_HEADER
    ensures var w := EndpointLoop(table, |table|, table[TABLE_HEADER], TABLE_HEADER + 1, [], true);
            && (ok <==> w.At?)
            && (passed <==> if ok then w.passed else !w.failed)
            && (ok ==> offset as nat == w.off && visits == w.visits)
  {
    passed, visits := true, [];
    offset := (TABLE_HEADER + 1) as uint32;
    var count := table[TABLE_HEADER];
    ghost var all := EndpointLoop(table, |table|, count, TABLE_HEADER + 1, [], true);
    ghost var n: nat := count;
    var i := 0;
    while i < count
      invariant i + n == count && offset <= tableLength
      invariant all == EndpointLoop(table, |table|, n, offset as nat, visits, passed)
    {
      ghost var before := n;
      n := n - 1;
      ok, offset, passed, visits := ValidateNext(table, tableLength, offset, passed, visits, before, n);
      if !ok {
        return;
      }
      i := i + 1;
    }
    ok := true;
  }

  /** One round of the loop; n' endpoints are left after it. */
  method ValidateNext(table: seq<Byte>, tableLength: uint32, offset: uint32, passed: bool, visited: seq<Visit>,
                      ghost n: nat, ghost n': nat)
    returns (ok: bool, end: uint32, passed': bool, visits: seq<Visit>)
    requires n == n' + 1 && offset <= tableLength && tableLength as nat == |table|
    ensures var before := EndpointLoop(table, |table|, n, offset as nat, visited, passed);
            if ok then end <= tableLength && before == EndpointLoop(table, |table|, n', end as nat, visits, passed')
            else before == Stuck(!passed')
  {
    ok, end, passed', visits := ValidateEndpoint(table, offset, tableLength, passed, visited);
    ghost var w := EndpointWalk(table, |table|, offset as nat, visited);
    LoopStep(table, |table|, n, offset as nat, visited, passed, w, n', passed');
  }
}
