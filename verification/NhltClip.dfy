/**
 What the NHLT dumper shows (src/acpi/nhltdump/nhltdump.c): its loops as functions, and what they
 show said without them.  Of a table that is cut off, the dump is that of the whole table cut off
 at the same place.
 */
module NhltClip {
  import opened Bytes
  import opened Nhlt
  import opened NhltWalk
  import opened Wrappers

  function Min(a: nat, b: nat): nat { if a < b then a else b }

  // ---------- The dump as functions ----------

  /** Where the dump goes on, and what it has shown. */
  datatype Dumped = Dumped(off: nat, visits: seq<Visit>)

  function ConfigDump(data: seq<Byte>, limit: nat, off: nat, visits: seq<Visit>): (d: Dumped)
    requires off <= limit <= |data|
    ensures off <= d.off <= limit
  {
    if limit - off < 4 then Dumped(limit, visits)
    else
      var end := Min(off + 4 + Le32(data[off..]), limit);
      Dumped(end, visits + [Visit(ConfigData, off + 4, end)])
  }

  function FormatDump(data: seq<Byte>, limit: nat, n: nat, off: nat, visits: seq<Visit>): (d: Dumped)
    requires off <= limit <= |data|
    ensures off <= d.off <= limit
    decreases n
  {
    if n == 0 then Dumped(off, visits)
    else if limit - off < WAVE_FORMAT_EXT then Dumped(limit, visits)
    else
      var mid := off + WAVE_FORMAT_EXT;
      var d := ConfigDump(data, limit, mid, visits + [Visit(WaveFormat, off, mid)]);
      FormatDump(data, limit, n - 1, d.off, d.visits)
  }

  function FormatsDump(data: seq<Byte>, limit: nat, off: nat, visits: seq<Visit>): (d: Dumped)
    requires off <= limit <= |data|
    ensures off <= d.off <= limit
  {
    if off == limit then Dumped(limit, visits) else FormatDump(data, limit, data[off], off + 1, visits)
  }

  function InfoDump(limit: nat, n: nat, off: nat, visits: seq<Visit>): (d: Dumped)
    requires off <= limit
    ensures off <= d.off <= limit
    decreases n
  {
    if n == 0 then Dumped(off, visits)
    else if limit - off < DEVICE_INFO then Dumped(limit, visits)
    else InfoDump(limit, n - 1, off + DEVICE_INFO, visits + [Visit(DeviceInfo, off, off + DEVICE_INFO)])
  }

  function DevicesDump(data: seq<Byte>, limit: nat, off: nat, visits: seq<Visit>): (d: Dumped)
    requires off <= limit <= |data|
    ensures off <= d.off <= limit
  {
    if off == limit then Dumped(off, visits) else InfoDump(limit, data[off], off + 1, visits)
  }

  /** The payload of an endpoint that ends at limit. */
  function PayloadDump(data: seq<Byte>, limit: nat, off: nat, visits: seq<Visit>): (d: Dumped)
    requires off <= limit <= |data|
    ensures off <= d.off <= limit
  {
    var c := ConfigDump(data, limit, off, visits);
    var f := FormatsDump(data, limit, c.off, c.visits);
    if f.off < limit then DevicesDump(data, limit, f.off, f.visits) else f
  }

  /** The dump goes on with an endpoint at off. */
  predicate Dumpable(data: seq<Byte>, off: nat) {
    off + EP_DESCRIPTOR <= |data| && Le32(data[off..]) >= EP_DESCRIPTOR
  }

  function EndpointEnd(data: seq<Byte>, off: nat): (end: nat)
    requires Dumpable(data, off)
    ensures off + EP_DESCRIPTOR <= end <= |data|
  {
    Min(off + Le32(data[off..]), |data|)
  }

  function EndpointDump(data: seq<Byte>, off: nat, visits: seq<Visit>): seq<Visit>
    requires Dumpable(data, off)
  {
    var end := EndpointEnd(data, off);
    PayloadDump(data, end, off + EP_DESCRIPTOR, visits + [Visit(Descriptor, off, end)]).visits
  }

  /** The endpoint loop; stopped tells that it does not go through. */
  datatype Looped = Looped(stopped: bool, off: nat, visits: seq<Visit>)

  function LoopDump(data: seq<Byte>, n: nat, off: nat, visits: seq<Visit>): (l: Looped)
    requires off <= |data|
    ensures off <= l.off <= |data|
    decreases n
  {
    if n == 0 then Looped(false, off, visits)
    else if !Dumpable(data, off) then Looped(true, off, visits)
    else LoopDump(data, n - 1, EndpointEnd(data, off), EndpointDump(data, off, visits))
  }

  function TableDump(data: seq<Byte>): seq<Visit> {
    if |data| <= TABLE_HEADER then []
    else
      var l := LoopDump(data, data[TABLE_HEADER], TABLE_HEADER + 1, []);
      if l.stopped || l.off == |data| then l.visits else ConfigDump(data, |data|, l.off, l.visits).visits
  }

  // ---------- Cutting off ----------

  /** Where the part of a range ends without which it is not shown: the descriptor of an endpoint, a
      wave format, a device, or the size in front of a config. */
  function Fixed(v: Visit): nat {
    match v.kind
    case Descriptor => v.lo + 19
    case WaveFormat => v.lo + 40
    case DeviceInfo => v.lo + 18
    case ConfigData => v.lo
  }

  /** The ranges whose fixed part ends at or below k, cut off at k. */
  function Clip(visits: seq<Visit>, k: nat): seq<Visit> {
    if visits == [] then []
    else
      var v := visits[|visits| - 1];
      Clip(visits[..|visits| - 1], k) + if Fixed(v) <= k then [v.(hi := Min(v.hi, k))] else []
  }

  lemma ClipMore(visits: seq<Visit>, v: Visit, k: nat)
    ensures Fixed(v) <= k ==> Clip(visits + [v], k) == Clip(visits, k) + [v.(hi := Min(v.hi, k))]
    ensures Fixed(v) > k ==> Clip(visits + [v], k) == Clip(visits, k)
  {
    assert (visits + [v])[..|visits|] == visits;
    assert Clip(visits, k) + [] == Clip(visits, k);
  }

  /** The same bytes up to k. */
  ghost predicate Agree(s: seq<Byte>, t: seq<Byte>, k: nat) {
    k <= |s| && k <= |t| && forall i :: 0 <= i < k ==> s[i] == t[i]
  }

  lemma SameWord(s: seq<Byte>, t: seq<Byte>, k: nat, off: nat)
    requires Agree(s, t, k) && off + 4 <= k
    ensures Le32(s[off..]) == Le32(t[off..])
  {
  }

  lemma ConfigClipped(s: seq<Byte>, t: seq<Byte>, k: nat, limit: nat, off: nat, visits: seq<Visit>)
    requires Agree(s, t, k) && off <= limit <= |t| && ConfigEnd(t, limit, off).Some?
    ensures var end := ConfigEnd(t, limit, off).value;
            ConfigDump(s, Min(limit, k), Min(off, k), Clip(visits, k))
            == Dumped(Min(end, k), Clip(visits + [Visit(ConfigData, off + 4, end)], k))
  {
    var end := ConfigEnd(t, limit, off).value;
    ClipMore(visits, Visit(ConfigData, off + 4, end), k);
    if off + 4 <= k {
      SameWord(s, t, k, off);
    }
  }

  /** Nothing that starts at or behind k is shown. */
  lemma {:induction false} FormatsBehind(t: seq<Byte>, k: nat, limit: nat, n: nat, off: nat, visits: seq<Visit>)
    requires k <= off <= limit <= |t| && FormatLoop(t, limit, n, off, visits).At?
    ensures Clip(FormatLoop(t, limit, n, off, visits).visits, k) == Clip(visits, k)
    decreases n
  {
    if n > 0 {
      var mid := off + WAVE_FORMAT_EXT;
      var end := ConfigEnd(t, limit, mid).value;
      var v, w := Visit(WaveFormat, off, mid), Visit(ConfigData, mid + 4, end);
      ClipMore(visits, v, k);
      ClipMore(visits + [v], w, k);
      FormatsBehind(t, k, limit, n - 1, end, visits + [v] + [w]);
    }
  }

  lemma {:induction false} InfosBehind(k: nat, limit: nat, n: nat, off: nat, visits: seq<Visit>)
    requires k <= off <= limit && InfoLoop(limit, n, off, visits).At?
    ensures Clip(InfoLoop(limit, n, off, visits).visits, k) == Clip(visits, k)
    decreases n
  {
    if n > 0 {
      var v := Visit(DeviceInfo, off, off + DEVICE_INFO);
      ClipMore(visits, v, k);
      InfosBehind(k, limit, n - 1, off + DEVICE_INFO, visits + [v]);
    }
  }

  /** What the walk shows from off on is shown, cut off at k, of any bytes that agree up to k. */
  ghost predicate Clipped(d: Dumped, w: Walk, k: nat) {
    w.At? ==> d == Dumped(Min(w.off, k), Clip(w.visits, k))
  }

  lemma {:induction false} FormatClipped(s: seq<Byte>, t: seq<Byte>, k: nat, limit: nat, n: nat, off: nat, visits: seq<Visit>)
    requires Agree(s, t, k) && off <= limit <= |t|
    ensures Clipped(FormatDump(s, Min(limit, k), n, Min(off, k), Clip(visits, k)), FormatLoop(t, limit, n, off, visits), k)
    decreases n
  {
    if n > 0 && FormatLoop(t, limit, n, off, visits).At? {
      var mid := off + WAVE_FORMAT_EXT;
      var end := ConfigEnd(t, limit, mid).value;
      var v, w := Visit(WaveFormat, off, mid), Visit(ConfigData, mid + 4, end);
      ClipMore(visits, v, k);
      if mid <= k {
        ConfigClipped(s, t, k, limit, mid, visits + [v]);
        FormatClipped(s, t, k, limit, n - 1, end, visits + [v] + [w]);
      } else {
        ClipMore(visits + [v], w, k);
        FormatsBehind(t, k, limit, n - 1, end, visits + [v] + [w]);
      }
    }
  }

  lemma FormatsClipped(s: seq<Byte>, t: seq<Byte>, k: nat, limit: nat, off: nat, visits: seq<Visit>)
    requires Agree(s, t, k) && off <= limit <= |t|
    ensures Clipped(FormatsDump(s, Min(limit, k), Min(off, k), Clip(visits, k)), FormatsWalk(t, limit, off, visits), k)
  {
    if off < limit && FormatsWalk(t, limit, off, visits).At? {
      if off < k {
        FormatClipped(s, t, k, limit, t[off], off + 1, visits);
      } else {
        FormatsBehind(t, k, limit, t[off], off + 1, visits);
      }
    }
  }

  lemma {:induction false} InfoClipped(k: nat, limit: nat, n: nat, off: nat, visits: seq<Visit>)
    requires off <= limit
    ensures Clipped(InfoDump(Min(limit, k), n, Min(off, k), Clip(visits, k)), InfoLoop(limit, n, off, visits), k)
    decreases n
  {
    if n > 0 && off + DEVICE_INFO <= limit {
      var n', end, cut := n - 1, off + DEVICE_INFO, Min(limit, k);
      var v := Visit(DeviceInfo, off, end);
      var visits' := visits + [v];
      assert InfoLoop(limit, n, off, visits) == InfoLoop(limit, n', end, visits');
      ClipMore(visits, v, k);
      if end <= k {
        InfoClipped(k, limit, n', end, visits');
        InfoDumps(cut, n, off, Clip(visits, k), n', end, Clip(visits', k), v);
        assert Min(off, k) == off && Min(end, k) == end;
      } else if InfoLoop(limit, n, off, visits).At? {
        InfosBehind(k, limit, n', end, visits');
      }
    }
  }

  lemma InfoDumps(limit: nat, n: nat, off: nat, visits: seq<Visit>, n': nat, end: nat, visits': seq<Visit>, v: Visit)
    requires n == n' + 1 && end == off + DEVICE_INFO <= limit && v == Visit(DeviceInfo, off, end) && visits' == visits + [v]
    ensures InfoDump(limit, n, off, visits) == InfoDump(limit, n', end, visits')
  {
  }

  lemma PayloadClipped(s: seq<Byte>, t: seq<Byte>, k: nat, limit: nat, off: nat, visits: seq<Visit>)
    requires Agree(s, t, k) && off <= limit <= |t| && PayloadWalk(t, limit, off, visits).At?
    ensures PayloadDump(s, Min(limit, k), Min(off, k), Clip(visits, k)).visits == Clip(PayloadWalk(t, limit, off, visits).visits, k)
  {
    var mid := ConfigEnd(t, limit, off).value;
    var formats := FormatsWalk(t, limit, mid, visits + [Visit(ConfigData, off + 4, mid)]);
    ConfigClipped(s, t, k, limit, off, visits);
    FormatsClipped(s, t, k, limit, mid, visits + [Visit(ConfigData, off + 4, mid)]);
    DevicesClipped(s, t, k, limit, formats.off, formats.visits);
  }

  /** The devices, if the dump comes to them. */
  lemma DevicesClipped(s: seq<Byte>, t: seq<Byte>, k: nat, limit: nat, off: nat, visits: seq<Visit>)
    requires Agree(s, t, k) && off <= limit <= |t| && DevicesWalk(t, limit, off, visits).At?
    ensures (if Min(off, k) < Min(limit, k) then DevicesDump(s, Min(limit, k), Min(off, k), Clip(visits, k)).visits else Clip(visits, k))
         == Clip(DevicesWalk(t, limit, off, visits).visits, k)
  {
    if off < limit {
      if off < k {
        InfoClipped(k, limit, t[off], off + 1, visits);
      } else {
        InfosBehind(k, limit, t[off], off + 1, visits);
      }
    }
  }

  lemma DevicesBehind(t: seq<Byte>, k: nat, limit: nat, off: nat, visits: seq<Visit>)
    requires k <= off <= limit <= |t| && DevicesWalk(t, limit, off, visits).At?
    ensures Clip(DevicesWalk(t, limit, off, visits).visits, k) == Clip(visits, k)
  {
    if off < limit {
      InfosBehind(k, limit, t[off], off + 1, visits);
    }
  }

  lemma PayloadBehind(t: seq<Byte>, k: nat, limit: nat, off: nat, visits: seq<Visit>)
    requires k <= off <= limit <= |t| && PayloadWalk(t, limit, off, visits).At?
    ensures Clip(PayloadWalk(t, limit, off, visits).visits, k) == Clip(visits, k)
  {
    var mid := ConfigEnd(t, limit, off).value;
    var v := Visit(ConfigData, off + 4, mid);
    var formats := FormatsWalk(t, limit, mid, visits + [v]);
    ClipMore(visits, v, k);
    FormatsBehind(t, k, limit, t[mid], mid + 1, visits + [v]);
    DevicesBehind(t, k, limit, formats.off, formats.visits);
  }

  // ---------- A table that is cut off ----------

  /** An endpoint whose descriptor is there. */
  lemma EndpointClipped(s: seq<Byte>, t: seq<Byte>, k: nat, off: nat, visits: seq<Visit>)
    requires Agree(s, t, k) && |s| == k && off + EP_DESCRIPTOR <= k && EndpointWalk(t, |t|, off, visits).At?
    ensures Dumpable(s, off) && EndpointEnd(s, off) == Min(EndpointWalk(t, |t|, off, visits).off, k)
    ensures EndpointDump(s, off, Clip(visits, k)) == Clip(EndpointWalk(t, |t|, off, visits).visits, k)
  {
    var end := off + Le32(t[off..]);
    var v := Visit(Descriptor, off, end);
    SameWord(s, t, k, off);
    ClipMore(visits, v, k);
    PayloadClipped(s, t, k, end, off + EP_DESCRIPTOR, visits + [v]);
  }

  /** Nothing is shown of an endpoint whose descriptor is not there. */
  lemma EndpointBehind(t: seq<Byte>, k: nat, off: nat, visits: seq<Visit>, w: Walk)
    requires off <= |t| && k < off + EP_DESCRIPTOR && w == EndpointWalk(t, |t|, off, visits) && w.At?
    ensures Clip(w.visits, k) == Clip(visits, k) && w.off > k
  {
    var v := Visit(Descriptor, off, w.off);
    ClipMore(visits, v, k);
    PayloadBehind(t, k, w.off, off + EP_DESCRIPTOR, visits + [v]);
  }

  lemma {:induction false} LoopBehind(t: seq<Byte>, k: nat, n: nat, off: nat, visits: seq<Visit>, passed: bool)
    requires off <= |t| && k < off + EP_DESCRIPTOR && EndpointLoop(t, |t|, n, off, visits, passed).At?
    ensures Clip(EndpointLoop(t, |t|, n, off, visits, passed).visits, k) == Clip(visits, k)
    ensures n > 0 ==> EndpointLoop(t, |t|, n, off, visits, passed).off > k
    decreases n
  {
    if n > 0 {
      var w, n' := EndpointWalk(t, |t|, off, visits), n - 1;
      var passed' := passed && w.At? && w.passed;
      EndpointBehind(t, k, off, visits, w);
      LoopBehind(t, k, n', w.off, w.visits, passed');
    }
  }

  /** The loop over what is there of a table: the same ranges cut off, and the same place if all is there. */
  ghost predicate LoopAgrees(l: Looped, w: Walk, k: nat) {
    w.At? ==> l.visits == Clip(w.visits, k) && if l.stopped then w.off > k else l.off == Min(w.off, k)
  }

  lemma {:induction false} LoopClipped(s: seq<Byte>, t: seq<Byte>, k: nat, n: nat, off: nat, visits: seq<Visit>, passed: bool)
    requires Agree(s, t, k) && |s| == k && off <= |t|
    ensures LoopAgrees(LoopDump(s, n, Min(off, k), Clip(visits, k)), EndpointLoop(t, |t|, n, off, visits, passed), k)
    decreases n
  {
    if n > 0 && EndpointLoop(t, |t|, n, off, visits, passed).At? {
      var w, n' := EndpointWalk(t, |t|, off, visits), n - 1;
      var passed' := passed && w.At? && w.passed;
      LoopStep(t, |t|, n, off, visits, passed, w, n', passed');
      if off + EP_DESCRIPTOR <= k {
        var end, shown := Min(w.off, k), Clip(w.visits, k);
        EndpointClipped(s, t, k, off, visits);
        LoopClipped(s, t, k, n', w.off, w.visits, passed');
        LoopDumps(s, n, off, Clip(visits, k), n', end, shown);
        assert Min(off, k) == off;
      } else {
        LoopStops(s, t, k, n, off, visits, passed);
      }
    }
  }

  lemma LoopStops(s: seq<Byte>, t: seq<Byte>, k: nat, n: nat, off: nat, visits: seq<Visit>, passed: bool)
    requires |s| == k && off <= |t| && k < off + EP_DESCRIPTOR && n > 0 && EndpointLoop(t, |t|, n, off, visits, passed).At?
    ensures LoopAgrees(LoopDump(s, n, Min(off, k), Clip(visits, k)), EndpointLoop(t, |t|, n, off, visits, passed), k)
  {
    LoopBehind(t, k, n, off, visits, passed);
    assert !Dumpable(s, Min(off, k));
  }

  lemma LoopDumps(s: seq<Byte>, n: nat, off: nat, visits: seq<Visit>, n': nat, end: nat, visits': seq<Visit>)
    requires n == n' + 1 && off <= |s| && Dumpable(s, off) && end == EndpointEnd(s, off) && visits' == EndpointDump(s, off, visits)
    ensures LoopDump(s, n, off, visits) == LoopDump(s, n', end, visits')
  {
  }

  /** The config behind the endpoints. */
  lemma OedClipped(s: seq<Byte>, t: seq<Byte>, k: nat, l: Looped, w: Walk)
    requires Agree(s, t, k) && |s| == k && w.At? && w.off <= |t| && l.off <= |s| && LoopAgrees(l, w, k) && OedWalk(t, w).At?
    ensures (if l.stopped || l.off == |s| then l.visits else ConfigDump(s, |s|, l.off, l.visits).visits)
         == Clip(OedWalk(t, w).visits, k)
  {
    if w.off < |t| {
      var end := ConfigEnd(t, |t|, w.off).value;
      ClipMore(w.visits, Visit(ConfigData, w.off + 4, end), k);
      ConfigClipped(s, t, k, |t|, w.off, w.visits);
    }
  }

  /** Of every table that parses: if it is cut off at k, exactly the ranges of the whole table whose
      fixed part is there are shown, cut off at k. */
  lemma TableClipped(t: seq<Byte>, k: nat)
    requires ParseTable(t).Some? && k <= |t|
    ensures TableWalk(t).At? && TableDump(t[..k]) == Clip(TableWalk(t).visits, k)
  {
    WalkFollowsGrammar(t);
    var s, n, first := t[..k], t[TABLE_HEADER], TABLE_HEADER + 1;
    var w := EndpointLoop(t, |t|, n, first, [], true);
    if k <= TABLE_HEADER {
      LoopBehind(t, k, n, first, [], true);
      if w.off < |t| {
        ClipMore(w.visits, Visit(ConfigData, w.off + 4, ConfigEnd(t, |t|, w.off).value), k);
      }
    } else {
      LoopClipped(s, t, k, n, first, [], true);
      OedClipped(s, t, k, LoopDump(s, n, first, []), w);
    }
  }

  // ---------- Any table ----------

  // What was shown before stays in front.

  lemma {:induction false} FormatAppends(data: seq<Byte>, limit: nat, n: nat, off: nat, a: seq<Visit>, b: seq<Visit>)
    requires off <= limit <= |data|
    ensures var d := FormatDump(data, limit, n, off, b);
            FormatDump(data, limit, n, off, a + b) == Dumped(d.off, a + d.visits)
    decreases n
  {
    if n > 0 && off + WAVE_FORMAT_EXT <= limit {
      var mid := off + WAVE_FORMAT_EXT;
      var v := [Visit(WaveFormat, off, mid)];
      Assoc(a, b, v);
      ConfigAppends(data, limit, mid, a, b + v);
      var c := ConfigDump(data, limit, mid, b + v);
      FormatAppends(data, limit, n - 1, c.off, a, c.visits);
    }
  }

  lemma Assoc(a: seq<Visit>, b: seq<Visit>, c: seq<Visit>)
    ensures (a + b) + c == a + (b + c)
  {
  }

  lemma ConfigAppends(data: seq<Byte>, limit: nat, off: nat, a: seq<Visit>, b: seq<Visit>)
    requires off <= limit <= |data|
    ensures var d := ConfigDump(data, limit, off, b);
            ConfigDump(data, limit, off, a + b) == Dumped(d.off, a + d.visits)
  {
    if off + 4 <= limit {
      Assoc(a, b, [Visit(ConfigData, off + 4, Min(off + 4 + Le32(data[off..]), limit))]);
    }
  }

  lemma {:induction false} InfoAppends(limit: nat, n: nat, off: nat, a: seq<Visit>, b: seq<Visit>)
    requires off <= limit
    ensures var d := InfoDump(limit, n, off, b);
            InfoDump(limit, n, off, a + b) == Dumped(d.off, a + d.visits)
    decreases n
  {
    if n > 0 && off + DEVICE_INFO <= limit {
      var v := [Visit(DeviceInfo, off, off + DEVICE_INFO)];
      Assoc(a, b, v);
      InfoAppends(limit, n - 1, off + DEVICE_INFO, a, b + v);
    }
  }

  lemma PayloadAppends(data: seq<Byte>, limit: nat, off: nat, a: seq<Visit>, b: seq<Visit>)
    requires off <= limit <= |data|
    ensures PayloadDump(data, limit, off, a + b).visits == a + PayloadDump(data, limit, off, b).visits
  {
    ConfigAppends(data, limit, off, a, b);
    var c := ConfigDump(data, limit, off, b);
    if c.off < limit {
      FormatAppends(data, limit, data[c.off], c.off + 1, a, c.visits);
    }
    var f := FormatsDump(data, limit, c.off, c.visits);
    if f.off < limit {
      InfoAppends(limit, data[f.off], f.off + 1, a, f.visits);
    }
  }

  // Whatever stands in an endpoint, with enough zeros behind it all of it parses.

  const ROOM := 0x200 * WORD32

  function Padded(data: seq<Byte>, end: nat): seq<Byte>
    requires end <= |data|
  {
    data[..end] + seq(ROOM, _ => 0)
  }

  lemma {:induction false} FormatsFit(t: seq<Byte>, n: nat, off: nat, visits: seq<Visit>)
    requires off + n * (WORD32 + 44) <= |t|
    ensures var w := FormatLoop(t, |t|, n, off, visits);
            w.At? && w.off <= off + n * (WORD32 + 44)
    decreases n
  {
    if n > 0 {
      var mid := off + WAVE_FORMAT_EXT;
      var end := mid + 4 + Le32(t[mid..]);
      FormatsFit(t, n - 1, end, visits + [Visit(WaveFormat, off, mid)] + [Visit(ConfigData, mid + 4, end)]);
    }
  }

  lemma {:induction false} InfosFit(limit: nat, n: nat, off: nat, visits: seq<Visit>)
    requires off + n * 18 <= limit
    ensures InfoLoop(limit, n, off, visits).At?
    decreases n
  {
    if n > 0 {
      InfosFit(limit, n - 1, off + DEVICE_INFO, visits + [Visit(DeviceInfo, off, off + DEVICE_INFO)]);
    }
  }

  lemma PaddedFits(t: seq<Byte>, off: nat, visits: seq<Visit>)
    requires off + ROOM <= |t|
    ensures PayloadWalk(t, |t|, off, visits).At?
  {
    var mid := off + 4 + Le32(t[off..]);
    var before := visits + [Visit(ConfigData, off + 4, mid)];
    FormatsFit(t, t[mid], mid + 1, before);
    var formats := FormatsWalk(t, |t|, mid, before);
    InfosFit(|t|, t[formats.off], formats.off + 1, formats.visits);
  }

  /** What is shown of the endpoint from a to b: its descriptor, and of everything that can be read
      behind it what is there. */
  function Shown(data: seq<Byte>, a: nat, b: nat): seq<Visit>
    requires a + EP_DESCRIPTOR <= b <= |data|
  {
    var t := Padded(data, b);
    PaddedFits(t, a + EP_DESCRIPTOR, [Visit(Descriptor, a, b)]);
    Clip(PayloadWalk(t, |t|, a + EP_DESCRIPTOR, [Visit(Descriptor, a, b)]).visits, b)
  }

  lemma EndpointShows(data: seq<Byte>, off: nat, visits: seq<Visit>)
    requires Dumpable(data, off)
    ensures EndpointDump(data, off, visits) == visits + Shown(data, off, EndpointEnd(data, off))
  {
    var end, at := EndpointEnd(data, off), off + EP_DESCRIPTOR;
    var t, v := Padded(data, end), Visit(Descriptor, off, end);
    PaddedFits(t, at, [v]);
    assert Agree(data, t, end);
    PayloadClipped(data, t, end, |t|, at, [v]);
    ClipMore([], v, end);
    assert [] + [v] == [v] && Clip([], end) == [];
    PayloadAppends(data, end, at, visits, [v]);
  }

  /** Where the endpoints start that are shown, and where the last one ends: each is there with its
      descriptor, and there are n of them unless the next one is not. */
  predicate Frames(data: seq<Byte>, n: nat, offs: seq<nat>)
    decreases |offs|
  {
    && offs != []
    && if n > 0 && Dumpable(data, offs[0]) then
         |offs| > 1 && offs[1] == EndpointEnd(data, offs[0]) && Frames(data, n - 1, offs[1..])
       else |offs| == 1 && offs[0] <= |data|
  }

  function AllShown(data: seq<Byte>, n: nat, offs: seq<nat>): seq<Visit>
    requires Frames(data, n, offs)
    decreases |offs|
  {
    if |offs| == 1 then [] else Shown(data, offs[0], offs[1]) + AllShown(data, n - 1, offs[1..])
  }

  lemma FramesAhead(data: seq<Byte>, n: nat, off: nat, end: nat, others: seq<nat>, offs: seq<nat>)
    requires n > 0 && Dumpable(data, off) && end == EndpointEnd(data, off) && Frames(data, n - 1, others) && others[0] == end
    requires offs == [off] + others
    ensures Frames(data, n, offs) && AllShown(data, n, offs) == Shown(data, off, end) + AllShown(data, n - 1, others)
    ensures offs[0] == off && |offs| == |others| + 1 && offs[|offs| - 1] == others[|others| - 1]
  {
    assert offs[1..] == others;
  }

  /** The endpoint loop shows the endpoints at offs behind what was shown before. */
  ghost predicate LoopShown(data: seq<Byte>, n: nat, visits: seq<Visit>, offs: seq<nat>, l: Looped) {
    && Frames(data, n, offs) && l.visits == visits + AllShown(data, n, offs)
    && (l.stopped <==> |offs| <= n) && l.off == offs[|offs| - 1]
  }

  lemma LoopShownAhead(data: seq<Byte>, n: nat, off: nat, visits: seq<Visit>, n': nat, end: nat, visits': seq<Visit>,
                       others: seq<nat>, offs: seq<nat>, l: Looped)
    requires n == n' + 1 && Dumpable(data, off) && end == EndpointEnd(data, off) && visits' == visits + Shown(data, off, end)
    requires LoopShown(data, n', visits', others, l) && others[0] == end && offs == [off] + others
    ensures LoopShown(data, n, visits, offs, l)
  {
    FramesAhead(data, n, off, end, others, offs);
    Assoc(visits, Shown(data, off, end), AllShown(data, n', others));
  }

  lemma {:induction false} LoopShows(data: seq<Byte>, n: nat, off: nat, visits: seq<Visit>) returns (offs: seq<nat>)
    requires off <= |data|
    ensures LoopShown(data, n, visits, offs, LoopDump(data, n, off, visits)) && offs[0] == off
    decreases n
  {
    if n > 0 && Dumpable(data, off) {
      var n', end, visits' := n - 1, EndpointEnd(data, off), EndpointDump(data, off, visits);
      EndpointShows(data, off, visits);
      var others := LoopShows(data, n', end, visits');
      offs := [off] + others;
      LoopDumps(data, n, off, visits, n', end, visits');
      LoopShownAhead(data, n, off, visits, n', end, visits', others, offs, LoopDump(data, n', end, visits'));
    } else {
      offs := [off];
      assert visits + [] == visits;
    }
  }

  /** What is shown of the config behind the endpoints. */
  function OedShown(data: seq<Byte>, off: nat): seq<Visit>
    requires off <= |data|
  {
    if off + 4 <= |data| then [Visit(ConfigData, off + 4, Min(off + 4 + Le32(data[off..]), |data|))] else []
  }

  lemma OedShows(data: seq<Byte>, off: nat, visits: seq<Visit>)
    requires off <= |data|
    ensures ConfigDump(data, |data|, off, visits).visits == visits + OedShown(data, off)
  {
    assert visits + [] == visits;
  }

  /** Of every table: the endpoints that are there are shown in order, and behind all of them the config. */
  lemma TableShows(data: seq<Byte>, n: nat) returns (offs: seq<nat>)
    requires |data| > TABLE_HEADER && n == data[TABLE_HEADER]
    ensures Frames(data, n, offs) && offs[0] == TABLE_HEADER + 1 && offs[|offs| - 1] <= |data|
    ensures TableDump(data) == AllShown(data, n, offs) + if |offs| == n + 1 then OedShown(data, offs[|offs| - 1]) else []
  {
    var l := LoopDump(data, n, TABLE_HEADER + 1, []);
    offs := LoopShows(data, n, TABLE_HEADER + 1, []);
    FramesLength(data, n, offs);
    var shown := AllShown(data, n, offs);
    assert [] + shown == shown && shown + [] == shown;
    OedShows(data, l.off, l.visits);
  }

  lemma {:induction false} FramesLength(data: seq<Byte>, n: nat, offs: seq<nat>)
    requires Frames(data, n, offs)
    ensures |offs| <= n + 1 && offs[|offs| - 1] <= |data|
    decreases |offs|
  {
    if |offs| > 1 {
      FramesLength(data, n - 1, offs[1..]);
    }
  }
}
