/**
 The sub-ranges of an NHLT table that a walk by offsets steps over.  The walk is what the
 loops of the validator and the dumper compute; here it is tied to the grammar.
 */
module NhltWalk {
  import opened Bytes
  import opened Nhlt
  import opened Wrappers

  datatype Kind = Descriptor | ConfigData | WaveFormat | DeviceInfo

  datatype Visit = Visit(kind: Kind, lo: nat, hi: nat)

  /** Stuck: a length does not fit; failed tells whether that was reported as a failure. */
  datatype Walk = Stuck(failed: bool) | At(off: nat, visits: seq<Visit>, passed: bool)

  // ---------- Walking by offsets ----------

  /** Where the config at off ends. */
  function ConfigEnd(data: seq<Byte>, limit: nat, off: nat): (r: Option<nat>)
    requires limit <= |data|
    ensures r.Some? ==> off + 4 <= r.value <= limit
  {
    if limit < off + 4 || Le32(data[off..]) > limit - off - 4 then None
    else Some(off + 4 + Le32(data[off..]))
  }

  function FormatLoop(data: seq<Byte>, limit: nat, n: nat, off: nat, visits: seq<Visit>): (w: Walk)
    requires off <= limit <= |data|
    ensures w.Stuck? ==> w.failed
    ensures w.At? ==> w.passed && off <= w.off <= limit
    decreases n
  {
    if n == 0 then At(off, visits, true)
    else if limit - off < WAVE_FORMAT_EXT then Stuck(true)
    else
      var mid := off + WAVE_FORMAT_EXT;
      match ConfigEnd(data, limit, mid)
      case None => Stuck(true)
      case Some(end) =>
        FormatLoop(data, limit, n - 1, end, visits + [Visit(WaveFormat, off, mid)] + [Visit(ConfigData, mid + 4, end)])
  }

  function FormatsWalk(data: seq<Byte>, limit: nat, off: nat, visits: seq<Visit>): (w: Walk)
    requires off <= limit <= |data|
    ensures w.Stuck? ==> w.failed
    ensures w.At? ==> w.passed && off < w.off <= limit
  {
    if off == limit then Stuck(true) else FormatLoop(data, limit, data[off], off + 1, visits)
  }

  function InfoLoop(limit: nat, n: nat, off: nat, visits: seq<Visit>): (w: Walk)
    requires off <= limit
    ensures w.Stuck? ==> w.failed
    ensures w.At? ==> w.passed && off <= w.off <= limit
    decreases n
  {
    if n == 0 then At(off, visits, true)
    else if limit - off < DEVICE_INFO then Stuck(true)
    else InfoLoop(limit, n - 1, off + DEVICE_INFO, visits + [Visit(DeviceInfo, off, off + DEVICE_INFO)])
  }

  function DevicesWalk(data: seq<Byte>, limit: nat, off: nat, visits: seq<Visit>): (w: Walk)
    requires off <= limit <= |data|
    ensures if w.At? then w.passed else w.failed
  {
    if off == limit then At(limit, visits, true) else InfoLoop(limit, data[off], off + 1, visits)
  }

  predicate LegalAt(data: seq<Byte>, off: nat)
    requires off + EP_DESCRIPTOR <= |data|
  {
    var linkType, deviceType, direction := data[off + 4], data[off + 16], data[off + 17];
    && linkType <= 6 && direction <= 1
    && (linkType == 2 ==> deviceType <= 1)
    && (linkType == 3 ==> deviceType <= 4)
  }

  /** The payload of an endpoint that ends at end. */
  function PayloadWalk(data: seq<Byte>, end: nat, off: nat, visits: seq<Visit>): (w: Walk)
    requires off <= end <= |data|
    ensures if w.At? then w.passed else w.failed
  {
    match ConfigEnd(data, end, off)
    case None => Stuck(true)
    case Some(mid) =>
      var formats := FormatsWalk(data, end, mid, visits + [Visit(ConfigData, off + 4, mid)]);
      if formats.Stuck? then formats else DevicesWalk(data, end, formats.off, formats.visits)
  }

  function EndpointWalk(data: seq<Byte>, limit: nat, off: nat, visits: seq<Visit>): (w: Walk)
    requires off <= limit <= |data|
    ensures w.At? ==> off < w.off <= limit
  {
    if limit - off < EP_DESCRIPTOR then Stuck(false)
    else
      var len := Le32(data[off..]);
      if len < EP_DESCRIPTOR || len > limit - off then Stuck(true)
      else
        var payload := PayloadWalk(data, off + len, off + EP_DESCRIPTOR, visits + [Visit(Descriptor, off, off + len)]);
        if payload.Stuck? then payload else At(off + len, payload.visits, LegalAt(data, off))
  }

  function EndpointLoop(data: seq<Byte>, limit: nat, n: nat, off: nat, visits: seq<Visit>, passed: bool): (w: Walk)
    requires off <= limit <= |data|
    ensures w.At? ==> off <= w.off <= limit
    decreases n
  {
    if n == 0 then At(off, visits, passed)
    else
      match EndpointWalk(data, limit, off, visits)
      case Stuck(failed) => Stuck(failed || !passed)
      case At(end, visits, legal) => EndpointLoop(data, limit, n - 1, end, visits, passed && legal)
  }

  /** One round of the endpoint loop. */
  lemma LoopStep(data: seq<Byte>, limit: nat, n: nat, off: nat, visits: seq<Visit>, passed: bool, w: Walk, n': nat, passed': bool)
    requires off <= limit <= |data| && n == n' + 1 && w == EndpointWalk(data, limit, off, visits)
    requires passed' <==> passed && if w.At? then w.passed else !w.failed
    ensures EndpointLoop(data, limit, n, off, visits, passed)
         == if w.At? then EndpointLoop(data, limit, n', w.off, w.visits, passed') else Stuck(!passed')
  {
  }

  function OedWalk(data: seq<Byte>, w: Walk): Walk
    requires w.At? ==> w.off <= |data|
  {
    if w.Stuck? || w.off == |data| then w
    else
      match ConfigEnd(data, |data|, w.off)
      case None => Stuck(true)
      case Some(end) => At(end, w.visits + [Visit(ConfigData, w.off + 4, end)], w.passed)
  }

  function TableWalk(data: seq<Byte>): Walk {
    if |data| <= TABLE_HEADER then Stuck(true)
    else OedWalk(data, EndpointLoop(data, |data|, data[TABLE_HEADER], TABLE_HEADER + 1, [], true))
  }

  // ---------- The pieces of a tree ----------

  datatype Piece = Piece(kind: Kind, bytes: seq<Byte>)

  function FormatPieces(acc: seq<Piece>, fs: seq<Format>): seq<Piece>
    decreases |fs|
  {
    if fs == [] then acc
    else FormatPieces(acc + [Piece(WaveFormat, fs[0].wave)] + [Piece(ConfigData, fs[0].config)], fs[1..])
  }

  function InfoPieces(acc: seq<Piece>, infos: seq<seq<Byte>>): seq<Piece>
    decreases |infos|
  {
    if infos == [] then acc else InfoPieces(acc + [Piece(DeviceInfo, infos[0])], infos[1..])
  }

  function DevicePieces(acc: seq<Piece>, d: Devices): seq<Piece> {
    if d.NoDevices? then acc else InfoPieces(acc, d.infos)
  }

  function PayloadPieces(acc: seq<Piece>, e: Endpoint): seq<Piece> {
    DevicePieces(FormatPieces(acc + [Piece(ConfigData, e.config)], e.formats), e.devices)
  }

  /** whole is the endpoint with its length field. */
  function EndpointPieces(acc: seq<Piece>, whole: seq<Byte>, e: Endpoint): seq<Piece> {
    PayloadPieces(acc + [Piece(Descriptor, whole)], e)
  }

  function EndpointsPieces(acc: seq<Piece>, es: seq<Endpoint>): seq<Piece>
    requires EndpointsOk(es)
    decreases |es|
  {
    if es == [] then acc else EndpointsPieces(EndpointPieces(acc, EncEndpoint(es[0]), es[0]), es[1..])
  }

  /** The pieces of a table in reading order. */
  function TablePieces(t: Table): seq<Piece>
    requires TableOk(t)
  {
    OedPieces(EndpointsPieces([], t.endpoints), t.oed)
  }

  function OedPieces(acc: seq<Piece>, o: Oed): seq<Piece> {
    if o.NoOed? then acc else acc + [Piece(ConfigData, o.config)]
  }

  /** The visited sub-ranges hold the pieces, one for one. */
  predicate Shows(data: seq<Byte>, visits: seq<Visit>, pieces: seq<Piece>) {
    && |visits| == |pieces|
    && forall i :: 0 <= i < |visits| ==> ShowsOne(data, visits[i], pieces[i])
  }

  predicate ShowsOne(data: seq<Byte>, v: Visit, p: Piece) {
    v.kind == p.kind && v.lo <= v.hi <= |data| && data[v.lo..v.hi] == p.bytes
  }

  lemma ShowsMore(data: seq<Byte>, visits: seq<Visit>, pieces: seq<Piece>, v: Visit, p: Piece)
    requires Shows(data, visits, pieces) && ShowsOne(data, v, p)
    ensures Shows(data, visits + [v], pieces + [p])
  {
  }

  // ---------- The walk follows the grammar ----------

  lemma ConfigParses(data: seq<Byte>, limit: nat, off: nat)
    requires off <= limit <= |data|
    ensures var config, end := ParseConfig(data[off..limit]), ConfigEnd(data, limit, off);
            && (config.Parsed? <==> end.Some?)
            && (end.Some? ==> config.value == data[off + 4..end.value] && config.rest == data[end.value..limit])
  {
    if off + 4 <= limit {
      var size := Le32(data[off..]);
      assert Le32(data[off..limit]) == size;
      if size <= limit - off - 4 {
        SubSlice(data, off, limit, 4, 4 + size);
        DropSlice(data, off, limit, 4 + size);
      }
    }
  }

  ghost predicate FormatsAgree(data: seq<Byte>, limit: nat, pieces: seq<Piece>, parsed: Parsed<seq<Format>>, w: Walk)
    requires w.At? ==> w.off <= limit <= |data|
  {
    && (parsed.Parsed? <==> w.At?)
    && (w.At? ==> parsed.rest == data[w.off..limit] && Shows(data, w.visits, FormatPieces(pieces, parsed.value)))
  }

  lemma {:induction false} FormatsFollow(data: seq<Byte>, limit: nat, n: nat, off: nat, visits: seq<Visit>, pieces: seq<Piece>)
    requires off <= limit <= |data| && Shows(data, visits, pieces)
    ensures FormatsAgree(data, limit, pieces, ParseFormats(n, data[off..limit]), FormatLoop(data, limit, n, off, visits))
    decreases n
  {
    if n > 0 && off + WAVE_FORMAT_EXT <= limit {
      var mid, s := off + WAVE_FORMAT_EXT, data[off..limit];
      FormatConfig(data, limit, off);
      if ConfigEnd(data, limit, mid).Some? {
        var end, n' := ConfigEnd(data, limit, mid).value, n - 1;
        var v, p := Visit(WaveFormat, off, mid), Piece(WaveFormat, data[off..mid]);
        var w, q := Visit(ConfigData, mid + 4, end), Piece(ConfigData, data[mid + 4..end]);
        var visits', pieces' := visits + [v] + [w], pieces + [p] + [q];
        ShowsMore(data, visits, pieces, v, p);
        ShowsMore(data, visits + [v], pieces + [p], w, q);
        FormatsFollow(data, limit, n', end, visits', pieces');
      }
    }
  }

  /** A format at off, by its parts. */
  lemma FormatConfig(data: seq<Byte>, limit: nat, off: nat)
    requires off + WAVE_FORMAT_EXT <= limit <= |data|
    ensures var mid := off + WAVE_FORMAT_EXT;
            var config, end := ParseConfig(data[off..limit][WAVE_FORMAT_EXT..]), ConfigEnd(data, limit, mid);
            && data[off..limit][..WAVE_FORMAT_EXT] == data[off..mid]
            && (config.Parsed? <==> end.Some?)
            && (end.Some? ==> config == Parsed(data[mid + 4..end.value], data[end.value..limit]))
  {
    DropSlice(data, off, limit, WAVE_FORMAT_EXT);
    ConfigParses(data, limit, off + WAVE_FORMAT_EXT);
  }

  ghost predicate InfosAgree(data: seq<Byte>, limit: nat, n: nat, off: nat, visits: seq<Visit>, pieces: seq<Piece>)
    requires off <= limit <= |data|
  {
    var parsed, w := ParseInfos(n, data[off..limit]), InfoLoop(limit, n, off, visits);
    && (parsed.Parsed? <==> w.At?)
    && (w.At? ==> Shows(data, w.visits, InfoPieces(pieces, parsed.value)))
  }

  lemma {:induction false} InfosFollow(data: seq<Byte>, limit: nat, n: nat, off: nat, visits: seq<Visit>, pieces: seq<Piece>)
    requires off <= limit <= |data| && Shows(data, visits, pieces)
    ensures InfosAgree(data, limit, n, off, visits, pieces)
    decreases n
  {
    if n > 0 && off + DEVICE_INFO <= limit {
      var mid := off + DEVICE_INFO;
      DropSlice(data, off, limit, DEVICE_INFO);
      var v, p := Visit(DeviceInfo, off, mid), Piece(DeviceInfo, data[off..mid]);
      ShowsMore(data, visits, pieces, v, p);
      InfosFollow(data, limit, n - 1, mid, visits + [v], pieces + [p]);
    }
  }

  ghost predicate PayloadAgrees(data: seq<Byte>, pieces: seq<Piece>, e: Option<Endpoint>, w: Walk) {
    && (e.Some? <==> w.At?)
    && (w.At? ==> Shows(data, w.visits, PayloadPieces(pieces, e.value)))
  }

  lemma PayloadFollows(data: seq<Byte>, head: seq<Byte>, end: nat, off: nat, visits: seq<Visit>, pieces: seq<Piece>)
    requires off <= end <= |data| && Shows(data, visits, pieces)
    ensures PayloadAgrees(data, pieces, ParsePayload(head, data[off..end]), PayloadWalk(data, end, off, visits))
  {
    ConfigParses(data, end, off);
    var mid := ConfigEnd(data, end, off);
    if mid.Some? && mid.value < end {
      var v, p := Visit(ConfigData, off + 4, mid.value), Piece(ConfigData, data[off + 4..mid.value]);
      ShowsMore(data, visits, pieces, v, p);
      ListsFollow(data, end, mid.value, visits + [v], pieces + [p]);
    }
  }

  /** Formats and devices behind the config of an endpoint. */
  function ParseLists(s: seq<Byte>): Option<(seq<Format>, Devices)> {
    if s == [] then None
    else
      var formats := ParseFormats(s[0], s[1..]);
      if formats.Broken? then None
      else
        var devices := ParseDevices(formats.rest);
        if devices.None? then None else Some((formats.value, devices.value))
  }

  function ListsWalk(data: seq<Byte>, end: nat, off: nat, visits: seq<Visit>): Walk
    requires off <= end <= |data|
  {
    var formats := FormatsWalk(data, end, off, visits);
    if formats.Stuck? then formats else DevicesWalk(data, end, formats.off, formats.visits)
  }

  lemma ListsFollow(data: seq<Byte>, end: nat, off: nat, visits: seq<Visit>, pieces: seq<Piece>)
    requires off < end <= |data| && Shows(data, visits, pieces)
    ensures var parsed, w := ParseLists(data[off..end]), ListsWalk(data, end, off, visits);
            && (parsed.Some? <==> w.At?)
            && (w.At? ==> Shows(data, w.visits, DevicePieces(FormatPieces(pieces, parsed.value.0), parsed.value.1)))
  {
    DropSlice(data, off, end, 1);
    FormatsFollow(data, end, data[off], off + 1, visits, pieces);
    var formats := FormatLoop(data, end, data[off], off + 1, visits);
    if formats.At? {
      var fs := ParseFormats(data[off], data[off + 1..end]).value;
      DevicesFollow(data, end, formats.off, formats.visits, FormatPieces(pieces, fs));
    }
  }

  lemma DevicesFollow(data: seq<Byte>, limit: nat, off: nat, visits: seq<Visit>, pieces: seq<Piece>)
    requires off <= limit <= |data| && Shows(data, visits, pieces)
    ensures var parsed, w := ParseDevices(data[off..limit]), DevicesWalk(data, limit, off, visits);
            && (parsed.Some? <==> w.At?)
            && (w.At? ==> Shows(data, w.visits, DevicePieces(pieces, parsed.value)))
  {
    if off < limit {
      DropSlice(data, off, limit, 1);
      InfosFollow(data, limit, data[off], off + 1, visits, pieces);
    }
  }

  ghost predicate EndpointAgrees(data: seq<Byte>, limit: nat, off: nat, pieces: seq<Piece>, parsed: Parsed<Endpoint>, w: Walk)
    requires off <= limit <= |data| && (w.At? ==> off < w.off <= limit)
    requires parsed.Parsed? ==> |parsed.value.head| == EP_DESCRIPTOR - 4
  {
    && (parsed.Parsed? <==> w.At?)
    && (w.At? ==>
          && parsed.rest == data[w.off..limit]
          && (w.passed <==> Legal(parsed.value))
          && Shows(data, w.visits, EndpointPieces(pieces, data[off..w.off], parsed.value)))
  }

  /** An endpoint from its payload. */
  function Framed(e: Option<Endpoint>, rest: seq<Byte>): Parsed<Endpoint> {
    if e.None? then Broken else Parsed(e.value, rest)
  }

  function FramedWalk(data: seq<Byte>, off: nat, end: nat, p: Walk): Walk
    requires off + EP_DESCRIPTOR <= |data|
  {
    if p.Stuck? then p else At(end, p.visits, LegalAt(data, off))
  }

  lemma EndpointFollows(data: seq<Byte>, limit: nat, off: nat, visits: seq<Visit>, pieces: seq<Piece>)
    requires off <= limit <= |data| && Shows(data, visits, pieces)
    ensures EndpointAgrees(data, limit, off, pieces, ParseEndpoint(data[off..limit]), EndpointWalk(data, limit, off, visits))
  {
    if off + EP_DESCRIPTOR <= limit {
      var len := Le32(data[off..]);
      assert Le32(data[off..limit]) == len;
      if EP_DESCRIPTOR <= len <= limit - off {
        FramedFollows(data, limit, off, off + EP_DESCRIPTOR, off + len, visits, pieces);
      }
    }
  }

  lemma FramedFollows(data: seq<Byte>, limit: nat, off: nat, behind: nat, end: nat, visits: seq<Visit>, pieces: seq<Piece>)
    requires off + EP_DESCRIPTOR == behind <= end <= limit <= |data| && Shows(data, visits, pieces)
    requires end == off + Le32(data[off..limit]) == off + Le32(data[off..])
    ensures EndpointAgrees(data, limit, off, pieces, ParseEndpoint(data[off..limit]), EndpointWalk(data, limit, off, visits))
  {
    var whole, head, payload := data[off..end], data[off + 4..behind], data[behind..end];
    var v, p := Visit(Descriptor, off, end), Piece(Descriptor, whole);
    var visits', pieces' := visits + [v], pieces + [p];
    ShowsMore(data, visits, pieces, v, p);
    PayloadFollows(data, head, end, behind, visits', pieces');
    EndpointParsesAs(data, limit, off, behind, end, head, payload);
    EndpointWalksAs(data, limit, off, behind, end, visits, visits');
  }

  lemma EndpointParsesAs(data: seq<Byte>, limit: nat, off: nat, behind: nat, end: nat, head: seq<Byte>, payload: seq<Byte>)
    requires off + EP_DESCRIPTOR == behind <= end <= limit <= |data|
    requires end == off + Le32(data[off..limit])
    requires head == data[off + 4..behind] && payload == data[behind..end]
    ensures ParseEndpoint(data[off..limit]) == Framed(ParsePayload(head, payload), data[end..limit])
  {
    DropSlice(data, off, limit, end - off);
    SubSlice(data, off, end, 4, EP_DESCRIPTOR);
    DropSlice(data, off, end, EP_DESCRIPTOR);
    EndpointInParts(data[off..limit], data[off..end], head, payload);
  }

  lemma EndpointWalksAs(data: seq<Byte>, limit: nat, off: nat, behind: nat, end: nat, visits: seq<Visit>, visits': seq<Visit>)
    requires off + EP_DESCRIPTOR == behind <= end <= limit <= |data|
    requires end == off + Le32(data[off..]) && visits' == visits + [Visit(Descriptor, off, end)]
    ensures EndpointWalk(data, limit, off, visits) == FramedWalk(data, off, end, PayloadWalk(data, end, behind, visits'))
  {
  }

  lemma EndpointInParts(s: seq<Byte>, whole: seq<Byte>, head: seq<Byte>, payload: seq<Byte>)
    requires |s| >= |whole| >= EP_DESCRIPTOR && |whole| == Le32(s) && whole == s[..Le32(s)]
    requires head == whole[4..EP_DESCRIPTOR] && payload == whole[EP_DESCRIPTOR..]
    ensures var e := ParsePayload(head, payload);
            ParseEndpoint(s) == Framed(e, s[|whole|..])
  {
  }

  /** Where the endpoint loop stands, with the pieces shown so far. */
  datatype Loop = Loop(n: nat, off: nat, visits: seq<Visit>, passed: bool, pieces: seq<Piece>)

  ghost predicate In(data: seq<Byte>, limit: nat, l: Loop) {
    l.off <= limit <= |data| && Shows(data, l.visits, l.pieces)
  }

  function Run(data: seq<Byte>, limit: nat, l: Loop): (w: Walk)
    requires l.off <= limit <= |data|
    ensures w.At? ==> w.off <= limit
  {
    EndpointLoop(data, limit, l.n, l.off, l.visits, l.passed)
  }

  function Read(data: seq<Byte>, limit: nat, l: Loop): Parsed<seq<Endpoint>>
    requires l.off <= limit <= |data|
  {
    ParseEndpoints(l.n, data[l.off..limit])
  }

  ghost predicate EndpointsAgree(data: seq<Byte>, limit: nat, l: Loop, parsed: Parsed<seq<Endpoint>>, w: Walk)
    requires w.At? ==> w.off <= limit <= |data|
  {
    && (parsed.Parsed? <==> w.At?)
    && (w.At? ==>
          && parsed.rest == data[w.off..limit]
          && (w.passed <==> l.passed && LegalEndpoints(parsed.value))
          && EndpointsOk(parsed.value)
          && Shows(data, w.visits, EndpointsPieces(l.pieces, parsed.value)))
  }

  lemma {:induction false} EndpointsFollow(data: seq<Byte>, limit: nat, l: Loop)
    requires In(data, limit, l)
    ensures EndpointsAgree(data, limit, l, Read(data, limit, l), Run(data, limit, l))
    decreases l.n
  {
    if l.n > 0 {
      var first, w, l' := Round(data, limit, l);
      if w.At? {
        EndpointsFollow(data, limit, l');
      }
    }
  }

  /** The first endpoint, its step of the walk, and the rest of the loop. */
  lemma Round(data: seq<Byte>, limit: nat, l: Loop) returns (first: Parsed<Endpoint>, w: Walk, l': Loop)
    requires l.n > 0 && In(data, limit, l)
    ensures (first.Parsed? <==> w.At?) && In(data, limit, l')
    ensures w.Stuck? ==>
              && Run(data, limit, l) == Stuck(w.failed || !l.passed) && Read(data, limit, l).Broken?
              && (w.failed <==> limit - l.off >= EP_DESCRIPTOR)
    ensures w.At? ==>
              && l'.n == l.n - 1 && EndpointOk(first.value)
              && (l'.passed <==> l.passed && Legal(first.value))
              && Run(data, limit, l) == Run(data, limit, l')
              && Ahead(l.pieces, l'.pieces, first.value, Read(data, limit, l'), Read(data, limit, l))
    ensures Cut(data[l.off..limit], l.n)
            <==> if w.Stuck? then limit - l.off < EP_DESCRIPTOR
                 else Legal(first.value) && Cut(data[l'.off..limit], l'.n)
  {
    var s := data[l.off..limit];
    first, w := ParseEndpoint(s), EndpointWalk(data, limit, l.off, l.visits);
    FirstFollows(data, limit, l.off, l.visits, l.pieces);
    if w.Stuck? {
      l' := l;
      CutNow(s, l.n);
    } else {
      var pieces' := EndpointPieces(l.pieces, EncEndpoint(first.value), first.value);
      l' := Loop(l.n - 1, w.off, w.visits, l.passed && w.passed, pieces');
      var all, n, tail := Read(data, limit, l), l'.n, data[l'.off..limit];
      EndpointAhead(l.n, s, first, n, tail, l.pieces, pieces', all);
      CutLater(s, l.n, first, n, tail);
    }
  }

  lemma FirstFollows(data: seq<Byte>, limit: nat, off: nat, visits: seq<Visit>, pieces: seq<Piece>)
    requires off <= limit <= |data| && Shows(data, visits, pieces)
    ensures var first, w := ParseEndpoint(data[off..limit]), EndpointWalk(data, limit, off, visits);
            && (first.Parsed? <==> w.At?)
            && (w.Stuck? ==> (w.failed <==> limit - off >= EP_DESCRIPTOR))
            && (w.At? ==>
                  && EndpointOk(first.value) && first.rest == data[w.off..limit] && (w.passed <==> Legal(first.value))
                  && Shows(data, w.visits, EndpointPieces(pieces, EncEndpoint(first.value), first.value)))
  {
    var s, w := data[off..limit], EndpointWalk(data, limit, off, visits);
    EndpointFollows(data, limit, off, visits, pieces);
    if w.At? {
      EndpointEncodes(s);
      Prefix(data, off, limit, EncEndpoint(ParseEndpoint(s).value), w.off);
    }
  }

  lemma Prefix(data: seq<Byte>, off: nat, limit: nat, whole: seq<Byte>, end: nat)
    requires off <= end <= limit <= |data| && whole + data[end..limit] == data[off..limit]
    ensures whole == data[off..end]
  {
    assert whole == (whole + data[end..limit])[..end - off];
    DropSlice(data, off, limit, end - off);
  }

  ghost predicate Ahead(pieces: seq<Piece>, pieces': seq<Piece>, first: Endpoint,
                        others: Parsed<seq<Endpoint>>, all: Parsed<seq<Endpoint>>)
    requires EndpointOk(first)
  {
    && (all.Parsed? <==> others.Parsed?)
    && (all.Parsed? && EndpointsOk(others.value) ==>
          && all.rest == others.rest
          && (LegalEndpoints(all.value) <==> Legal(first) && LegalEndpoints(others.value))
          && EndpointsOk(all.value)
          && EndpointsPieces(pieces, all.value) == EndpointsPieces(pieces', others.value))
  }

  lemma EndpointAhead(n: nat, s: seq<Byte>, first: Parsed<Endpoint>, n': nat, tail: seq<Byte>,
                      pieces: seq<Piece>, pieces': seq<Piece>, all: Parsed<seq<Endpoint>>)
    requires n == n' + 1 && ParseEndpoint(s) == first && first.Parsed? && EndpointOk(first.value) && first.rest == tail
    requires pieces' == EndpointPieces(pieces, EncEndpoint(first.value), first.value) && all == ParseEndpoints(n, s)
    ensures Ahead(pieces, pieces', first.value, ParseEndpoints(n', tail), all)
  {
    var others := ParseEndpoints(n', tail);
    if others.Parsed? {
      FirstThenOthers(n, s, first, others);
      Halves([first.value], others.value);
    }
  }

  ghost predicate TableAgrees(data: seq<Byte>) {
    var parsed, w := ParseTable(data), TableWalk(data);
    && (parsed.Some? <==> w.At?)
    && (w.At? ==>
          && TableOk(parsed.value)
          && (w.passed <==> LegalEndpoints(parsed.value.endpoints))
          && Shows(data, w.visits, TablePieces(parsed.value)))
  }

  lemma TableFollows(data: seq<Byte>)
    ensures TableAgrees(data)
  {
    if |data| > TABLE_HEADER {
      var n, tail := data[TABLE_HEADER], data[TABLE_HEADER + 1..];
      assert data[TABLE_HEADER + 1..|data|] == tail;
      EndpointsFollow(data, |data|, Loop(n, TABLE_HEADER + 1, [], true, []));
      var w := EndpointLoop(data, |data|, n, TABLE_HEADER + 1, [], true);
      if w.At? {
        var endpoints := ParseEndpoints(n, tail);
        assert data[w.off..|data|] == data[w.off..];
        OedFollows(data, w, EndpointsPieces([], endpoints.value));
      }
    }
  }

  lemma OedFollows(data: seq<Byte>, w: Walk, pieces: seq<Piece>)
    requires w.At? && w.off <= |data| && Shows(data, w.visits, pieces)
    ensures var o, all := ParseOed(data[w.off..]), OedWalk(data, w);
            && (o.Some? <==> all.At?)
            && (all.At? ==>
                  && (o.value.Oed? ==> |o.value.config| < WORD32)
                  && all.passed == w.passed
                  && Shows(data, all.visits, OedPieces(pieces, o.value)))
  {
    assert data[w.off..|data|] == data[w.off..];
    ConfigParses(data, |data|, w.off);
    var end := ConfigEnd(data, |data|, w.off);
    if w.off < |data| && end.Some? {
      var v, p := Visit(ConfigData, w.off + 4, end.value), Piece(ConfigData, data[w.off + 4..end.value]);
      ShowsMore(data, w.visits, pieces, v, p);
    }
  }

  /** The walk succeeds on what parses, and passes what is accepted. */
  lemma WalkFollowsGrammar(data: seq<Byte>)
    ensures TableWalk(data).At? <==> ParseTable(data).Some?
    ensures TableWalk(data).At? && TableWalk(data).passed <==> Accepts(data)
  {
    TableFollows(data);
  }

  /** The sub-ranges that are stepped over are the pieces of the tree, in order. */
  lemma VisitsAreThePieces(data: seq<Byte>)
    requires TableWalk(data).At?
    ensures ParseTable(data).Some? && TableOk(ParseTable(data).value)
    ensures Shows(data, TableWalk(data).visits, TablePieces(ParseTable(data).value))
  {
    TableFollows(data);
  }

  // ---------- When nothing is reported ----------

  /** k of the n endpoints are read and found legal, and the descriptor of the next one is cut off. */
  ghost predicate CutBefore(s: seq<Byte>, n: nat, k: nat) {
    && k < n
    && var read := ParseEndpoints(k, s);
       read.Parsed? && LegalEndpoints(read.value) && |read.rest| < EP_DESCRIPTOR
  }

  ghost predicate Cut(s: seq<Byte>, n: nat) { exists k: nat :: CutBefore(s, n, k) }

  /** The walk ends without a failure and without passing exactly when a descriptor is cut off. */
  lemma SilentExactly(data: seq<Byte>)
    ensures TableWalk(data) == Stuck(false)
            <==> |data| > TABLE_HEADER && Cut(data[TABLE_HEADER + 1..], data[TABLE_HEADER])
  {
    if |data| > TABLE_HEADER {
      var n, tail := data[TABLE_HEADER], data[TABLE_HEADER + 1..];
      assert data[TABLE_HEADER + 1..|data|] == tail;
      SilentLoop(data, Loop(n, TABLE_HEADER + 1, [], true, []));
    }
  }

  /** One byte behind the header, a count of endpoints of which nothing follows. */
  lemma CountWithoutEndpoints(header: seq<Byte>, count: Byte)
    requires |header| == TABLE_HEADER && count > 0
    ensures TableWalk(header + [count]) == Stuck(false)
  {
    var data := header + [count];
    SilentExactly(data);
    assert CutBefore(data[TABLE_HEADER + 1..], count, 0);
  }

  lemma {:induction false} SilentLoop(data: seq<Byte>, l: Loop)
    requires In(data, |data|, l)
    ensures Run(data, |data|, l) == Stuck(false) <==> l.passed && Cut(data[l.off..|data|], l.n)
    decreases l.n
  {
    if l.n > 0 {
      var first, w, l' := Round(data, |data|, l);
      if w.At? {
        SilentLoop(data, l');
      }
    }
  }

  lemma CutNow(s: seq<Byte>, n: nat)
    requires n > 0 && ParseEndpoint(s).Broken?
    ensures Cut(s, n) <==> |s| < EP_DESCRIPTOR
  {
    if |s| < EP_DESCRIPTOR {
      assert CutBefore(s, n, 0);
    }
  }

  lemma CutLater(s: seq<Byte>, n: nat, first: Parsed<Endpoint>, n': nat, tail: seq<Byte>)
    requires n == n' + 1 && ParseEndpoint(s) == first && first.Parsed? && first.rest == tail
    ensures Cut(s, n) <==> Legal(first.value) && Cut(tail, n')
  {
    if Cut(s, n) {
      var k: nat :| CutBefore(s, n, k);
      assert !CutBefore(s, n, 0);
      var k' := k - 1;
      CutShift(s, n, k', first);
      assert CutBefore(tail, n', k');
    }
    if Legal(first.value) && Cut(tail, n') {
      var k: nat :| CutBefore(tail, n', k);
      CutShift(s, n, k, first);
      assert CutBefore(s, n, k + 1);
    }
  }

  lemma CutShift(s: seq<Byte>, n: nat, k: nat, first: Parsed<Endpoint>)
    requires n > 0 && ParseEndpoint(s) == first && first.Parsed?
    ensures CutBefore(s, n, k + 1) <==> Legal(first.value) && CutBefore(first.rest, n - 1, k)
  {
    var others := ParseEndpoints(k, first.rest);
    if others.Parsed? {
      FirstThenOthers(k + 1, s, first, others);
      Halves([first.value], others.value);
    }
  }
}
