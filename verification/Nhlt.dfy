/**
 The Non HDAudio Link Table (ACPI 6.6, section 5.2.27): its grammar as a tree with an encoder,
 and the parser whose success the validator and the dumper are measured by.
 */
module Nhlt {
  import opened Bytes
  import opened Wrappers

  const TABLE_HEADER := 36     // ACPI header in front of the endpoint count
  const EP_DESCRIPTOR := 19    // length field included
  const WAVE_FORMAT_EXT := 40
  const DEVICE_INFO := 18

  // ---------- Grammar ----------

  datatype Format = Format(wave: seq<Byte>, config: seq<Byte>)

  /** Optional list of devices; bytes behind it up to the end of the endpoint are not looked at. */
  datatype Devices = NoDevices | Devices(infos: seq<seq<Byte>>, slack: seq<Byte>)

  /** head is the descriptor behind its length field. */
  datatype Endpoint = Endpoint(head: seq<Byte>, config: seq<Byte>, formats: seq<Format>, devices: Devices)

  datatype Oed = NoOed | Oed(config: seq<Byte>, slack: seq<Byte>)

  datatype Table = Table(header: seq<Byte>, endpoints: seq<Endpoint>, oed: Oed)

  predicate FormatOk(f: Format) { |f.wave| == WAVE_FORMAT_EXT && |f.config| < WORD32 }

  predicate FormatsOk(fs: seq<Format>) { fs == [] || (FormatOk(fs[0]) && FormatsOk(fs[1..])) }

  predicate InfosOk(infos: seq<seq<Byte>>) { infos == [] || (|infos[0]| == DEVICE_INFO && InfosOk(infos[1..])) }

  predicate DevicesOk(d: Devices) { d.Devices? ==> |d.infos| < 0x100 && InfosOk(d.infos) }

  predicate EndpointOk(e: Endpoint) {
    && |e.head| == EP_DESCRIPTOR - 4 && |e.config| < WORD32
    && |e.formats| < 0x100 && FormatsOk(e.formats) && DevicesOk(e.devices)
    && 4 + |EncBody(e)| < WORD32
  }

  /** Link type, direction and device type are not reserved values. */
  predicate Legal(e: Endpoint)
    requires |e.head| == EP_DESCRIPTOR - 4
  {
    var linkType, deviceType, direction := e.head[0], e.head[12], e.head[13];
    && linkType <= 6 && direction <= 1
    && (linkType == 2 ==> deviceType <= 1)
    && (linkType == 3 ==> deviceType <= 4)
  }

  predicate EndpointsOk(es: seq<Endpoint>) { es == [] || (EndpointOk(es[0]) && EndpointsOk(es[1..])) }

  predicate LegalEndpoints(es: seq<Endpoint>) {
    es == [] || (|es[0].head| == EP_DESCRIPTOR - 4 && Legal(es[0]) && LegalEndpoints(es[1..]))
  }

  predicate TableOk(t: Table) {
    && |t.header| == TABLE_HEADER && |t.endpoints| < 0x100
    && EndpointsOk(t.endpoints) && (t.oed.Oed? ==> |t.oed.config| < WORD32)
  }

  // ---------- Encoding ----------

  // Each Put writes a value in front of what follows it.

  function PutConfig(config: seq<Byte>, rest: seq<Byte>): seq<Byte>
    requires |config| < WORD32
  {
    Enc32(|config|) + (config + rest)
  }

  function PutFormats(fs: seq<Format>, rest: seq<Byte>): seq<Byte>
    requires FormatsOk(fs)
  {
    if fs == [] then rest else fs[0].wave + PutConfig(fs[0].config, PutFormats(fs[1..], rest))
  }

  function PutInfos(infos: seq<seq<Byte>>, rest: seq<Byte>): seq<Byte> {
    if infos == [] then rest else infos[0] + PutInfos(infos[1..], rest)
  }

  function EncDevices(d: Devices): seq<Byte>
    requires DevicesOk(d)
  {
    match d
    case NoDevices => []
    case Devices(infos, slack) => [|infos|] + PutInfos(infos, slack)
  }

  /** An endpoint behind its length field. */
  function EncBody(e: Endpoint): seq<Byte>
    requires |e.config| < WORD32 && |e.formats| < 0x100 && FormatsOk(e.formats) && DevicesOk(e.devices)
  {
    e.head + EncPayload(e)
  }

  function EncPayload(e: Endpoint): seq<Byte>
    requires |e.config| < WORD32 && |e.formats| < 0x100 && FormatsOk(e.formats) && DevicesOk(e.devices)
  {
    PutConfig(e.config, [|e.formats|] + PutFormats(e.formats, EncDevices(e.devices)))
  }

  /** The length field covers the whole endpoint, itself included. */
  function EncEndpoint(e: Endpoint): seq<Byte>
    requires EndpointOk(e)
  {
    Enc32(4 + |EncBody(e)|) + EncBody(e)
  }

  function PutEndpoints(es: seq<Endpoint>, rest: seq<Byte>): seq<Byte>
    requires EndpointsOk(es)
  {
    if es == [] then rest else EncEndpoint(es[0]) + PutEndpoints(es[1..], rest)
  }

  function EncOed(o: Oed): seq<Byte>
    requires o.Oed? ==> |o.config| < WORD32
  {
    match o
    case NoOed => []
    case Oed(config, slack) => PutConfig(config, slack)
  }

  function EncTable(t: Table): seq<Byte>
    requires TableOk(t)
  {
    t.header + ([|t.endpoints|] + PutEndpoints(t.endpoints, EncOed(t.oed)))
  }

  // ---------- Parsing ----------

  /** What was read and what is left. */
  datatype Parsed<+T> = Broken | Parsed(value: T, rest: seq<Byte>)

  function ParseConfig(s: seq<Byte>): (r: Parsed<seq<Byte>>)
    ensures r.Parsed? ==> |r.value| < WORD32 && |r.rest| == |s| - 4 - |r.value|
  {
    if |s| < 4 || Le32(s) > |s| - 4 then Broken
    else Parsed(s[4..4 + Le32(s)], s[4 + Le32(s)..])
  }

  function ParseFormats(n: nat, s: seq<Byte>): (r: Parsed<seq<Format>>)
    ensures r.Parsed? ==> |r.rest| <= |s| && |r.value| == n && FormatsOk(r.value)
  {
    if n == 0 then Parsed([], s)
    else if |s| < WAVE_FORMAT_EXT then Broken
    else
      match ParseConfig(s[WAVE_FORMAT_EXT..])
      case Broken => Broken
      case Parsed(config, rest) =>
        match ParseFormats(n - 1, rest)
        case Broken => Broken
        case Parsed(fs, rest) => Parsed([Format(s[..WAVE_FORMAT_EXT], config)] + fs, rest)
  }

  function ParseInfos(n: nat, s: seq<Byte>): (r: Parsed<seq<seq<Byte>>>)
    ensures r.Parsed? ==> |r.rest| <= |s| && |r.value| == n && InfosOk(r.value)
  {
    if n == 0 then Parsed([], s)
    else if |s| < DEVICE_INFO then Broken
    else
      match ParseInfos(n - 1, s[DEVICE_INFO..])
      case Broken => Broken
      case Parsed(infos, rest) => Parsed([s[..DEVICE_INFO]] + infos, rest)
  }

  /** The list takes up the rest of the endpoint. */
  function ParseDevices(s: seq<Byte>): (r: Option<Devices>)
    ensures r.Some? ==> DevicesOk(r.value)
  {
    if s == [] then Some(NoDevices)
    else
      match ParseInfos(s[0], s[1..])
      case Broken => None
      case Parsed(infos, slack) => Some(Devices(infos, slack))
  }

  /** An endpoint from its descriptor head and the payload that fills the rest of it. */
  function ParsePayload(head: seq<Byte>, payload: seq<Byte>): (r: Option<Endpoint>)
    ensures r.Some? ==> r.value.head == head
  {
    match ParseConfig(payload)
    case Broken => None
    case Parsed(config, rest) =>
      if rest == [] then None
      else
        match ParseFormats(rest[0], rest[1..])
        case Broken => None
        case Parsed(formats, rest) =>
          match ParseDevices(rest)
          case None => None
          case Some(devices) => Some(Endpoint(head, config, formats, devices))
  }

  /** An endpoint that fills e, its length field included. */
  function ParseBody(e: seq<Byte>): (r: Option<Endpoint>)
    requires |e| >= EP_DESCRIPTOR
    ensures r.Some? ==> |r.value.head| == EP_DESCRIPTOR - 4
  {
    ParsePayload(e[4..EP_DESCRIPTOR], e[EP_DESCRIPTOR..])
  }

  function ParseEndpoint(s: seq<Byte>): (r: Parsed<Endpoint>)
    ensures r.Parsed? ==> |r.rest| < |s| && |r.value.head| == EP_DESCRIPTOR - 4
  {
    if |s| < EP_DESCRIPTOR || Le32(s) < EP_DESCRIPTOR || Le32(s) > |s| then Broken
    else
      match ParseBody(s[..Le32(s)])
      case None => Broken
      case Some(e) => Parsed(e, s[Le32(s)..])
  }

  function ParseEndpoints(n: nat, s: seq<Byte>): (r: Parsed<seq<Endpoint>>)
    ensures r.Parsed? ==> |r.rest| <= |s| && |r.value| == n
  {
    if n == 0 then Parsed([], s)
    else
      match ParseEndpoint(s)
      case Broken => Broken
      case Parsed(e, rest) =>
        match ParseEndpoints(n - 1, rest)
        case Broken => Broken
        case Parsed(es, rest) => Parsed([e] + es, rest)
  }

  function ParseOed(s: seq<Byte>): Option<Oed> {
    if s == [] then Some(NoOed)
    else
      match ParseConfig(s)
      case Broken => None
      case Parsed(config, slack) => Some(Oed(config, slack))
  }

  function ParseTable(s: seq<Byte>): Option<Table> {
    if |s| <= TABLE_HEADER then None
    else
      match ParseEndpoints(s[TABLE_HEADER], s[TABLE_HEADER + 1..])
      case Broken => None
      case Parsed(es, rest) =>
        match ParseOed(rest)
        case None => None
        case Some(oed) => Some(Table(s[..TABLE_HEADER], es, oed))
  }

  // ---------- Parsing undoes encoding ----------

  lemma ConfigDecodes(config: seq<Byte>, rest: seq<Byte>)
    requires |config| < WORD32
    ensures ParseConfig(PutConfig(config, rest)) == Parsed(config, rest)
  {
    EncLe32(|config|, config + rest);
    var s := PutConfig(config, rest);
    assert s[4..4 + |config|] == config;
    assert s[4 + |config|..] == rest;
  }

  lemma ConfigEncodes(s: seq<Byte>)
    requires ParseConfig(s).Parsed?
    ensures PutConfig(ParseConfig(s).value, ParseConfig(s).rest) == s
  {
    LeEnc32(s);
  }

  ghost predicate FormatsReread(fs: seq<Format>, rest: seq<Byte>)
    requires FormatsOk(fs)
  {
    ParseFormats(|fs|, PutFormats(fs, rest)) == Parsed(fs, rest)
  }

  lemma {:induction false} FormatsDecode(fs: seq<Format>, rest: seq<Byte>)
    requires FormatsOk(fs)
    ensures FormatsReread(fs, rest)
    decreases |fs|
  {
    if fs != [] {
      FormatsDecode(fs[1..], rest);
      OneMoreFormat(fs, rest);
    }
  }

  lemma OneMoreFormat(fs: seq<Format>, rest: seq<Byte>)
    requires fs != [] && FormatsOk(fs) && FormatsReread(fs[1..], rest)
    ensures FormatsReread(fs, rest)
  {
    var tail := PutFormats(fs[1..], rest);
    var s := PutFormats(fs, rest);
    Halves(fs[0].wave, PutConfig(fs[0].config, tail));
    ConfigDecodes(fs[0].config, tail);
    Joined(fs, 1);
    assert fs[..1] == [fs[0]];
  }

  lemma {:induction false} FormatsEncode(n: nat, s: seq<Byte>)
    requires ParseFormats(n, s).Parsed?
    ensures PutFormats(ParseFormats(n, s).value, ParseFormats(n, s).rest) == s
    decreases n
  {
    if n != 0 {
      var t := s[WAVE_FORMAT_EXT..];
      ConfigEncodes(t);
      FormatsEncode(n - 1, ParseConfig(t).rest);
      assert ParseFormats(n, s).value[1..] == ParseFormats(n - 1, ParseConfig(t).rest).value;
      Joined(s, WAVE_FORMAT_EXT);
    }
  }

  lemma {:induction false} InfosDecode(infos: seq<seq<Byte>>, rest: seq<Byte>)
    requires InfosOk(infos)
    ensures ParseInfos(|infos|, PutInfos(infos, rest)) == Parsed(infos, rest)
    decreases |infos|
  {
    if infos != [] {
      Halves(infos[0], PutInfos(infos[1..], rest));
      InfosDecode(infos[1..], rest);
      assert [infos[0]] + infos[1..] == infos;
    }
  }

  lemma {:induction false} InfosEncode(n: nat, s: seq<Byte>)
    requires ParseInfos(n, s).Parsed?
    ensures PutInfos(ParseInfos(n, s).value, ParseInfos(n, s).rest) == s
    decreases n
  {
    if n != 0 {
      InfosEncode(n - 1, s[DEVICE_INFO..]);
      assert ParseInfos(n, s).value[1..] == ParseInfos(n - 1, s[DEVICE_INFO..]).value;
      Joined(s, DEVICE_INFO);
    }
  }

  lemma DevicesDecode(d: Devices)
    requires DevicesOk(d)
    ensures ParseDevices(EncDevices(d)) == Some(d)
  {
    if d.Devices? {
      InfosDecode(d.infos, d.slack);
      Halves([|d.infos|], PutInfos(d.infos, d.slack));
    }
  }

  lemma DevicesEncode(s: seq<Byte>)
    requires ParseDevices(s).Some?
    ensures EncDevices(ParseDevices(s).value) == s
  {
    if s != [] {
      InfosEncode(s[0], s[1..]);
      Joined(s, 1);
    }
  }

  lemma PayloadDecodes(e: Endpoint)
    requires EndpointOk(e)
    ensures ParsePayload(e.head, EncPayload(e)) == Some(e)
  {
    var formats := PutFormats(e.formats, EncDevices(e.devices));
    ConfigDecodes(e.config, [|e.formats|] + formats);
    Halves([|e.formats|], formats);
    FormatsDecode(e.formats, EncDevices(e.devices));
    DevicesDecode(e.devices);
  }

  lemma PayloadEncodes(head: seq<Byte>, payload: seq<Byte>)
    requires ParsePayload(head, payload).Some?
    ensures var e := ParsePayload(head, payload).value;
            && |e.config| < WORD32 && |e.formats| < 0x100 && FormatsOk(e.formats) && DevicesOk(e.devices)
            && EncPayload(e) == payload
  {
    var config := ParseConfig(payload);
    ConfigEncodes(payload);
    FormatsEncode(config.rest[0], config.rest[1..]);
    DevicesEncode(ParseFormats(config.rest[0], config.rest[1..]).rest);
    Joined(config.rest, 1);
    assert config.rest[..1] == [config.rest[0]];
  }

  lemma BodyDecodes(e: Endpoint)
    requires EndpointOk(e)
    ensures |EncEndpoint(e)| >= EP_DESCRIPTOR && ParseBody(EncEndpoint(e)) == Some(e)
  {
    PayloadDecodes(e);
    var len, payload, whole := Enc32(4 + |EncBody(e)|), EncPayload(e), EncEndpoint(e);
    BodyOf(len, e.head, payload, whole);
  }

  lemma BodyOf(len: seq<Byte>, head: seq<Byte>, payload: seq<Byte>, s: seq<Byte>)
    requires |len| == 4 && |head| == EP_DESCRIPTOR - 4 && s == len + (head + payload)
    ensures ParseBody(s) == ParsePayload(head, payload)
  {
    assert s[4..EP_DESCRIPTOR] == head && s[EP_DESCRIPTOR..] == payload;
  }

  lemma BodyEncodes(s: seq<Byte>)
    requires EP_DESCRIPTOR <= |s| < WORD32 && ParseBody(s).Some?
    ensures EndpointOk(ParseBody(s).value) && EncBody(ParseBody(s).value) == s[4..]
  {
    PayloadEncodes(s[4..EP_DESCRIPTOR], s[EP_DESCRIPTOR..]);
    assert s[4..EP_DESCRIPTOR] + s[EP_DESCRIPTOR..] == s[4..];
  }

  lemma EndpointDecodes(e: Endpoint, rest: seq<Byte>)
    requires EndpointOk(e)
    ensures ParseEndpoint(EncEndpoint(e) + rest) == Parsed(e, rest)
  {
    var whole := EncEndpoint(e);
    BodyDecodes(e);
    Halves(whole, rest);
    LengthOf(4 + |EncBody(e)|, EncBody(e), rest);
  }

  lemma LengthOf(n: nat, body: seq<Byte>, rest: seq<Byte>)
    requires n < WORD32
    ensures Le32((Enc32(n) + body) + rest) == n
  {
    assert (Enc32(n) + body) + rest == Enc32(n) + (body + rest);
    EncLe32(n, body + rest);
  }

  lemma EndpointEncodes(s: seq<Byte>)
    requires ParseEndpoint(s).Parsed?
    ensures EndpointOk(ParseEndpoint(s).value)
    ensures EncEndpoint(ParseEndpoint(s).value) + ParseEndpoint(s).rest == s
  {
    var n := Le32(s);
    BodyEncodes(s[..n]);
    LeEnc32(s[..n]);
    assert Le32(s[..n]) == n;
    Joined(s[..n], 4);
    Joined(s, n);
  }

  ghost predicate Decodes(es: seq<Endpoint>, rest: seq<Byte>)
    requires EndpointsOk(es)
  {
    ParseEndpoints(|es|, PutEndpoints(es, rest)) == Parsed(es, rest)
  }

  lemma {:induction false} EndpointsDecode(es: seq<Endpoint>, rest: seq<Byte>)
    requires EndpointsOk(es)
    ensures Decodes(es, rest)
    decreases |es|
  {
    if es != [] {
      EndpointsDecode(es[1..], rest);
      OneMoreDecodes(es, rest);
    }
  }

  lemma OneMoreDecodes(es: seq<Endpoint>, rest: seq<Byte>)
    requires es != [] && EndpointsOk(es) && Decodes(es[1..], rest)
    ensures Decodes(es, rest)
  {
    var tail := PutEndpoints(es[1..], rest);
    var s := PutEndpoints(es, rest);
    assert s == EncEndpoint(es[0]) + tail;
    EndpointDecodes(es[0], tail);
    FirstThenOthers(|es|, s, Parsed(es[0], tail), Parsed(es[1..], rest));
    Joined(es, 1);
    assert es[..1] == [es[0]];
  }

  lemma FirstThenOthers(n: nat, s: seq<Byte>, first: Parsed<Endpoint>, others: Parsed<seq<Endpoint>>)
    requires n > 0 && ParseEndpoint(s) == first && first.Parsed?
    requires ParseEndpoints(n - 1, first.rest) == others && others.Parsed?
    ensures ParseEndpoints(n, s) == Parsed([first.value] + others.value, others.rest)
  {
  }

  lemma {:induction false} EndpointsEncode(n: nat, s: seq<Byte>)
    requires ParseEndpoints(n, s).Parsed?
    ensures EndpointsOk(ParseEndpoints(n, s).value)
    ensures PutEndpoints(ParseEndpoints(n, s).value, ParseEndpoints(n, s).rest) == s
    decreases n
  {
    if n != 0 {
      EndpointsEncode(n - 1, ParseEndpoint(s).rest);
      OneMoreEncodes(n, s);
    }
  }

  lemma OneMoreEncodes(n: nat, s: seq<Byte>)
    requires n > 0 && ParseEndpoints(n, s).Parsed?
    requires var others := ParseEndpoints(n - 1, ParseEndpoint(s).rest);
             EndpointsOk(others.value) && PutEndpoints(others.value, others.rest) == ParseEndpoint(s).rest
    ensures EndpointsOk(ParseEndpoints(n, s).value)
    ensures PutEndpoints(ParseEndpoints(n, s).value, ParseEndpoints(n, s).rest) == s
  {
    EndpointEncodes(s);
    var first := ParseEndpoint(s);
    var others := ParseEndpoints(n - 1, first.rest);
    Halves([first.value], others.value);
  }

  /** Parsing the encoding of a tree gives the tree back. */
  lemma TableDecodes(t: Table)
    requires TableOk(t)
    ensures ParseTable(EncTable(t)) == Some(t)
  {
    var endpoints := PutEndpoints(t.endpoints, EncOed(t.oed));
    Halves(t.header, [|t.endpoints|] + endpoints);
    Halves([|t.endpoints|], endpoints);
    DropSlice(EncTable(t), TABLE_HEADER, |EncTable(t)|, 1);
    EndpointsDecode(t.endpoints, EncOed(t.oed));
    if t.oed.Oed? {
      ConfigDecodes(t.oed.config, t.oed.slack);
    }
  }

  /** What parses is the encoding of the tree it parses to. */
  lemma TableEncodes(s: seq<Byte>)
    requires ParseTable(s).Some?
    ensures TableOk(ParseTable(s).value) && EncTable(ParseTable(s).value) == s
  {
    EndpointsEncode(s[TABLE_HEADER], s[TABLE_HEADER + 1..]);
    OedEncodes(ParseEndpoints(s[TABLE_HEADER], s[TABLE_HEADER + 1..]).rest);
    Joined(s, TABLE_HEADER);
    DropSlice(s, TABLE_HEADER, |s|, 1);
    Joined(s[TABLE_HEADER..], 1);
  }

  lemma OedEncodes(s: seq<Byte>)
    requires ParseOed(s).Some?
    ensures var o := ParseOed(s).value; (o.Oed? ==> |o.config| < WORD32) && EncOed(o) == s
  {
    if s != [] {
      ConfigEncodes(s);
    }
  }

  /** The bytes are a table of the grammar with legal endpoints. */
  ghost predicate InGrammar(s: seq<Byte>) {
    exists t: Table :: TableOk(t) && LegalEndpoints(t.endpoints) && EncTable(t) == s
  }

  /** What the validator accepts. */
  predicate Accepts(s: seq<Byte>) {
    ParseTable(s).Some? && LegalEndpoints(ParseTable(s).value.endpoints)
  }

  lemma AcceptsExactlyGrammar(s: seq<Byte>)
    ensures Accepts(s) <==> InGrammar(s)
  {
    if Accepts(s) {
      TableEncodes(s);
    }
    if InGrammar(s) {
      var t: Table :| TableOk(t) && LegalEndpoints(t.endpoints) && EncTable(t) == s;
      TableDecodes(t);
    }
  }
}
