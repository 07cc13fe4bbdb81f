/** NHLT tables of one endpoint of 24 bytes, byte by byte: what is accepted, and what is dumped. */
module NhltExample {
  import opened Bytes
  import opened Nhlt
  import opened NhltClip
  import opened NhltWalk
  import opened Wrappers

  /** The shortest endpoint: a descriptor, a config of no bytes and no formats. */
  function Shortest(head: seq<Byte>): seq<Byte> { [24, 0, 0, 0] + head + [0, 0, 0, 0, 0] }

  /** A table that says it has count endpoints, and has one of 24 bytes. */
  function OneEndpoint(header: seq<Byte>, count: Byte, head: seq<Byte>): seq<Byte> { header + [count] + Shortest(head) }

  lemma Layout(header: seq<Byte>, count: Byte, head: seq<Byte>, s: seq<Byte>)
    requires |header| == 36 && |head| == 15 && s == OneEndpoint(header, count, head)
    ensures |s| == 61 && s[36] == count && s[37..] == Shortest(head) && |s[37..]| == 24
    ensures Le32(s[37..]) == 24 && s[41..56] == head && Le32(s[56..]) == 0 && s[60] == 0
    ensures s[..36] == header
  {
    var e := Shortest(head);
    assert s[37..] == e;
    assert forall i :: 0 <= i < 24 ==> s[37 + i] == e[i];
    assert s[41..56] == head;
  }

  /** One endpoint and no more: it is accepted exactly if its link type is 0 to 6, its direction 0 or
      1, and its device type no reserved one, which are 2 and more on a PDM link and 5 and more on SSP. */
  lemma AcceptedExactly(header: seq<Byte>, head: seq<Byte>)
    requires |header| == 36 && |head| == 15
    ensures InGrammar(OneEndpoint(header, 1, head))
       <==> head[0] <= 6 && head[13] <= 1 && (head[0] == 2 ==> head[12] <= 1) && (head[0] == 3 ==> head[12] <= 4)
  {
    var s := OneEndpoint(header, 1, head);
    Layout(header, 1, head, s);
    ShortestParses(head);
    AcceptsExactlyGrammar(s);
    assert s[36 + 1..] == Shortest(head);
    OneParses(s, Shortest(head), Endpoint(head, [], [], NoDevices));
  }

  lemma ShortestParses(head: seq<Byte>)
    requires |head| == 15
    ensures ParseEndpoint(Shortest(head)) == Parsed(Endpoint(head, [], [], NoDevices), [])
  {
    var s, payload: seq<Byte> := Shortest(head), [0, 0, 0, 0, 0];
    assert s[..24] == s && s[24..] == [] && s[4..19] == head && s[19..] == payload;
    assert payload[4..4] == [] && payload[4..] == [0] && [0 as Byte][1..] == [];
    assert ParsePayload(head, payload) == Some(Endpoint(head, [], [], NoDevices));
  }

  lemma OneParses(s: seq<Byte>, e: seq<Byte>, endpoint: Endpoint)
    requires |s| > 36 && s[36] == 1 && s[36 + 1..] == e && ParseEndpoint(e) == Parsed(endpoint, [])
    ensures ParseTable(s) == Some(Table(s[..36], [endpoint], NoOed))
    ensures Accepts(s) <==> |endpoint.head| == 15 && Legal(endpoint)
  {
    assert ParseEndpoints(0, []) == Parsed([], []);
    assert ParseEndpoints(1, e) == Parsed([endpoint] + [], []);
    var es := [endpoint];
    assert es + [] == es && es[1..] == [] && es[0] == endpoint;
    assert LegalEndpoints(es) <==> |endpoint.head| == 15 && Legal(endpoint);
  }

  /** Two endpoints announced and one there: it is dumped, descriptor and config, before the dump stops. */
  lemma SecondMissing(header: seq<Byte>, head: seq<Byte>)
    requires |header| == 36 && |head| == 15
    ensures TableDump(OneEndpoint(header, 2, head)) == [Visit(Descriptor, 37, 61), Visit(ConfigData, 60, 60)]
  {
    var s := OneEndpoint(header, 2, head);
    Layout(header, 2, head, s);
    var v, w := Visit(Descriptor, 37, 61), Visit(ConfigData, 60, 60);
    assert ConfigDump(s, 61, 56, [v]) == Dumped(60, [v] + [w]);
    assert FormatsDump(s, 61, 60, [v] + [w]) == Dumped(61, [v] + [w]);
    assert EndpointDump(s, 37, []) == [v] + [w];
    assert LoopDump(s, 1, 61, [v] + [w]) == Looped(true, 61, [v] + [w]);
    assert LoopDump(s, 2, 37, []) == Looped(true, 61, [v] + [w]);
  }
}
