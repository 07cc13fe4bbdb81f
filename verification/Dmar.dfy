/**
 Device scopes of a DMAR table (src/acpi/dmar/dmar.c; section 8.3.1 of the Intel VT-d
 specification).  The PCI configuration space is a function from segment, bus, device and
 function; mem gives the bytes from the start of the table on.
 */
module Dmar {
  import opened Bytes
  import opened Walks
  import opened Wrappers

  const MIN_SCOPE_LEN := 8
  const SCOPE := 6

  /** What the configuration space of a device says; a bridge has a secondary bus. */
  datatype Device = Endpoint | Bridge(secondary: Byte)

  type Topology = (nat, Byte, Byte, Byte) -> Option<Device>

  // ---------- Resolving a path ----------

  /** All devices but the last are bridges, and each is looked up behind the one in front of it. */
  function Resolve(pci: Topology, seg: nat, bus: Byte, path: seq<(Byte, Byte)>): Option<Device>
    requires path != []
    decreases |path|
  {
    var device := pci(seg, bus, path[0].0, path[0].1);
    if |path| == 1 then device
    else
      match device
      case None => None
      case Some(Endpoint) => None
      case Some(Bridge(secondary)) => Resolve(pci, seg, secondary, path[1..])
  }

  /** The hops of the scope at an offset. */
  function PathOf(mem: nat -> Byte, at: nat): (path: seq<(Byte, Byte)>)
    requires mem(at + 1) >= MIN_SCOPE_LEN
    ensures |path| == (mem(at + 1) - SCOPE) / 2
  {
    seq((mem(at + 1) - SCOPE) / 2, i requires 0 <= i => (mem(at + SCOPE + 2 * i), mem(at + SCOPE + 2 * i + 1)))
  }

  /**
   A scope of type 1 leads to an endpoint and one of type 2 to a bridge; type 0 is not reserved
   by the code and may lead to either.
   */
  predicate ScopeOkIn(mem: nat -> Byte, pci: Topology, seg: nat, at: nat) {
    && mem(at + 1) >= MIN_SCOPE_LEN && mem(at) <= 2
    && var device := Resolve(pci, seg, mem(at + 5), PathOf(mem, at));
       device.Some? && (mem(at) == 1 ==> device.value.Endpoint?) && (mem(at) == 2 ==> device.value.Bridge?)
  }

  /** The segment is cut to eight bits on its way to the lookup. */
  predicate ScopeOk(mem: nat -> Byte, pci: Topology, seg: nat, at: nat) { ScopeOkIn(mem, pci, seg % 0x100, at) }

  /** Whatever the table and the devices, the scopes of a segment are judged by its own devices
      exactly if its number fits into eight bits. */
  lemma SegmentsBelow256(seg: nat)
    ensures (forall mem: nat -> Byte, pci: Topology, at: nat :: ScopeOk(mem, pci, seg, at) <==> ScopeOkIn(mem, pci, seg, at))
            <==> seg < 0x100
  {
    if seg >= 0x100 {
      OtherSegment(seg, k => if k == 0 then 1 else if k == 1 then 8 else 0, (s, _, _, _) => if s == seg then Some(Endpoint) else None);
    }
  }

  /** A scope of one hop, and a device that answers in its segment only: in a segment of 0x100 or
      more, a good scope is refused. */
  lemma OtherSegment(seg: nat, mem: nat -> Byte, pci: Topology)
    requires seg >= 0x100 && mem(0) == 1 && mem(1) == 8
    requires forall s: nat, bus: Byte, dev: Byte, fn: Byte :: pci(s, bus, dev, fn) == if s == seg then Some(Endpoint) else None
    ensures ScopeOkIn(mem, pci, seg, 0) && !ScopeOk(mem, pci, seg, 0)
  {
  }

  /** -1: no such device, 0: no bridge, 1: a bridge, whose secondary bus is returned. */
  method ReadPciDeviceSecondaryBusNumber(pci: Topology, seg: nat, bus: Byte, dev: Byte, fn: Byte, secBus: Byte)
    returns (kind: int, secBus': Byte)
    ensures var device := pci(seg % 0x100, bus, dev, fn);
            match device
            case None => kind == -1 && secBus' == secBus
            case Some(Endpoint) => kind == 0 && secBus' == secBus
            case Some(Bridge(secondary)) => kind == 1 && secBus' == secondary
  {
    var device := pci(seg % 0x100, bus, dev, fn);
    if device.None? {
      return -1, secBus;
    }
    if device.value.Endpoint? {
      return 0, secBus;
    }
    return 1, device.value.secondary;
  }

  /** The device behind the hops walked so far, as the loop remembers it. */
  ghost predicate At(device: Option<Device>, devType: int, bus: Byte) {
    match device
    case None => false
    case Some(Endpoint) => devType == 0
    case Some(Bridge(secondary)) => devType == 1 && bus == secondary
  }

  /** One hop is looked up on its bus; one hop more resolves from a bridge only, on its secondary bus. */
  lemma {:induction false} ResolveMore(pci: Topology, seg: nat, bus: Byte, path: seq<(Byte, Byte)>, hop: (Byte, Byte))
    requires path != []
    ensures Resolve(pci, seg, bus, [hop]) == pci(seg, bus, hop.0, hop.1)
    ensures Resolve(pci, seg, bus, path + [hop])
         == match Resolve(pci, seg, bus, path)
            case Some(Bridge(secondary)) => pci(seg, secondary, hop.0, hop.1)
            case _ => None
    decreases |path|
  {
    var device := pci(seg, bus, path[0].0, path[0].1);
    if |path| == 1 {
      assert (path + [hop])[1..] == [hop];
    } else if device.Some? && device.value.Bridge? {
      ResolveMore(pci, seg, device.value.secondary, path[1..], hop);
      assert (path + [hop])[1..] == path[1..] + [hop];
    }
  }

  /** A scope of ten bytes has two hops: its type in byte 0, its bus in byte 5, and a device and a
      function for each hop behind it. */
  lemma TwoHops(mem: nat -> Byte, pci: Topology, seg: nat, at: nat)
    requires mem(at + 1) == 10
    ensures ScopeOkIn(mem, pci, seg, at)
       <==> && mem(at) <= 2
            && match pci(seg, mem(at + 5), mem(at + 6), mem(at + 7))
               case Some(Bridge(secondary)) =>
                 (match pci(seg, secondary, mem(at + 8), mem(at + 9))
                  case None => false
                  case Some(Endpoint) => mem(at) != 2
                  case Some(Bridge(_)) => mem(at) != 1)
               case _ => false
  {
    var path := PathOf(mem, at);
    assert path == [path[0]] + [path[1]];
    ResolveMore(pci, seg, mem(at + 5), [path[0]], path[1]);
  }

  /** What does not resolve does not resolve with more hops. */
  lemma {:induction false} ResolveLess(pci: Topology, seg: nat, bus: Byte, path: seq<(Byte, Byte)>, n: nat)
    requires 0 < n < |path|
    requires var device := Resolve(pci, seg, bus, path[..n]); device.None? || device.value.Endpoint?
    ensures Resolve(pci, seg, bus, path).None?
    decreases |path| - n
  {
    ResolveMore(pci, seg, bus, path[..n], path[n]);
    assert path[..n + 1] == path[..n] + [path[n]];
    if n + 1 < |path| {
      ResolveLess(pci, seg, bus, path, n + 1);
    } else {
      assert path[..n + 1] == path;
    }
  }

  method ParseOneDevScope(mem: nat -> Byte, pci: Topology, seg: nat, scope: nat) returns (ok: bool)
    ensures ok <==> ScopeOk(mem, pci, seg, scope)
  {
    var devType := mem(scope);
    if mem(scope + 1) < MIN_SCOPE_LEN {
      return false;
    }
    if devType >= 5 {
      return false;
    }
    if devType > 2 {
      return false;
    }
    var bus, secBus := mem(scope + 5), 0;
    var count := (mem(scope + 1) - SCOPE) / 2;
    ghost var path, n := PathOf(mem, scope), count;
    var next := scope + SCOPE;
    if count == 0 {
      return false;
    }
    var found: int := 1;
    while count > 0
      invariant 0 <= count <= n && next == scope + SCOPE + 2 * (n - count)
      invariant count == n ==> bus == mem(scope + 5) && found == 1
      invariant count < n ==> At(Resolve(pci, seg % 0x100, mem(scope + 5), path[..n - count]), found, bus)
      invariant found == 1 ==> count == n || bus == secBus
    {
      ghost var k := n - count;
      if found <= 0 {
        ResolveLess(pci, seg % 0x100, mem(scope + 5), path, k);
        return false;
      }
      var before := bus;
      found, secBus := ReadPciDeviceSecondaryBusNumber(pci, seg, bus, mem(next), mem(next + 1), secBus);
      assert path[k] == (mem(next), mem(next + 1));
      assert path[..k + 1] == path[..k] + [path[k]];
      if k > 0 {
        ResolveMore(pci, seg % 0x100, mem(scope + 5), path[..k], path[k]);
      }
      if found < 0 {
        if k + 1 < n {
          ResolveLess(pci, seg % 0x100, mem(scope + 5), path, k + 1);
        } else {
          assert path[..k + 1] == path;
        }
        return false;
      }
      next := next + 2;
      count := count - 1;
      bus := secBus;
    }
    assert path[..n] == path;
    if (devType == 1 && found > 0) || (devType == 2 && found == 0) {
      return false;
    }
    return true;
  }

  // ---------- A list of scopes ----------

  ghost function Step(mem: nat -> Byte, pci: Topology, seg: nat, end: nat): (nat, nat) -> bool {
    (a: nat, b: nat) => a < end && ScopeOk(mem, pci, seg, a) && b == a + mem(a + 1)
  }

  ghost function Behind(end: nat): nat -> bool { (a: nat) => a >= end }

  /** Good scopes lead from start to the end or past it; each is at least 8 bytes long. */
  method ParseDevScope(mem: nat -> Byte, pci: Topology, seg: nat, start: nat, end: nat) returns (ok: bool)
    ensures ok <==> exists run :: Run(Step(mem, pci, seg, end), Behind(end), start, run)
  {
    ghost var step := Step(mem, pci, seg, end);
    ghost var points: seq<nat> := [start];
    var scope: nat := start;
    while scope < end
      invariant Path(step, points) && points[0] == start && points[|points| - 1] == scope
    {
      ok := ParseOneDevScope(mem, pci, seg, scope);
      if !ok {
        DeadEnd(step, Behind(end), points);
        return false;
      }
      scope := scope + mem(scope + 1);
      PathMore(step, points, scope);
      points := points + [scope];
    }
    assert Run(step, Behind(end), start, points);
    return true;
  }
}
