/**
 The SMBIOS part of an NFIT table (src/acpi/nfit/nfit.c): a list of structures, each a formatted
 area and a set of strings that ends in two zero bytes (section 6.1 of DSP0134).
 */
module Nfit {
  import opened Bytes
  import opened Walks

  const DMI_HEADER := 4

  // ---------- Tilings ----------

  predicate DoubleZero(s: seq<Byte>, t: nat)
    requires t + 2 <= |s|
  {
    s[t] == 0 && s[t + 1] == 0
  }

  /**
   s[a..b] is an entry: a formatted area and then everything up to and with the first two zero
   bytes; the last two bytes of the region end an entry whatever their values.
   */
  predicate Entry(s: seq<Byte>, a: nat, b: nat) {
    && a + DMI_HEADER + 2 <= b <= |s|
    && DMI_HEADER <= s[a + 1] <= b - 2 - a
    && (b == |s| || DoubleZero(s, b - 2))
    && forall t :: a + s[a + 1] <= t < b - 2 ==> !DoubleZero(s, t)
  }

  ghost function Step(s: seq<Byte>): (nat, nat) -> bool { (a: nat, b: nat) => Entry(s, a, b) }

  ghost function AtEnd(s: seq<Byte>): nat -> bool { (a: nat) => a == |s| }

  /** Entries lead from the start of the region over these points to its end. */
  ghost predicate Tiles(s: seq<Byte>, points: seq<nat>) { Run(Step(s), AtEnd(s), 0, points) }

  lemma EntriesAreSteps(s: seq<Byte>)
    ensures Steps(Step(s), AtEnd(s))
  {
    forall a, b, c | Step(s)(a, b) && Step(s)(a, c) ensures b == c {
      assert Entry(s, a, b) && Entry(s, a, c);
    }
  }

  // ---------- The scan ----------

  /**
   True exactly when the region is tiled by entries; points are then their boundaries.  len and
   table are the remaining length and the position of scan_nfit_smbios, table as an offset into
   the region; every index read is proved to lie inside it.
   */
  method ScanNfitSmbios(s: seq<Byte>) returns (ok: bool, points: seq<nat>)
    ensures ok <==> exists run :: Tiles(s, run)
    ensures ok ==> Tiles(s, points)
  {
    EntriesAreSteps(s);
    var len: int, table: nat := |s|, 0;
    points := [0];
    while len > 4
      invariant len + table == |s|
      invariant if len < 0 then forall run :: !Tiles(s, run)
                else Path(Step(s), points) && points[0] == 0 && points[|points| - 1] == table
    {
      var length := s[table + 1];
      if length < 4 {
        DeadEnd(Step(s), AtEnd(s), points);
        return false, points;
      }
      ghost var start := table;
      len := len - length;
      table := table + length;
      while len > 2 && (s[table] != 0 || s[table + 1] != 0)
        invariant len + table == |s| && start + length <= table
        invariant table == start + length || 2 <= len
        invariant forall t :: start + length <= t < table ==> !DoubleZero(s, t)
      {
        table := table + 1;
        len := len - 1;
      }
      table := table + 2;
      len := len - 2;
      if len >= 0 {
        PathMore(Step(s), points, table);
        points := points + [table];
      } else {
        DeadEnd(Step(s), AtEnd(s), points);
      }
    }
    if len != 0 {
      if len > 0 {
        DeadEnd(Step(s), AtEnd(s), points);
      }
      return false, points;
    }
    assert Tiles(s, points);
    return true, points;
  }

  // ---------- Encoding ----------

  datatype Structure = Structure(formatted: seq<Byte>, strings: seq<seq<Byte>>)

  predicate StructureOk(r: Structure) {
    && DMI_HEADER <= |r.formatted| < 0x100 && r.formatted[1] == |r.formatted|
    && StringsOk(r.strings)
  }

  /** Strings are not empty and hold no NUL. */
  predicate StringsOk(strings: seq<seq<Byte>>) {
    forall i :: 0 <= i < |strings| ==> strings[i] != [] && 0 !in strings[i]
  }

  predicate StructuresOk(rs: seq<Structure>) { forall i :: 0 <= i < |rs| ==> StructureOk(rs[i]) }

  /** Each string with its NUL, and a NUL behind the last one. */
  function EncStrings(strings: seq<seq<Byte>>): (r: seq<Byte>)
    ensures |r| > 0
  {
    if strings == [] then [0] else strings[0] + [0] + EncStrings(strings[1..])
  }

  function EncStructure(r: Structure): seq<Byte> {
    r.formatted + if r.strings == [] then [0, 0] else EncStrings(r.strings)
  }

  function EncAll(rs: seq<Structure>): seq<Byte> {
    if rs == [] then [] else EncStructure(rs[0]) + EncAll(rs[1..])
  }

  /** The boundaries of the structures when the first one starts at a. */
  function Boundaries(rs: seq<Structure>, a: nat): seq<nat>
    decreases |rs|
  {
    [a] + if rs == [] then [] else Boundaries(rs[1..], a + |EncStructure(rs[0])|)
  }

  /** Two zero bytes stand at the end of a string area and nowhere before. */
  predicate Area(r: seq<Byte>) {
    |r| >= 2 && DoubleZero(r, |r| - 2) && forall t :: 0 <= t < |r| - 2 ==> !DoubleZero(r, t)
  }

  lemma {:induction false} StringsAreArea(strings: seq<seq<Byte>>)
    requires strings != [] && StringsOk(strings)
    ensures Area(EncStrings(strings)) && EncStrings(strings)[0] != 0
    decreases |strings|
  {
    if |strings| > 1 {
      StringsAreArea(strings[1..]);
    }
    StringAhead(strings[0], EncStrings(strings[1..]));
  }

  lemma StringAhead(first: seq<Byte>, rest: seq<Byte>)
    requires first != [] && 0 !in first
    requires rest == [0] || (Area(rest) && rest[0] != 0)
    ensures Area(first + [0] + rest) && (first + [0] + rest)[0] != 0
  {
    var r, n := first + [0] + rest, |first|;
    assert forall k :: 0 <= k < n ==> r[k] == first[k] && first[k] in first;
    assert r[n] == 0 && r[n + 1] == rest[0];
    assert forall k :: n < k < |r| ==> r[k] == rest[k - n - 1];
    forall t | 0 <= t < |r| - 2 ensures !DoubleZero(r, t) {
      if t > n {
        assert !DoubleZero(rest, t - n - 1);
      }
    }
    if rest != [0] {
      assert DoubleZero(rest, |rest| - 2);
    }
  }

  lemma AreaEndsEntry(s: seq<Byte>, a: nat, n: nat, b: nat)
    requires a + n <= b <= |s| && n >= DMI_HEADER && s[a + 1] == n && Area(s[a + n..b])
    ensures Entry(s, a, b)
  {
    var r := s[a + n..b];
    assert DoubleZero(r, |r| - 2) && r[|r| - 2] == s[b - 2] && r[|r| - 1] == s[b - 1];
    forall t | a + n <= t < b - 2 ensures !DoubleZero(s, t) {
      assert !DoubleZero(r, t - a - n);
    }
  }

  /** A structure in front of anything is an entry. */
  lemma StructureIsEntry(s: seq<Byte>, a: nat, r: Structure)
    requires StructureOk(r) && a + |EncStructure(r)| <= |s| && s[a..a + |EncStructure(r)|] == EncStructure(r)
    ensures Entry(s, a, a + |EncStructure(r)|)
  {
    var n, b := |r.formatted|, a + |EncStructure(r)|;
    assert s[a + 1] == s[a..b][1] == r.formatted[1];
    DropSlice(s, a, b, n);
    if r.strings == [] {
      Halves(r.formatted, [0, 0]);
    } else {
      Halves(r.formatted, EncStrings(r.strings));
      StringsAreArea(r.strings);
    }
    AreaEndsEntry(s, a, n, b);
  }

  lemma {:induction false} EncodedPath(s: seq<Byte>, a: nat, rs: seq<Structure>)
    requires a <= |s| && s[a..] == EncAll(rs) && StructuresOk(rs)
    ensures Run(Step(s), AtEnd(s), a, Boundaries(rs, a))
    decreases |rs|
  {
    if rs != [] {
      var b := a + |EncStructure(rs[0])|;
      FirstEncoded(s, a, rs, b);
      StructureIsEntry(s, a, rs[0]);
      EncodedPath(s, b, rs[1..]);
      RunAhead(Step(s), AtEnd(s), a, b, Boundaries(rs[1..], b));
    }
  }

  /** The first structure and what follows it. */
  lemma FirstEncoded(s: seq<Byte>, a: nat, rs: seq<Structure>, b: nat)
    requires a <= |s| && rs != [] && s[a..] == EncAll(rs) && b == a + |EncStructure(rs[0])|
    ensures b <= |s| && s[a..b] == EncStructure(rs[0]) && s[b..] == EncAll(rs[1..])
  {
    var e, tail := EncStructure(rs[0]), EncAll(rs[1..]);
    Halves(e, tail);
    assert s[a..][..|e|] == s[a..b];
    assert s[a..][|e|..] == s[b..];
  }

  /** The scan undoes the encoding: its boundaries are those of the structures and no others. */
  lemma ScanUndoesEncoding(rs: seq<Structure>, points: seq<nat>)
    requires StructuresOk(rs)
    ensures Tiles(EncAll(rs), points) <==> points == Boundaries(rs, 0)
  {
    var s := EncAll(rs);
    assert s[0..] == s;
    EncodedPath(s, 0, rs);
    EntriesAreSteps(s);
    if Tiles(s, points) {
      RunOnce(Step(s), AtEnd(s), 0, points, Boundaries(rs, 0));
    }
  }

  // ---------- Which accepted regions are encodings ----------

  ghost predicate Encodes(rs: seq<Structure>, s: seq<Byte>) { StructuresOk(rs) && EncAll(rs) == s }

  /** The region ends as the encoding of a structure does. */
  predicate Complete(s: seq<Byte>) { s == [] || (|s| >= 2 && DoubleZero(s, |s| - 2)) }

  /** A zero byte and then another one: an empty string in front of the others. */
  predicate EmptyFirst(r: seq<Byte>) { |r| >= 2 && r[0] == 0 && r[1] != 0 }

  /** The string area of the entry s[a..b] does not begin with an empty string. */
  predicate Plain(s: seq<Byte>, a: nat, b: nat) {
    Entry(s, a, b) ==> !EmptyFirst(s[a + s[a + 1]..b])
  }

  ghost predicate AllPlain(s: seq<Byte>, points: seq<nat>) {
    forall i, j :: 0 <= i && j == i + 1 < |points| ==> Plain(s, points[i], points[j])
  }

  function FirstZero(r: seq<Byte>): (n: nat)
    requires 0 in r
    ensures n < |r| && r[n] == 0 && 0 !in r[..n]
  {
    if r[0] == 0 then 0 else 1 + FirstZero(r[1..])
  }

  /** The strings of an area that is not empty. */
  function Split(r: seq<Byte>): seq<seq<Byte>>
    requires Area(r) && r[0] != 0
    decreases |r|
  {
    var n := FirstZero(r);
    AreaBehind(r, n);
    if n == |r| - 2 then [r[..n]] else [r[..n]] + Split(r[n + 1..])
  }

  lemma AreaBehind(r: seq<Byte>, n: nat)
    requires Area(r) && r[0] != 0 && n < |r| && r[n] == 0 && 0 !in r[..n]
    ensures 0 < n <= |r| - 2 && (n < |r| - 2 ==> Area(r[n + 1..]) && r[n + 1] != 0)
  {
    assert forall k :: 0 <= k < n ==> r[k] in r[..n];
    assert DoubleZero(r, |r| - 2);
    if n < |r| - 2 {
      assert !DoubleZero(r, n);
      var t := r[n + 1..];
      assert forall k :: 0 <= k < |t| ==> t[k] == r[k + n + 1];
      forall k | 0 <= k < |t| - 2 ensures !DoubleZero(t, k) {
        assert !DoubleZero(r, k + n + 1);
      }
    }
  }

  lemma {:induction false} SplitEncodes(r: seq<Byte>)
    requires Area(r) && r[0] != 0
    ensures EncStrings(Split(r)) == r && StringsOk(Split(r))
    decreases |r|
  {
    var n := FirstZero(r);
    AreaBehind(r, n);
    var first, tail := r[..n], r[n + 1..];
    assert r == first + [0] + tail;
    if n == |r| - 2 {
      OneMoreString(first, []);
      assert [first] + [] == [first] && tail == [0];
    } else {
      SplitEncodes(tail);
      OneMoreString(first, Split(tail));
    }
  }

  lemma OneMoreString(first: seq<Byte>, others: seq<seq<Byte>>)
    requires first != [] && 0 !in first && StringsOk(others)
    ensures StringsOk([first] + others) && EncStrings([first] + others) == first + [0] + EncStrings(others)
  {
    Halves([first], others);
    assert ([first] + others)[1..] == others;
  }

  /** The structure whose encoding the entry s[a..b] is. */
  lemma EntryDecodes(s: seq<Byte>, a: nat, b: nat) returns (r: Structure)
    requires Entry(s, a, b) && DoubleZero(s, b - 2) && Plain(s, a, b)
    ensures StructureOk(r) && EncStructure(r) == s[a..b]
  {
    EntryArea(s, a, b);
    r := Structured(s[a..a + s[a + 1]], s[a + s[a + 1]..b]);
    assert s[a..a + s[a + 1]] + s[a + s[a + 1]..b] == s[a..b];
  }

  /** A formatted area and a string area make a structure. */
  lemma Structured(formatted: seq<Byte>, area: seq<Byte>) returns (r: Structure)
    requires DMI_HEADER <= |formatted| < 0x100 && formatted[1] == |formatted|
    requires Area(area) && (area == [0, 0] || area[0] != 0)
    ensures StructureOk(r) && EncStructure(r) == formatted + area
  {
    if area == [0, 0] {
      r := Structure(formatted, []);
    } else {
      SplitEncodes(area);
      r := Structure(formatted, Split(area));
    }
  }

  lemma EntryArea(s: seq<Byte>, a: nat, b: nat)
    requires Entry(s, a, b) && DoubleZero(s, b - 2) && Plain(s, a, b)
    ensures var area := s[a + s[a + 1]..b]; Area(area) && (area == [0, 0] || area[0] != 0)
  {
    var m := a + s[a + 1];
    var area := s[m..b];
    assert forall k :: 0 <= k < |area| ==> area[k] == s[m + k];
    forall k | 0 <= k < |area| - 2 ensures !DoubleZero(area, k) {
      assert !DoubleZero(s, m + k);
    }
    if area[0] == 0 {
      assert DoubleZero(area, 0);
    }
  }

  lemma {:induction false} PathDecodes(s: seq<Byte>, points: seq<nat>) returns (rs: seq<Structure>)
    requires Path(Step(s), points) && points[|points| - 1] == |s| && Complete(s) && AllPlain(s, points)
    ensures points[0] <= |s| && Encodes(rs, s[points[0]..])
    decreases |points|
  {
    if |points| == 1 {
      rs := [];
    } else {
      var a, b, more := points[0], points[1], points[1..];
      assert Step(s)(a, b) && Plain(s, a, b);
      assert forall i :: 0 <= i < |more| ==> more[i] == points[i + 1];
      var r := EntryDecodes(s, a, b);
      var others := PathDecodes(s, more);
      rs := [r] + others;
      Halves([r], others);
      assert s[a..] == s[a..b] + s[b..];
    }
  }

  lemma {:induction false} EncodedIsPlain(s: seq<Byte>, a: nat, rs: seq<Structure>)
    requires a <= |s| && s[a..] == EncAll(rs) && StructuresOk(rs)
    ensures AllPlain(s, Boundaries(rs, a))
    decreases |rs|
  {
    if rs != [] {
      var b, others := a + |EncStructure(rs[0])|, rs[1..];
      FirstEncoded(s, a, rs, b);
      EncodedIsPlain(s, b, others);
      StructureIsPlain(s, a, b, rs[0]);
      var points, more := Boundaries(rs, a), Boundaries(others, b);
      assert points == [a] + more && more[0] == b;
      PlainAhead(s, a, b, more, points);
    }
  }

  lemma {:induction false} EncodedIsComplete(s: seq<Byte>, a: nat, rs: seq<Structure>)
    requires a <= |s| && s[a..] == EncAll(rs) && StructuresOk(rs) && rs != []
    ensures |s| >= 2 && DoubleZero(s, |s| - 2)
    decreases |rs|
  {
    var b, others := a + |EncStructure(rs[0])|, rs[1..];
    FirstEncoded(s, a, rs, b);
    StructureIsPlain(s, a, b, rs[0]);
    if others != [] {
      EncodedIsComplete(s, b, others);
    }
  }

  lemma PlainAhead(s: seq<Byte>, a: nat, b: nat, more: seq<nat>, points: seq<nat>)
    requires more != [] && more[0] == b && AllPlain(s, more) && Plain(s, a, b) && points == [a] + more
    ensures AllPlain(s, points)
  {
    forall i, j | 0 <= i && j == i + 1 < |points|
      ensures Plain(s, points[i], points[j])
    {
      if i > 0 {
        assert points[i] == more[i - 1] && points[j] == more[j - 1];
      }
    }
  }

  lemma StructureIsPlain(s: seq<Byte>, a: nat, b: nat, r: Structure)
    requires StructureOk(r) && a <= b <= |s| && s[a..b] == EncStructure(r)
    ensures b >= a + 2 && DoubleZero(s, b - 2) && Plain(s, a, b)
  {
    var n := |r.formatted|;
    assert s[a + 1] == s[a..b][1] == r.formatted[1];
    DropSlice(s, a, b, n);
    if r.strings == [] {
      Halves(r.formatted, [0, 0]);
    } else {
      Halves(r.formatted, EncStrings(r.strings));
      StringsAreArea(r.strings);
    }
    var area := s[a + n..b];
    assert Area(area) && !EmptyFirst(area);
    assert DoubleZero(area, |area| - 2) && area[|area| - 2] == s[b - 2] && area[|area| - 1] == s[b - 1];
  }

  /** An accepted region is the encoding of structures exactly when it is empty or ends in two
      zero bytes, and no string area begins with an empty string. */
  lemma DecodableExactly(s: seq<Byte>, points: seq<nat>)
    requires Tiles(s, points)
    ensures (exists rs :: Encodes(rs, s)) <==> Complete(s) && AllPlain(s, points)
  {
    if Complete(s) && AllPlain(s, points) {
      var rs := PathDecodes(s, points);
      assert s[0..] == s;
      assert Encodes(rs, s);
    }
    if exists rs :: Encodes(rs, s) {
      var rs :| Encodes(rs, s);
      assert s[0..] == s;
      EncodedIsPlain(s, 0, rs);
      if rs != [] {
        EncodedIsComplete(s, 0, rs);
      }
      ScanUndoesEncoding(rs, points);
    }
  }

  /** Every entry of an accepted region ends in two zero bytes exactly when the region does. */
  lemma CompleteExactly(s: seq<Byte>, points: seq<nat>)
    requires Tiles(s, points)
    ensures Complete(s) <==> forall i :: 0 < i < |points| ==> 2 <= points[i] <= |s| && DoubleZero(s, points[i] - 2)
  {
    forall i | 0 < i < |points|
      ensures 2 <= points[i] <= |s| && (points[i] == |s| || DoubleZero(s, points[i] - 2))
    {
      assert Step(s)(points[i - 1], points[i]);
    }
    var last := |points| - 1;
    assert points[last] == |s|;
    assert last > 0 ==> (Complete(s) <==> DoubleZero(s, points[last] - 2));
  }

  /** A region that ends in other bytes than zeros is accepted. */
  lemma UncheckedEnd()
    ensures Tiles([1, 4, 0, 0, 7, 7], [0, 6]) && !Complete([1, 4, 0, 0, 7, 7])
  {
    assert Entry([1, 4, 0, 0, 7, 7], 0, 6);
  }

  /** So is a complete one in which an empty string comes first; it is no encoding. */
  lemma EmptyStringAccepted()
    ensures var s := [1, 4, 0, 0, 0, 7, 0, 0];
            Tiles(s, [0, 8]) && Complete(s) && !exists rs :: Encodes(rs, s)
  {
    var s: seq<Byte> := [1, 4, 0, 0, 0, 7, 0, 0];
    assert !DoubleZero(s, 4) && !DoubleZero(s, 5);
    assert Entry(s, 0, 8);
    assert Tiles(s, [0, 8]);
    assert s[4..8][0] == 0 && s[4..8][1] == 7;
    assert !Plain(s, 0, 8);
    assert !AllPlain(s, [0, 8]) by {
      var points: seq<nat> := [0, 8];
      assert !Plain(s, points[0], points[1]);
    }
    DecodableExactly(s, [0, 8]);
  }
}
