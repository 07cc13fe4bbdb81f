/**
 The clones of the RSDT, XSDT, FADT and RSDP that fwts_acpica_init hands to ACPICA
 (src/libfwtsacpica/fwts_acpica.c).  Entries are w bytes wide: 4 in an RSDT, 8 in an XSDT.
 */
module TableClone {
  import opened Bytes
  import opened Checksum

  const ACPI_HEADER := 36

  /** What a search for a loaded table by its address gives. */
  datatype Found = Failed | Missing | Found(name: string, data: nat)

  // ---------- Entries of w bytes ----------

  function Pow(w: nat): (p: nat)
    ensures p > 0
  {
    if w == 0 then 1 else 0x100 * Pow(w - 1)
  }

  /** What w bytes keep of a value. */
  function Kept(w: nat, v: nat): nat {
    if w == 0 then 0 else v % 0x100 + 0x100 * Kept(w - 1, v / 0x100)
  }

  lemma {:induction false} DecEnc(w: nat, v: nat)
    ensures DecLe(EncLe(w, v)) == Kept(w, v)
    decreases w
  {
    if w > 0 {
      DecEnc(w - 1, v / 0x100);
      assert EncLe(w, v)[1..] == EncLe(w - 1, v / 0x100);
    }
  }

  /** Storing a value in w bytes keeps it modulo 256^w. */
  lemma {:induction false} KeptIsModulo(w: nat, v: nat)
    ensures Kept(w, v) == v % Pow(w)
    decreases w
  {
    if w > 0 {
      KeptIsModulo(w - 1, v / 0x100);
      SplitMod(v, Pow(w - 1));
    }
  }

  lemma SplitMod(v: nat, m: nat)
    requires m > 0
    ensures v % 0x100 + 0x100 * (v / 0x100 % m) == v % (0x100 * m)
  {
    var q, r := v / 0x100 / m, v / 0x100 % m;
    assert v / 0x100 == q * m + r;
    var low := v % 0x100 + 0x100 * r;
    assert v == q * (0x100 * m) + low;
    assert 0 <= low < 0x100 * m by {
      assert r <= m - 1;
    }
    ModOf(v, 0x100 * m, q, low);
  }

  lemma ModOf(v: nat, m: nat, q: nat, r: nat)
    requires m > 0 && v == q * m + r && r < m
    ensures v % m == r
  {
    var d := v / m - q;
    assert v % m - r == -(d * m);
    MulGrows(d, m);
  }

  lemma MulGrows(d: int, m: nat)
    ensures d >= 1 ==> d * m >= m
    ensures d <= -1 ==> d * m <= -(m as int)
  {
    if d >= 1 {
      assert d * m == (d - 1) * m + m;
    } else if d <= -1 {
      assert d * m == (d + 1) * m - m;
    }
  }

  // ---------- What the clone holds ----------

  /** strncmp over the length of prefix. */
  predicate Starts(name: string, prefix: string) { |name| >= |prefix| && name[..|prefix|] == prefix }

  /** Where entry k of an array of entries behind the header starts. */
  function Pos(w: nat, k: nat): nat {
    if k == 0 then ACPI_HEADER else Pos(w, k - 1) + w
  }

  lemma {:induction false} PosIs(w: nat, k: nat)
    ensures Pos(w, k) == 36 + k * w
    decreases k
  {
    if k > 0 {
      PosIs(w, k - 1);
      assert k * w == (k - 1) * w + w;
    }
  }

  lemma {:induction false} PosGrows(w: nat, j: nat, n: nat)
    requires j <= n
    ensures Pos(w, j) <= Pos(w, n) && (j < n ==> Pos(w, j) + w == Pos(w, j + 1) <= Pos(w, n))
    decreases n
  {
    if j < n {
      PosGrows(w, j, n - 1);
    }
  }

  function EntryAt(s: seq<Byte>, at: nat, w: nat): nat
    requires at + w <= |s|
  {
    DecLe(s[at..at + w])
  }

  /** The images of the first n entries in order; unknown tables and the RSDP are dropped. */
  function Images(table: seq<Byte>, w: nat, n: nat, find: nat -> Found, fadt: nat): seq<nat>
    requires Pos(w, n) <= |table|
    decreases n
  {
    if n == 0 then []
    else
      var before, f := Images(table, w, n - 1, find, fadt), find(EntryAt(table, Pos(w, n - 1), w));
      if !f.Found? || Starts(f.name, "RSDP") then before
      else before + [if Starts(f.name, "FACP") then fadt else f.data]
  }

  // ---------- Entry by entry ----------

  /** Entry k is found, and is not an RSDP. */
  predicate Copied(table: seq<Byte>, w: nat, k: nat, find: nat -> Found) {
    && Pos(w, k) + w <= |table|
    && var f := find(EntryAt(table, Pos(w, k), w));
       f.Found? && !(|f.name| >= 4 && f.name[..4] == "RSDP")
  }

  function CopiedBefore(table: seq<Byte>, w: nat, n: nat, find: nat -> Found): set<nat> {
    set k: nat | k < n && Copied(table, w, k, find)
  }

  /** The address that the clone has for entry k: the cloned FADT's or the one that was found. */
  function Target(table: seq<Byte>, w: nat, k: nat, find: nat -> Found, fadt: nat): nat
    requires Copied(table, w, k, find)
  {
    var f := find(EntryAt(table, Pos(w, k), w));
    if |f.name| >= 4 && f.name[..4] == "FACP" then fadt else f.data
  }

  /** The clone's entry j is the address v, cut to w bytes. */
  predicate HoldsEntry(clone: seq<Byte>, w: nat, j: nat, v: nat) {
    Pos(w, j) + w <= |clone| && EntryAt(clone, Pos(w, j), w) == Kept(w, v)
  }

  /** Each entry that is copied stands behind those copied in front of it, and zeros behind the last. */
  ghost predicate CopiesEntries(clone: seq<Byte>, table: seq<Byte>, w: nat, n: nat, find: nat -> Found, fadt: nat) {
    && (forall k: nat :: k < n && Copied(table, w, k, find) ==>
          HoldsEntry(clone, w, |CopiedBefore(table, w, k, find)|, Target(table, w, k, find, fadt)))
    && forall i :: Pos(w, |CopiedBefore(table, w, n, find)|) <= i < |clone| ==> clone[i] == 0
  }

  lemma CopiedMore(table: seq<Byte>, w: nat, n: nat, find: nat -> Found)
    requires n > 0
    ensures |CopiedBefore(table, w, n, find)|
         == |CopiedBefore(table, w, n - 1, find)| + if Copied(table, w, n - 1, find) then 1 else 0
  {
    var k := n - 1;
    assert CopiedBefore(table, w, n, find)
        == CopiedBefore(table, w, k, find) + if Copied(table, w, k, find) then {k} else {};
  }

  lemma {:induction false} ImagesAre(table: seq<Byte>, w: nat, n: nat, find: nat -> Found, fadt: nat)
    requires Pos(w, n) <= |table|
    ensures |Images(table, w, n, find, fadt)| == |CopiedBefore(table, w, n, find)|
    ensures forall k: nat :: k < n && Copied(table, w, k, find) ==>
              && |CopiedBefore(table, w, k, find)| < |CopiedBefore(table, w, n, find)|
              && Images(table, w, n, find, fadt)[|CopiedBefore(table, w, k, find)|] == Target(table, w, k, find, fadt)
    decreases n
  {
    if n == 0 {
      assert CopiedBefore(table, w, 0, find) == {};
    } else {
      ImagesAre(table, w, n - 1, find, fadt);
      CopiedMore(table, w, n, find);
    }
  }

  lemma {:induction false} HoldsAt(clone: seq<Byte>, w: nat, images: seq<nat>, j: nat)
    requires Pos(w, |images|) <= |clone| && HoldsImages(clone, w, images) && j < |images|
    ensures HoldsEntry(clone, w, j, images[j])
    decreases |images|
  {
    PosGrows(w, j, |images|);
    if j < |images| - 1 {
      HoldsAt(clone, w, images[..|images| - 1], j);
    }
  }

  /** What the loop computes, entry by entry. */
  lemma ClonesCopyEntries(clone: seq<Byte>, table: seq<Byte>, w: nat, n: nat, find: nat -> Found, fadt: nat)
    requires Pos(w, n) <= |table| && Clones(clone, table, w, Images(table, w, n, find, fadt))
    ensures CopiesEntries(clone, table, w, n, find, fadt)
  {
    var images := Images(table, w, n, find, fadt);
    ImagesAre(table, w, n, find, fadt);
    forall k: nat | k < n && Copied(table, w, k, find)
      ensures HoldsEntry(clone, w, |CopiedBefore(table, w, k, find)|, Target(table, w, k, find, fadt))
    {
      HoldsAt(clone, w, images, |CopiedBefore(table, w, k, find)|);
    }
  }

  /** The search for entry k does not fail. */
  predicate EntrySearched(table: seq<Byte>, w: nat, k: nat, find: nat -> Found) {
    Pos(w, k) + w <= |table| ==> find(EntryAt(table, Pos(w, k), w)) != Failed
  }

  predicate Searched(table: seq<Byte>, w: nat, n: nat, find: nat -> Found) {
    forall k: nat :: k < n ==> EntrySearched(table, w, k, find)
  }

  /** The entries are the images, cut to w bytes. */
  predicate HoldsImages(clone: seq<Byte>, w: nat, images: seq<nat>)
    requires Pos(w, |images|) <= |clone|
    decreases |images|
  {
    images != [] ==>
      var n := |images| - 1;
      EntryAt(clone, Pos(w, n), w) == Kept(w, images[n]) && HoldsImages(clone, w, images[..n])
  }

  ghost predicate CopiesHeader(clone: seq<Byte>, table: seq<Byte>) {
    && |clone| == |table| >= 36
    && forall i :: 0 <= i < 36 && i != 9 ==> clone[i] == table[i]
  }

  /** A clone of table but for the checksum: header, images and zeros. */
  ghost predicate Clones(clone: seq<Byte>, table: seq<Byte>, w: nat, images: seq<nat>) {
    && CopiesHeader(clone, table) && Pos(w, |images|) <= |clone|
    && HoldsImages(clone, w, images)
    && forall i :: Pos(w, |images|) <= i < |clone| ==> clone[i] == 0
  }

  lemma {:induction false} HoldsSame(a: seq<Byte>, b: seq<Byte>, w: nat, images: seq<nat>)
    requires Pos(w, |images|) <= |a| && Pos(w, |images|) <= |b| && HoldsImages(a, w, images)
    requires forall i :: ACPI_HEADER <= i < Pos(w, |images|) ==> a[i] == b[i]
    ensures HoldsImages(b, w, images)
    decreases |images|
  {
    if images != [] {
      var n := |images| - 1;
      PosGrows(w, 0, n);
      assert a[Pos(w, n)..Pos(w, n) + w] == b[Pos(w, n)..Pos(w, n) + w];
      HoldsSame(a, b, w, images[..n]);
    }
  }

  /** One more entry stored behind those of the clone. */
  lemma ClonesMore(was: seq<Byte>, clone: seq<Byte>, table: seq<Byte>, w: nat, images: seq<nat>, at: nat, v: nat)
    requires Clones(was, table, w, images) && at == Pos(w, |images|)
    requires at + w <= |clone| == |was|
    requires forall i :: 0 <= i < |clone| && !(at <= i < at + w) ==> clone[i] == was[i]
    requires EntryAt(clone, at, w) == Kept(w, v)
    ensures Clones(clone, table, w, images + [v])
  {
    PosGrows(w, 0, |images|);
    HoldsSame(was, clone, w, images);
  }

  // ---------- Cloning ----------

  /** The stored checksum is made to balance the table; nothing else changes. */
  method Repair(clone: array<Byte>)
    requires clone.Length > HEADER_CHECKSUM
    modifies clone
    ensures forall i :: 0 <= i < clone.Length && i != 9 ==> clone[i] == old(clone[i])
    ensures Sum(clone[..]) % 0x100 == 0
  {
    clone[HEADER_CHECKSUM] := 0;
    ghost var before := clone[..];
    var sum := AcpiUtChecksum(clone, clone.Length);
    assert clone[..clone.Length] == before;
    var balance := (0 - sum as int) % 0x100;
    clone[HEADER_CHECKSUM] := balance;
    assert clone[..] == before[HEADER_CHECKSUM := balance];
    BalanceIsUnique(before, HEADER_CHECKSUM, balance);
    assert Balances(before, HEADER_CHECKSUM, balance);
  }

  /**
   Fails exactly when the search for some entry fails.  Otherwise the clone holds the images of
   the entries in order, is zero behind them, and sums to zero.
   */
  method CloneTable(table: seq<Byte>, w: nat, find: nat -> Found, fadt: nat) returns (ok: bool, clone: array<Byte>)
    requires w == 4 || w == 8
    requires ACPI_HEADER <= |table| < WORD32
    ensures fresh(clone)
    ensures var n := (|table| - ACPI_HEADER) / w;
            && Pos(w, n) <= |table|
            && (ok <==> Searched(table, w, n, find))
            && (ok ==> CopiesHeader(clone[..], table) && CopiesEntries(clone[..], table, w, n, find, fadt))
            && (ok ==> Sum(clone[..]) % 0x100 == 0)
  {
    clone := new Byte[|table|](i => 0);
    forall i | 0 <= i < ACPI_HEADER {
      clone[i] := table[i];
    }
    var n := (|table| - ACPI_HEADER) / w;
    EntriesFit(table, w, n);
    ok := CopyEntries(clone, table, w, n, find, fadt);
    if ok {
      ghost var was := clone[..];
      Repair(clone);
      RepairedClones(was, clone[..], table, w, Images(table, w, n, find, fadt));
      ClonesCopyEntries(clone[..], table, w, n, find, fadt);
    }
  }

  lemma EntriesFit(table: seq<Byte>, w: nat, n: nat)
    requires |table| >= ACPI_HEADER && w > 0 && n == (|table| - ACPI_HEADER) / w
    ensures Pos(w, n) <= |table|
  {
    PosIs(w, n);
  }

  lemma RepairedClones(was: seq<Byte>, clone: seq<Byte>, table: seq<Byte>, w: nat, images: seq<nat>)
    requires Clones(was, table, w, images) && |clone| == |was|
    requires forall i :: 0 <= i < |was| && i != HEADER_CHECKSUM ==> clone[i] == was[i]
    ensures Clones(clone, table, w, images)
  {
    PosGrows(w, 0, |images|);
    HoldsSame(was, clone, w, images);
  }

  /** The loop over the n entries of table. */
  method CopyEntries(clone: array<Byte>, table: seq<Byte>, w: nat, n: nat, find: nat -> Found, fadt: nat) returns (ok: bool)
    requires Pos(w, n) <= |table| && Clones(clone[..], table, w, [])
    modifies clone
    ensures ok <==> Searched(table, w, n, find)
    ensures ok ==> Clones(clone[..], table, w, Images(table, w, n, find, fadt))
    ensures ok ==> CopiesHeader(clone[..], table) && CopiesEntries(clone[..], table, w, n, find, fadt)
  {
    ghost var images := [];
    var i, j := 0, 0;
    ok := true;
    while ok && i < n
      invariant 0 <= i <= n && Pos(w, i) <= |table|
      invariant ok ==> Searched(table, w, i, find) && j == |images| && images == Images(table, w, i, find, fadt)
      invariant ok ==> Clones(clone[..], table, w, images)
      invariant !ok ==> !Searched(table, w, n, find)
    {
      PosGrows(w, i, n);
      ok, j, images := CopyEntry(clone, table, w, i, Pos(w, i), j, find, fadt, images);
      SearchedMore(table, w, i, n, find);
      i := i + 1;
    }
    if ok {
      ClonesCopyEntries(clone[..], table, w, n, find, fadt);
    }
  }

  lemma SearchedMore(table: seq<Byte>, w: nat, i: nat, n: nat, find: nat -> Found)
    requires i < n && Searched(table, w, i, find)
    ensures Searched(table, w, i + 1, find) <==> EntrySearched(table, w, i, find)
    ensures !EntrySearched(table, w, i, find) ==> !Searched(table, w, n, find)
  {
  }

  /** One entry: it fails if its search does, and otherwise is dropped, redirected or stored behind
      the j entries that the clone has. */
  method CopyEntry(clone: array<Byte>, table: seq<Byte>, w: nat, i: nat, at: nat, j: nat, find: nat -> Found, fadt: nat,
                   ghost images: seq<nat>)
    returns (ok: bool, j': nat, ghost images': seq<nat>)
    requires at == Pos(w, i) && at + w == Pos(w, i + 1) <= |table|
    requires images == Images(table, w, i, find, fadt) && j == |images| && Clones(clone[..], table, w, images)
    modifies clone
    ensures ok <==> EntrySearched(table, w, i, find)
    ensures ok ==> images' == Images(table, w, i + 1, find, fadt) && j' == |images'| && Clones(clone[..], table, w, images')
  {
    var f := find(EntryAt(table, at, w));
    ok, j', images' := f != Failed, j, images;
    if f.Found? && !Starts(f.name, "RSDP") {
      var v := if Starts(f.name, "FACP") then fadt else f.data;
      ImagesBound(table, w, i, find, fadt);
      PosGrows(w, j, i + 1);
      images' := StoreEntry(clone, table, w, images, Pos(w, j), v);
      j' := j + 1;
    }
  }

  lemma {:induction false} ImagesBound(table: seq<Byte>, w: nat, n: nat, find: nat -> Found, fadt: nat)
    requires Pos(w, n) <= |table|
    ensures |Images(table, w, n, find, fadt)| <= n
    decreases n
  {
    if n > 0 {
      ImagesBound(table, w, n - 1, find, fadt);
    }
  }

  method StoreEntry(clone: array<Byte>, table: seq<Byte>, w: nat, ghost images: seq<nat>, at: nat, v: nat)
    returns (ghost more: seq<nat>)
    requires Clones(clone[..], table, w, images) && at == Pos(w, |images|) && at + w <= clone.Length
    modifies clone
    ensures more == images + [v] && Clones(clone[..], table, w, more)
  {
    ghost var was := clone[..];
    Store(clone, at, w, v);
    ClonesMore(was, clone[..], table, w, images, at, v);
    more := images + [v];
  }

  /** An assignment to one entry. */
  method Store(a: array<Byte>, at: nat, w: nat, v: nat)
    requires at + w <= a.Length
    modifies a
    ensures forall i :: 0 <= i < a.Length && !(at <= i < at + w) ==> a[i] == old(a[i])
    ensures a[..][at..at + w] == EncLe(w, v) && EntryAt(a[..], at, w) == Kept(w, v)
  {
    var bytes := EncLe(w, v);
    forall k | at <= k < at + w {
      a[k] := bytes[k - at];
    }
    assert a[..][at..at + w] == bytes;
    DecEnc(w, v);
  }

  /**
   The checksum byte of an RSDP clone is part of the sum that it is computed from.  The first 20
   bytes balance exactly when that byte was zero in the first place.  The extended checksum stays
   as it was although an address changes: all 36 bytes balance exactly when what stands behind
   the first 20 makes up for the checksum byte.
   */
  method CloneRsdp(table: seq<Byte>, rsdt: nat, xsdt: nat) returns (clone: array<Byte>)
    requires |table| == 20 || |table| >= 36
    ensures fresh(clone) && RsdpPoints(clone[..], table, rsdt, xsdt)
    ensures Sum(clone[..20]) % 0x100 == 0 <==> table[8] == 0
    ensures |table| >= 36 ==>
              (Sum(clone[..36]) % 0x100 == 0
               <==> (Sum(table[20..24]) + Sum(EncLe(8, xsdt)) + Sum(table[32..36]) - table[8]) % 0x100 == 0)
  {
    clone := new Byte[|table|](i requires 0 <= i < |table| => table[i]);
    if |table| > 20 {
      Store(clone, 24, 8, xsdt);
    }
    ghost var was := clone[..];
    Store(clone, 16, 4, rsdt);
    assert |table| > 20 ==> clone[..][24..32] == was[24..32];
    ghost var filled := clone[..];
    RepairRsdp(clone);
    assert clone[..][16..20] == filled[16..20];
    assert |table| > 20 ==> clone[..][24..32] == filled[24..32];
    if |table| >= RSDP_LENGTH {
      ExtendedSum(clone[..], table, xsdt);
    }
  }

  /** The sum of 36 bytes by its parts. */
  lemma ExtendedSum(clone: seq<Byte>, table: seq<Byte>, xsdt: nat)
    requires |clone| == |table| >= RSDP_LENGTH && clone[24..32] == EncLe(8, xsdt)
    requires forall i :: 0 <= i < |table| && i != RSDP_CHECKSUM && !(16 <= i < 20) && !(24 <= i < 32) ==> clone[i] == table[i]
    ensures Sum(clone[..RSDP_LENGTH])
         == Sum(clone[..RSDP_V1_LENGTH]) + Sum(table[20..24]) + Sum(EncLe(8, xsdt)) + Sum(table[32..36])
  {
    var a, b, c, d := clone[..RSDP_V1_LENGTH], table[20..24], clone[24..32], table[32..36];
    assert clone[..RSDP_LENGTH] == a + b + c + d;
    SumAppends(a + b + c, d);
    SumAppends(a + b, c);
    SumAppends(a, b);
  }

  /** The copy but for its checksum byte: only the two addresses are replaced. */
  ghost predicate RsdpPoints(clone: seq<Byte>, table: seq<Byte>, rsdt: nat, xsdt: nat)
    requires |table| == 20 || |table| >= 36
  {
    && |clone| == |table|
    && (forall i :: 0 <= i < |table| && i != 8 && !(16 <= i < 20) && !(24 <= i < 32) ==> clone[i] == table[i])
    && EntryAt(clone, 16, 4) == Kept(4, rsdt)
    && (|table| > 20 ==> EntryAt(clone, 24, 8) == Kept(8, xsdt))
  }

  method RepairRsdp(clone: array<Byte>)
    requires clone.Length >= RSDP_V1_LENGTH
    modifies clone
    ensures forall i :: 0 <= i < clone.Length && i != RSDP_CHECKSUM ==> clone[i] == old(clone[i])
    ensures (Sum(clone[..RSDP_V1_LENGTH]) + old(clone[RSDP_CHECKSUM])) % 0x100 == 0
  {
    ghost var before := clone[..RSDP_V1_LENGTH];
    var sum := AcpiUtChecksum(clone, RSDP_V1_LENGTH);
    var balance := (0 - sum as int) % 0x100;
    clone[RSDP_CHECKSUM] := balance;
    assert clone[..RSDP_V1_LENGTH] == before[RSDP_CHECKSUM := balance];
    SumWith(before, RSDP_CHECKSUM, balance);
  }

  lemma {:induction false} SumOfZeros(s: seq<Byte>)
    requires forall i :: 0 <= i < |s| ==> s[i] == 0
    ensures Sum(s) == 0
    decreases |s|
  {
    if s != [] {
      SumOfZeros(s[1..]);
    }
  }

  /** An RSDP whose two sums are right although its checksum byte is not zero. */
  lemma RightRsdp(zeros: seq<Byte>, table: seq<Byte>)
    requires |zeros| == RSDP_LENGTH && forall i :: 0 <= i < |zeros| ==> zeros[i] == 0
    requires table == zeros[0 := 1][RSDP_CHECKSUM := 0xff]
    ensures Sum(table[..RSDP_V1_LENGTH]) % 0x100 == 0 && Sum(table) % 0x100 == 0
    ensures Sum(table[20..24]) == Sum(table[32..36]) == 0
  {
    SumOfZeros(zeros);
    SumWith(zeros, 0, 1);
    SumWith(zeros[0 := 1], RSDP_CHECKSUM, 0xff);
    SumAppends(table[..20], table[20..]);
    assert table[..20] + table[20..] == table;
    SumOfZeros(table[20..]);
    SumOfZeros(table[20..24]);
    SumOfZeros(table[32..36]);
  }

  /** Neither sum of its clone is. */
  method RightRsdpClonedWrong() returns (table: seq<Byte>, clone: array<Byte>)
    ensures |table| == RSDP_LENGTH && RsdpPoints(clone[..], table, 0, 0)
    ensures Sum(table[..RSDP_V1_LENGTH]) % 0x100 == 0 && Sum(table) % 0x100 == 0
    ensures Sum(clone[..RSDP_V1_LENGTH]) % 0x100 != 0 && Sum(clone[..]) % 0x100 != 0
  {
    var zeros: seq<Byte> := seq(RSDP_LENGTH, _ => 0);
    table := zeros[0 := 1][RSDP_CHECKSUM := 0xff];
    RightRsdp(zeros, table);
    SumOfZeros(EncLe(8, 0));
    clone := CloneRsdp(table, 0, 0);
    assert clone[..RSDP_LENGTH] == clone[..];
  }
}
