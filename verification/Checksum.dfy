/** ACPI checksums: byte sums modulo 256 (src/acpi/checksum/checksum.c, src/lib/src/fwts_checksum.c, utcksum.c). */
module Checksum {
  import opened Bytes

  const HEADER_CHECKSUM := 9         // offset of the checksum in an ACPI table header
  const RSDP_CHECKSUM := 8
  const RSDP_EXTENDED_CHECKSUM := 32
  const RSDP_V1_LENGTH := 20
  const RSDP_LENGTH := 36

  // ---------- Sums ----------

  function Sum(s: seq<Byte>): nat {
    if s == [] then 0 else s[0] + Sum(s[1..])
  }

  /** Nothing sums to zero, and each byte counts once. */
  lemma SumMore(s: seq<Byte>, b: Byte)
    ensures Sum([]) == 0 && Sum(s + [b]) == Sum(s) + b
  {
    SumAppends(s, [b]);
  }

  lemma {:induction false} SumAppends(s: seq<Byte>, t: seq<Byte>)
    ensures Sum(s + t) == Sum(s) + Sum(t)
    decreases |s|
  {
    if s == [] {
      assert s + t == t;
    } else {
      SumAppends(s[1..], t);
      assert (s + t)[1..] == s[1..] + t;
    }
  }

  lemma {:induction false} SumWith(s: seq<Byte>, i: nat, v: Byte)
    requires i < |s|
    ensures Sum(s[i := v]) == Sum(s) - s[i] + v
    decreases i
  {
    if i == 0 {
      assert s[0 := v][1..] == s[1..];
    } else {
      SumWith(s[1..], i - 1, v);
      assert s[i := v][1..] == s[1..][i - 1 := v];
    }
  }

  /** With v at i the bytes sum to zero. */
  predicate Balances(s: seq<Byte>, i: nat, v: Byte)
    requires i < |s|
  {
    Sum(s[i := v]) % 0x100 == 0
  }

  /** The byte at i with which s sums to zero. */
  function Balance(s: seq<Byte>, i: nat): Byte
    requires i < |s|
  {
    (s[i] - Sum(s)) % 0x100
  }

  /** It is the only one. */
  lemma BalanceIsUnique(s: seq<Byte>, i: nat, v: Byte)
    requires i < |s|
    ensures Balances(s, i, v) <==> v == Balance(s, i)
  {
    SumWith(s, i, v);
  }

  // ---------- The two summing loops ----------

  method FwtsChecksum(data: seq<Byte>, length: nat) returns (checksum: Byte)
    requires length <= |data|
    ensures checksum == Sum(data[..length]) % 0x100
  {
    checksum := 0;
    var i := 0;
    while i < length
      invariant i <= length && checksum == Sum(data[..i]) % 0x100
    {
      SumAppends(data[..i], [data[i]]);
      assert data[..i + 1] == data[..i] + [data[i]];
      checksum := (checksum + data[i]) % 0x100;
      i := i + 1;
    }
  }

  method AcpiUtChecksum(buffer: array<Byte>, length: nat) returns (sum: Byte)
    requires length <= buffer.Length
    ensures sum == Sum(buffer[..length]) % 0x100
  {
    sum := 0;
    var p := 0;
    while p < length
      invariant p <= length && sum == Sum(buffer[..p]) % 0x100
    {
      SumAppends(buffer[..p], [buffer[p]]);
      assert buffer[..p + 1] == buffer[..p] + [buffer[p]];
      sum := (sum + buffer[p]) % 0x100;
      p := p + 1;
    }
  }

  // ---------- The checksum test ----------

  datatype Report = Correct | Incorrect(expected: Byte) | TooShort

  /** Correct if the bytes sum to zero, and else the one byte at i with which they would. */
  ghost predicate Judged(r: Report, s: seq<Byte>, i: nat)
    requires i < |s|
  {
    && (r == Correct <==> Sum(s) % 0x100 == 0)
    && (r != Correct ==>
          && r.Incorrect? && r.expected != s[i]
          && forall v: Byte :: Balances(s, i, v) <==> v == r.expected)
  }

  method Judge(data: seq<Byte>, length: nat, i: nat) returns (r: Report)
    requires i < length <= |data|
    ensures Judged(r, data[..length], i)
  {
    var checksum := FwtsChecksum(data, length);
    if checksum == 0 {
      r := Correct;
    } else {
      r := Incorrect((data[i] as int - checksum as int) % 0x100);
    }
    var s := data[..length];
    assert Balance(s, i) == (data[i] as int - checksum as int) % 0x100;
    forall v: Byte ensures Balances(s, i, v) <==> v == Balance(s, i) {
      BalanceIsUnique(s, i, v);
    }
    assert s[i := s[i]] == s;
    assert Balances(s, i, s[i]) <==> Sum(s) % 0x100 == 0;
  }

  /** The first 20 bytes are always judged, and all 36 when the revision says there is more than them. */
  ghost predicate JudgedRsdp(reports: seq<Report>, data: seq<Byte>) {
    if |data| < 20 then reports == [TooShort]
    else
      && |reports| == (if data[15] > 0 then 2 else 1)
      && Judged(reports[0], data[..20], 8)
      && (data[15] > 0 ==>
            if |data| < 36 then reports[1] == TooShort
            else Judged(reports[1], data[..36], 32))
  }

  method ChecksumRsdp(data: seq<Byte>) returns (reports: seq<Report>)
    ensures JudgedRsdp(reports, data)
  {
    if |data| < RSDP_V1_LENGTH {
      return [TooShort];
    }
    var first := Judge(data, RSDP_V1_LENGTH, RSDP_CHECKSUM);
    reports := [first];
    if data[15] > 0 {
      if |data| < RSDP_LENGTH {
        return [first, TooShort];
      }
      var second := Judge(data, RSDP_LENGTH, RSDP_EXTENDED_CHECKSUM);
      reports := [first, second];
    }
  }

  datatype TableInfo = TableInfo(name: string, data: seq<Byte>)

  /** Every loaded table but the RSDP and the FACS has a header. */
  predicate Loaded(t: TableInfo) { t.name != "RSDP" && t.name != "FACS" ==> |t.data| > 9 }

  /** What is reported of a table; the FACS has no checksum. */
  ghost predicate Reported(t: TableInfo, reports: seq<Report>)
    requires Loaded(t)
  {
    if t.name == "RSDP" then JudgedRsdp(reports, t.data)
    else if t.name == "FACS" then reports == []
    else |reports| == 1 && Judged(reports[0], t.data, 9)
  }

  method ChecksumScanTables(tables: seq<TableInfo>) returns (reports: seq<seq<Report>>)
    requires forall i :: 0 <= i < |tables| ==> Loaded(tables[i])
    ensures |reports| == |tables| && forall i :: 0 <= i < |tables| ==> Reported(tables[i], reports[i])
  {
    reports := [];
    for i := 0 to |tables|
      invariant |reports| == i && forall k :: 0 <= k < i ==> Reported(tables[k], reports[k])
    {
      var t, r := tables[i], [];
      if t.name == "RSDP" {
        r := ChecksumRsdp(t.data);
      } else if t.name != "FACS" {
        var one := Judge(t.data, |t.data|, HEADER_CHECKSUM);
        assert t.data[..|t.data|] == t.data;
        r := [one];
      }
      reports := reports + [r];
    }
  }
}
