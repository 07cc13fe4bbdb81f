/** Bytes, little-endian words and modular byte sums. */
module Bytes {
  type Byte = b: int | 0 <= b < 0x100

  newtype uint32 = x: int | 0 <= x < 0x1_0000_0000

  const WORD32 := 0x1_0000_0000

  // ---------- Little-endian words ----------

  /** The value of the first four bytes. */
  function Le32(s: seq<Byte>): (n: nat)
    requires |s| >= 4
    ensures n < WORD32
  {
    s[0] as int + 0x100 * s[1] as int + 0x1_0000 * s[2] as int + 0x100_0000 * s[3] as int
  }

  function Enc32(n: nat): (s: seq<Byte>)
    requires n < WORD32
    ensures |s| == 4
  {
    [n % 0x100, n / 0x100 % 0x100, n / 0x1_0000 % 0x100, n / 0x100_0000]
  }

  lemma EncLe32(n: nat, rest: seq<Byte>)
    requires n < WORD32
    ensures Le32(Enc32(n) + rest) == n
  {
    Digits(n);
    var s := Enc32(n) + rest;
    assert s[0] == Enc32(n)[0] && s[1] == Enc32(n)[1] && s[2] == Enc32(n)[2] && s[3] == Enc32(n)[3];
  }

  lemma Digits(n: nat)
    ensures n % 0x100 + 0x100 * (n / 0x100 % 0x100) + 0x1_0000 * (n / 0x1_0000 % 0x100) + 0x100_0000 * (n / 0x100_0000) == n
  {
    assert n / 0x1_0000 == n / 0x100 / 0x100;
    assert n / 0x100_0000 == n / 0x1_0000 / 0x100;
  }

  lemma LeEnc32(s: seq<Byte>)
    requires |s| >= 4
    ensures Enc32(Le32(s)) == s[..4]
  {
    var n: int, a: int, b: int, c: int, d: int := Le32(s), s[0], s[1], s[2], s[3];
    assert n / 0x100 == b + 0x100 * c + 0x1_0000 * d;
    assert n / 0x1_0000 == c + 0x100 * d;
  }

  // ---------- Little-endian numbers of w bytes ----------

  function EncLe(w: nat, v: nat): (s: seq<Byte>)
    ensures |s| == w
  {
    if w == 0 then [] else [v % 0x100] + EncLe(w - 1, v / 0x100)
  }

  function DecLe(s: seq<Byte>): nat {
    if s == [] then 0 else s[0] + 0x100 * DecLe(s[1..])
  }

  /** The low byte comes first. */
  lemma LowByteFirst(s: seq<Byte>)
    requires s != []
    ensures DecLe(s) % 0x100 == s[0] && DecLe(s) / 0x100 == DecLe(s[1..])
  {
    var high := DecLe(s[1..]);
    assert DecLe(s) == s[0] + 0x100 * high;
  }

  /** At four bytes they are the words above. */
  lemma FourBytes(n: nat, s: seq<Byte>)
    requires n < WORD32 && |s| == 4
    ensures EncLe(4, n) == Enc32(n) && DecLe(s) == Le32(s)
  {
    var a, b, c := n / 0x100, n / 0x1_0000, n / 0x100_0000;
    assert b == a / 0x100 && c == b / 0x100;
    assert EncLe(1, c) == [c];
    assert EncLe(2, b) == [b % 0x100] + EncLe(1, c);
    assert EncLe(3, a) == [a % 0x100] + EncLe(2, b);
    assert s[1..][1..] == s[2..] && s[2..][1..] == s[3..] && s[3..][1..] == [];
    assert DecLe(s[3..]) == s[3];
    assert DecLe(s[2..]) == s[2] + 0x100 * DecLe(s[3..]);
  }

  // ---------- Words in a memory and in a table ----------

  /** The word at an address of a memory. */
  function Word(mem: nat -> Byte, at: nat): (w: nat)
    ensures w < WORD32
  {
    Le32([mem(at), mem(at + 1), mem(at + 2), mem(at + 3)])
  }

  /** memcpy of a 32-bit word out of a table. */
  method ReadLe32(data: seq<Byte>, offset: uint32) returns (n: uint32)
    requires offset as int + 4 <= |data|
    ensures n as int == Le32(data[offset..])
  {
    n := Le32(data[offset..]) as uint32;
  }

  // ---------- Slices ----------

  lemma DropSlice<T>(s: seq<T>, a: nat, b: nat, k: nat)
    requires a + k <= b <= |s|
    ensures s[a..b][k..] == s[a + k..b]
    ensures s[a..b][..k] == s[a..a + k]
  {
  }

  lemma SubSlice<T>(s: seq<T>, a: nat, b: nat, c: nat, d: nat)
    requires c <= d && a + d <= b <= |s|
    ensures s[a..b][c..d] == s[a + c..a + d]
  {
    DropSlice(s, a, b, d);
    DropSlice(s, a, a + d, c);
    assert s[a..b][c..d] == s[a..b][..d][c..];
  }

  lemma Halves<T>(a: seq<T>, b: seq<T>)
    ensures (a + b)[..|a|] == a && (a + b)[|a|..] == b
  {
  }

  lemma Joined<T>(s: seq<T>, k: nat)
    requires k <= |s|
    ensures s[..k] + s[k..] == s
  {
  }
}
