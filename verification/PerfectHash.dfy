/**
 The collision-free table of logging functions (src/utilities/kernelscan.c): the djb2a hash,
 the search for the smallest collision-free size and the lookup.
 */
module PerfectHash {
  import opened Bytes
  import opened Wrappers

  const FIRST_SIZE := 50
  const TABLE_SIZE := 5000

  // ---------- djb2a ----------

  /** A char as a byte. */
  function Code(c: char): bv8 { (c as int % 0x100) as bv8 }

  /** A char converted to unsigned int; where char is signed, one of 0x80 or more is
      sign-extended to 32 bits. */
  function Widen(c: bv8, signedChar: bool): bv32 {
    if signedChar && c >= 0x80 then 0xffff_ff00 | (c as bv32) else c as bv32
  }

  /** One round of djb2a, in the arithmetic of unsigned int. */
  function Mix(hash: bv32, c: bv32): bv32 { ((hash << 5) + hash) ^ c }

  function HashFrom(hash: bv32, s: string, signedChar: bool): bv32
    decreases |s|
  {
    if s == [] then hash else HashFrom(Mix(hash, Widen(Code(s[0]), signedChar)), s[1..], signedChar)
  }

  function Djb2a(s: string, signedChar: bool): bv32 {
    HashFrom(5381, s, signedChar)
  }

  method ComputeDjb2a(s: string, signedChar: bool) returns (hash: bv32)
    ensures hash == Djb2a(s, signedChar)
  {
    hash := 5381;
    var i := 0;
    while i < |s|
      invariant i <= |s|
      invariant HashFrom(hash, s[i..], signedChar) == Djb2a(s, signedChar)
    {
      assert s[i..][1..] == s[i + 1..];
      hash := ((hash << 5) + hash) ^ Widen(Code(s[i]), signedChar);
      i := i + 1;
    }
  }

  /** The hash of the empty string, and what one more character makes of a hash: 33 times the hash,
      exclusive-or'd with the character; from 0x80 on a signed char brings in 24 more ones. */
  lemma Djb2aIs(s: string, c: char, signedChar: bool)
    ensures Djb2a("", signedChar) == 5381
    ensures var byte := Code(c) as bv32;
            var word := if byte < 0x80 || !signedChar then byte else 0xffff_ff00 + byte;
            Djb2a(s + [c], signedChar) == (33 * Djb2a(s, signedChar)) ^ word
  {
    HashAppends(5381, s, c, signedChar);
    MixIs(Djb2a(s, signedChar), Widen(Code(c), signedChar));
    Extended(Code(c), signedChar);
  }

  lemma Extended(c: bv8, signedChar: bool)
    ensures var byte := c as bv32;
            Widen(c, signedChar) == if byte < 0x80 || !signedChar then byte else 0xffff_ff00 + byte
  {
  }

  lemma MixIs(hash: bv32, c: bv32)
    ensures Mix(hash, c) == (33 * hash) ^ c
  {
    assert (hash << 5) + hash == 33 * hash;
  }

  lemma {:induction false} HashAppends(hash: bv32, s: string, c: char, signedChar: bool)
    ensures HashFrom(hash, s + [c], signedChar) == Mix(HashFrom(hash, s, signedChar), Widen(Code(c), signedChar))
    decreases |s|
  {
    if s == [] {
      assert [] + [c] == [c] && [c][1..] == [];
    } else {
      HashAppends(Mix(hash, Widen(Code(s[0]), signedChar)), s[1..], c, signedChar);
      assert (s + [c])[1..] == s[1..] + [c];
    }
  }

  lemma CodeOfD()
    ensures Code('d') == 0x64
  {
    assert 'd' as int % 0x100 == 100 && (100 as bv8) == 0x64;
  }

  lemma CodeOfB()
    ensures Code('b') == 0x62
  {
    assert 'b' as int % 0x100 == 98 && (98 as bv8) == 0x62;
  }

  lemma CodeOfG()
    ensures Code('g') == 0x67
  {
    assert 'g' as int % 0x100 == 103 && (103 as bv8) == 0x67;
  }

  /** A name of the list. */
  lemma HashOfDbg(signedChar: bool)
    ensures Djb2a("dbg", signedChar) == 0x0b871d84
  {
    CodeOfD();
    CodeOfB();
    CodeOfG();
    assert "dbg"[1..] == "bg" && "bg"[1..] == "g";
  }

  /** Where a hash leads in a table of the given size. */
  function Index(hash: bv32, size: nat): (h: nat)
    requires size > 0
    ensures h < size
  {
    var n: int := hash as int;
    Remainder(n, size);
    n % size
  }

  lemma Remainder(n: int, m: nat)
    requires m > 0
    ensures 0 <= n % m < m
  {
  }

  /** The slots of names in a table of the given size. */
  function Slots(size: nat, signedChar: bool): string -> nat
    requires size > 0
  {
    (s: string) => Index(Djb2a(s, signedChar), size)
  }

  lemma SlotIsRemainder(s: string, size: nat, signedChar: bool)
    requires size > 0
    ensures Slots(size, signedChar)(s) == Djb2a(s, signedChar) as int % size
  {
  }

  // ---------- Collision-free sizes ----------

  /** No two of the first n entries share a slot. */
  ghost predicate Distinct(names: seq<string>, n: nat, slot: string -> nat)
    requires n <= |names|
  {
    forall i, j :: 0 <= i < j < n ==> slot(names[i]) != slot(names[j])
  }

  /** No two entries of the list share a slot (so an entry that occurs twice always collides). */
  ghost predicate CollisionFree(names: seq<string>, size: nat, signedChar: bool)
    requires size > 0
  {
    Distinct(names, |names|, Slots(size, signedChar))
  }

  /** The table holds the first n names in their slots and nothing else. */
  ghost predicate Holds(table: seq<Option<string>>, names: seq<string>, n: nat, slot: string -> nat)
    requires n <= |names|
  {
    && (forall i :: 0 <= i < n ==> slot(names[i]) < |table| && table[slot(names[i])] == Some(names[i]))
    && (forall h :: 0 <= h < |table| && table[h].Some? ==> exists i :: 0 <= i < n && slot(names[i]) == h)
  }

  /** Entering a name in its empty slot. */
  lemma EnterName(table: seq<Option<string>>, names: seq<string>, n: nat, slot: string -> nat)
    requires n < |names| && Holds(table, names, n, slot) && Distinct(names, n, slot)
    requires slot(names[n]) < |table| && table[slot(names[n])].None?
    ensures Distinct(names, n + 1, slot)
    ensures Holds(table[slot(names[n]) := Some(names[n])], names, n + 1, slot)
  {
    var entered := table[slot(names[n]) := Some(names[n])];
    forall h | 0 <= h < |entered| && entered[h].Some?
      ensures exists i :: 0 <= i < n + 1 && slot(names[i]) == h
    {
      if h == slot(names[n]) {
        assert slot(names[n]) == h;
      } else {
        var i :| 0 <= i < n && slot(names[i]) == h;
      }
    }
  }

  class FuncTable {
    const signedChar: bool
    var hashSize: nat
    var hashFuncs: array<Option<string>>

    constructor (signedChar: bool)
      ensures hashFuncs.Length == TABLE_SIZE && fresh(hashFuncs) && this.signedChar == signedChar
    {
      this.signedChar := signedChar;
      this.hashSize := 0;
      this.hashFuncs := new Option<string>[TABLE_SIZE](_ => None);
    }

    /** Ready for lookups: the table holds the list. */
    ghost predicate Built(names: seq<string>)
      reads this, hashFuncs
    {
      && hashFuncs.Length == TABLE_SIZE
      && 0 < hashSize < TABLE_SIZE
      && Holds(hashFuncs[..], names, |names|, Slots(hashSize, signedChar))
    }

    /** One trial: clear the whole table, then enter names until one collides. */
    method FillTable(names: seq<string>) returns (collision: bool)
      requires hashFuncs.Length == TABLE_SIZE && 0 < hashSize < TABLE_SIZE
      modifies hashFuncs
      ensures collision <==> !CollisionFree(names, hashSize, signedChar)
      ensures !collision ==> Holds(hashFuncs[..], names, |names|, Slots(hashSize, signedChar))
    {
      forall h | 0 <= h < hashFuncs.Length {
        hashFuncs[h] := None;
      }
      ghost var slot := Slots(hashSize, signedChar);
      var i := 0;
      while i < |names|
        invariant i <= |names| && Distinct(names, i, slot) && Holds(hashFuncs[..], names, i, slot)
      {
        var hash := ComputeDjb2a(names[i], signedChar);
        var h := Index(hash, hashSize);
        collision := EnterNext(names, i, h, slot);
        if collision {
          return;
        }
        i := i + 1;
      }
      return false;
    }

    /** One name of a trial. */
    method EnterNext(names: seq<string>, i: nat, h: nat, ghost slot: string -> nat) returns (collision: bool)
      requires i < |names| && h == slot(names[i]) < hashFuncs.Length
      requires Distinct(names, i, slot) && Holds(hashFuncs[..], names, i, slot)
      modifies hashFuncs
      ensures collision ==> !Distinct(names, i + 1, slot)
      ensures !collision ==> Distinct(names, i + 1, slot) && Holds(hashFuncs[..], names, i + 1, slot)
    {
      if hashFuncs[h].Some? {
        ghost var k :| 0 <= k < i && slot(names[k]) == h;
        return true;
      }
      EnterName(hashFuncs[..], names, i, slot);
      hashFuncs[h] := Some(names[i]);
      return false;
    }

    /** hash_init; false stands for the exit with "Increase TABLE_SIZE". */
    method HashInit(names: seq<string>) returns (ok: bool)
      requires hashFuncs.Length == TABLE_SIZE
      modifies this`hashSize, hashFuncs
      ensures ok ==> Built(names) && FIRST_SIZE <= hashSize && CollisionFree(names, hashSize, signedChar)
      ensures ok ==> forall size :: FIRST_SIZE <= size < hashSize ==> !CollisionFree(names, size, signedChar)
      ensures !ok ==> forall size :: FIRST_SIZE <= size < TABLE_SIZE ==> !CollisionFree(names, size, signedChar)
    {
      hashSize := FIRST_SIZE;
      while hashSize < TABLE_SIZE
        invariant FIRST_SIZE <= hashSize <= TABLE_SIZE
        invariant forall size :: FIRST_SIZE <= size < hashSize ==> !CollisionFree(names, size, signedChar)
        decreases TABLE_SIZE - hashSize
      {
        var collision := FillTable(names);
        if !collision {
          return true;
        }
        hashSize := hashSize + 1;
      }
      return false;
    }

    /** Whatever the string, the lookup says whether it is in the list. */
    method HashFind(token: string, ghost names: seq<string>) returns (r: bool)
      requires Built(names)
      ensures r <==> token in names
    {
      var hash := ComputeDjb2a(token, signedChar);
      var hf := hashFuncs[Index(hash, hashSize)];
      r := hf.Some? && token == hf.value;
      HoldsExactly(hashFuncs[..], names, Slots(hashSize, signedChar), token);
    }
  }

  /** A filled table answers membership. */
  lemma HoldsExactly(table: seq<Option<string>>, names: seq<string>, slot: string -> nat, s: string)
    requires slot(s) < |table| && Holds(table, names, |names|, slot)
    ensures table[slot(s)] == Some(s) <==> s in names
  {
    if table[slot(s)] == Some(s) {
      var i :| 0 <= i < |names| && slot(names[i]) == slot(s);
      assert table[slot(names[i])] == Some(names[i]);
    }
    if s in names {
      var i :| 0 <= i < |names| && names[i] == s;
      assert table[slot(names[i])] == Some(names[i]);
    }
  }
}
