/** The hash of the name index (irt_index_compose_hash, src/core/irt_index.c:71-90):
 *  FNV-1a over partition and name, and two mixing steps at the end.
 *
 * Nothing in the index depends on the hash.  It is written out here so that
 * what goes wrong with over-long names can be shown at names that exist.
 */
module KeyHash {
  import opened Common
  import opened NameIndex

  const OFFSET_BASIS: bv32 := 0x811C9DC5
  const PRIME: bv32 := 0x01000193

  function Absorb(h: bv32, b: byte): bv32 {
    (h ^ (b as bv32)) * PRIME
  }

  function AbsorbName(h: bv32, name: Name): bv32
    decreases |name|
  {
    if name == [] then h else AbsorbName(Absorb(h, name[0]), name[1..])
  }

  function PartitionState(partition: u32): bv32 {
    Absorb(Absorb(Absorb(Absorb(OFFSET_BASIS, partition % 256), partition / 0x100 % 256),
                  partition / 0x1_0000 % 256), partition / 0x100_0000)
  }

  function Mix(h: bv32): bv32 {
    var a := (h ^ (h >> 16)) * PRIME;
    (a ^ (a >> 13)) * PRIME
  }

  function WordValue(w: bv32): u32 {
    w as u32
  }

  function ComposeHash(key: Key): u32 {
    WordValue(Mix(AbsorbName(PartitionState(key.partition), key.name)))
  }

  function Repeat(b: cbyte, n: nat): (s: Name)
    ensures |s| == n && forall i :: 0 <= i < n ==> s[i] == b
  {
    if n == 0 then [] else [b] + Repeat(b, n - 1)
  }

  lemma {:induction false} AbsorbConcat(h: bv32, a: Name, b: Name)
    ensures AbsorbName(h, a + b) == AbsorbName(AbsorbName(h, a), b)
    decreases |a|
  {
    if a == [] {
      assert a + b == b;
    } else {
      assert (a + b)[1..] == a[1..] + b;
      AbsorbConcat(Absorb(h, a[0]), a[1..], b);
    }
  }

  // ---- A name whose end can grow without changing its hash ----

  /** "CB0rk" */
  const STEM: Name := [67, 66, 48, 114, 107]
  const Z: cbyte := 122

  /** In partition 0 the stem leads to a state that absorbing `z` does not
   *  change. */
  lemma StemIsFixedByZ()
    ensures AbsorbName(PartitionState(0), STEM) == 0xF17AE7B7
    ensures Absorb(0xF17AE7B7, Z) == 0xF17AE7B7
  {
    var h0 := PartitionState(0);
    assert Absorb(OFFSET_BASIS, 0) == OFFSET_BASIS * PRIME;
    var h1 := Absorb(h0, 67);
    var h2 := Absorb(h1, 66);
    var h3 := Absorb(h2, 48);
    var h4 := Absorb(h3, 114);
    assert AbsorbName(h0, STEM) == AbsorbName(h1, STEM[1..]);
    assert STEM[1..][1..] == STEM[2..] && STEM[2..][1..] == STEM[3..] && STEM[3..][1..] == STEM[4..];
    assert AbsorbName(h1, STEM[1..]) == AbsorbName(h2, STEM[2..]);
    assert AbsorbName(h2, STEM[2..]) == AbsorbName(h3, STEM[3..]);
    assert AbsorbName(h3, STEM[3..]) == AbsorbName(h4, STEM[4..]);
    assert AbsorbName(h4, STEM[4..]) == Absorb(h4, 107);
  }

  lemma {:induction false} RepeatedZ(n: nat)
    ensures AbsorbName(0xF17AE7B7, Repeat(Z, n)) == 0xF17AE7B7
    decreases n
  {
    if n > 0 {
      StemIsFixedByZ();
      assert Repeat(Z, n)[1..] == Repeat(Z, n - 1);
      RepeatedZ(n - 1);
    }
  }

  /** The stem and any number of `z`: all these names have one hash. */
  function Growing(n: nat): Name {
    STEM + Repeat(Z, n)
  }

  lemma GrowingState(n: nat)
    ensures AbsorbName(PartitionState(0), Growing(n)) == 0xF17AE7B7
  {
    StemIsFixedByZ();
    AbsorbConcat(PartitionState(0), STEM, Repeat(Z, n));
    RepeatedZ(n);
  }

  lemma GrowingHash(n: nat)
    ensures ComposeHash(Key(0, Growing(n))) == 0x5DA15728
  {
    GrowingState(n);
  }

  /** The hash of such a name followed by one more byte. */
  function WithByte(b: byte): u32 {
    WordValue(Mix(Absorb(0xF17AE7B7, b)))
  }

  lemma HashWithByte(n: nat, b: cbyte)
    ensures ComposeHash(Key(0, Growing(n) + [b])) == WithByte(b)
  {
    GrowingState(n);
    AbsorbConcat(PartitionState(0), Growing(n), [b]);
    var last: Name := [b];
    assert last[1..] == [];
    assert AbsorbName(0xF17AE7B7, last) == Absorb(0xF17AE7B7, last[0]);
  }

  lemma DigitHashes()
    ensures WithByte(48) == 0xB2787EF4
    ensures WithByte(49) == 0x9E6A6B37
    ensures WithByte(50) == 0x601FA9CF
    ensures WithByte(51) == 0xB339676B
    ensures WithByte(52) == 0xF2F0AC48
    ensures WithByte(53) == 0x38ADE9AE
    ensures WithByte(54) == 0xFDDA1C2C
    ensures WithByte(55) == 0xFCA8EAC6
    ensures WithByte(56) == 0xA4E5296F
  {
  }
}
