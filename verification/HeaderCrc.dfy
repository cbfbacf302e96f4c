/** The CRC-32 that guards the segment header (src/core/irt_shm.c:23-70).
 *
 * Unsigned values are kept as their bits, least significant first: a byte is
 * 8 bits, the CRC register 32.  The header is its 128 raw bytes, the fields
 * are the byte positions of irt_header_t (src/internal/irt_types.h:35-57).
 * The generator polynomial is that of clause 3.2.9 of IEEE 802.3, reflected.
 */
module HeaderCrc {
  import opened Layout

  type byte = b: seq<bool> | |b| == 8 witness [false, false, false, false, false, false, false, false]
  type word = w: seq<bool> | |w| == 32 witness Bits(0, 32)

  /** x >> i */
  function Halved(x: nat, i: nat): nat
    decreases i
  {
    if i == 0 then x else Halved(x / 2, i - 1)
  }

  /** The low n binary digits of x. */
  function Bits(x: nat, n: nat): (b: seq<bool>)
    ensures |b| == n
  {
    seq(n, i requires 0 <= i < n => Halved(x, i) % 2 == 1)
  }

  const POLYNOMIAL: word := Bits(0xEDB8_8320, 32)
  const ONES: word := Bits(0xFFFF_FFFF, 32)
  const MAGIC: word := Bits(0x1DBA_1DBA, 32)

  function Zeros(n: nat): seq<bool> {
    seq(n, _ => false)
  }

  function Xor(a: seq<bool>, b: seq<bool>): (c: seq<bool>)
    requires |a| == |b|
    ensures |c| == |a|
  {
    seq(|a|, i requires 0 <= i < |a| => a[i] != b[i])
  }

  /** x >> 1 */
  function Shift(x: word): word {
    x[1..] + [false]
  }

  function BitStep(crc: word): word {
    if crc[0] then Xor(Shift(crc), POLYNOMIAL) else Shift(crc)
  }

  function BitSteps(crc: word, n: nat): word
    decreases n
  {
    if n == 0 then crc else BitSteps(BitStep(crc), n - 1)
  }

  function ByteStep(crc: word, b: byte): word {
    BitSteps(Xor(crc, b + Zeros(24)), 8)
  }

  function Update(crc: word, data: seq<byte>): word
    decreases |data|
  {
    if data == [] then crc else Update(ByteStep(crc, data[0]), data[1..])
  }

  /** The inner loop of irt_crc32_update: absorb one byte, eight bit steps. */
  method Crc32Byte(crc: word, b: byte) returns (r: word)
    ensures r == ByteStep(crc, b)
  {
    r := Xor(crc, b + Zeros(24));
    for k := 0 to 8
      invariant BitSteps(r, 8 - k) == ByteStep(crc, b)
    {
      r := BitStep(r);
    }
  }

  method Crc32Update(crc: word, data: seq<byte>) returns (r: word)
    ensures r == Update(crc, data)
  {
    r := crc;
    for i := 0 to |data|
      invariant Update(r, data[i..]) == Update(crc, data)
    {
      assert data[i..][1..] == data[i + 1..];
      r := Crc32Byte(r, data[i]);
    }
  }

  // ---- Each bit step is a bijection ----

  lemma {:induction false} HalvedToOne(x: nat, i: nat)
    requires Pow2(i) <= x < 2 * Pow2(i)
    ensures Halved(x, i) == 1
  {
    if i > 0 {
      HalvedToOne(x / 2, i - 1);
    }
  }

  lemma PolynomialTopBit()
    ensures POLYNOMIAL[31]
  {
    Pow2At31();
    HalvedToOne(0xEDB8_8320, 31);
  }

  lemma StepBit(x: word, j: nat)
    requires j < 32
    ensures j > 0 ==> BitStep(x)[j - 1] == (x[j] != (x[0] && POLYNOMIAL[j - 1]))
    ensures BitStep(x)[31] == x[0]
  {
    PolynomialTopBit();
  }

  lemma BitStepInjective(x: word, y: word)
    requires BitStep(x) == BitStep(y)
    ensures x == y
  {
    forall j | 0 <= j < 32
      ensures x[j] == y[j]
    {
      StepBit(x, j);
      StepBit(y, j);
    }
  }

  lemma {:induction false} BitStepsInjective(x: word, y: word, n: nat)
    requires BitSteps(x, n) == BitSteps(y, n)
    ensures x == y
    decreases n
  {
    if n > 0 {
      BitStepsInjective(BitStep(x), BitStep(y), n - 1);
      BitStepInjective(x, y);
    }
  }

  lemma XorInjective(x: seq<bool>, y: seq<bool>, z: seq<bool>)
    requires |x| == |y| == |z|
    requires Xor(x, z) == Xor(y, z)
    ensures x == y
  {
    forall i | 0 <= i < |x|
      ensures x[i] == y[i]
    {
      assert Xor(x, z)[i] == Xor(y, z)[i];
    }
  }

  // ---- Which polynomial, which start ----

  const EXPONENTS: set<int> := {26, 23, 22, 16, 12, 11, 10, 8, 7, 5, 4, 2, 1, 0}

  /** Four digits of x from digit i on, when x >> i is y. */
  lemma FourDigits(x: nat, i: nat, y: nat)
    requires Halved(x, i) == y
    ensures Halved(x, i + 4) == y / 16
    ensures Halved(x, i) % 2 == y % 2 && Halved(x, i + 1) % 2 == y / 2 % 2
    ensures Halved(x, i + 2) % 2 == y / 4 % 2 && Halved(x, i + 3) % 2 == y / 8 % 2
  {
    HalvedOnce(x, i);
    HalvedOnce(x, i + 1);
    HalvedOnce(x, i + 2);
    HalvedOnce(x, i + 3);
  }

  lemma {:induction false} HalvedOnce(x: nat, i: nat)
    ensures Halved(x, i + 1) == Halved(x, i) / 2
    decreases i
  {
    if i > 0 {
      HalvedOnce(x / 2, i - 1);
    }
  }

  lemma Digits0()
    ensures Halved(0xEDB8_8320, 8) == 0xED_B883
    ensures forall j :: 0 <= j < 8 ==> (POLYNOMIAL[j] <==> 31 - j in EXPONENTS)
  {
    FourDigits(0xEDB8_8320, 0, 0xEDB8_8320);
    FourDigits(0xEDB8_8320, 4, 0xEDB_8832);
  }

  lemma Digits8()
    requires Halved(0xEDB8_8320, 8) == 0xED_B883
    ensures Halved(0xEDB8_8320, 16) == 0xEDB8
    ensures forall j :: 8 <= j < 16 ==> (POLYNOMIAL[j] <==> 31 - j in EXPONENTS)
  {
    FourDigits(0xEDB8_8320, 8, 0xED_B883);
    FourDigits(0xEDB8_8320, 12, 0xE_DB88);
  }

  lemma Digits16()
    requires Halved(0xEDB8_8320, 16) == 0xEDB8
    ensures Halved(0xEDB8_8320, 24) == 0xED
    ensures forall j :: 16 <= j < 24 ==> (POLYNOMIAL[j] <==> 31 - j in EXPONENTS)
  {
    FourDigits(0xEDB8_8320, 16, 0xEDB8);
    FourDigits(0xEDB8_8320, 20, 0xEDB);
  }

  lemma Digits24()
    requires Halved(0xEDB8_8320, 24) == 0xED
    ensures forall j :: 24 <= j < 32 ==> (POLYNOMIAL[j] <==> 31 - j in EXPONENTS)
  {
    FourDigits(0xEDB8_8320, 24, 0xED);
    FourDigits(0xEDB8_8320, 28, 0xE);
  }

  /** The generator is x^32 + x^26 + x^23 + x^22 + x^16 + x^12 + x^11 + x^10 +
   *  x^8 + x^7 + x^5 + x^4 + x^2 + x + 1, reflected: bit j of the word belongs to
   *  x^(31 - j), and the top term is left out. */
  lemma PolynomialExponents()
    ensures forall j :: 0 <= j < 32 ==>
              (POLYNOMIAL[j] <==> 31 - j in {26, 23, 22, 16, 12, 11, 10, 8, 7, 5, 4, 2, 1, 0})
  {
    Digits0();
    Digits8();
    Digits16();
    Digits24();
  }

  lemma {:induction false} HalvedOnes(i: nat)
    requires i < 32
    ensures Halved(0xFFFF_FFFF, i) == Pow2(32 - i) - 1
  {
    if i == 0 {
      Pow2At31();
    } else {
      HalvedOnes(i - 1);
      HalvedOnce(0xFFFF_FFFF, i - 1);
    }
  }

  lemma OnesAreOnes()
    ensures forall j :: 0 <= j < 32 ==> ONES[j]
  {
    forall j | 0 <= j < 32
      ensures ONES[j]
    {
      HalvedOnes(j);
    }
  }

  function Ones(n: nat): seq<bool> {
    seq(n, _ => true)
  }

  /** The register after n message bits 1 on the start value. */
  function FallingOnes(n: nat): word
    requires n <= 32
  {
    Ones(32 - n) + Zeros(n)
  }

  lemma {:induction false} OnesShiftOut(n: nat, m: nat)
    requires n + m <= 32
    ensures Serial(FallingOnes(n), Ones(m)) == FallingOnes(n + m)
    decreases m
  {
    if m > 0 {
      assert Ones(m)[1..] == Ones(m - 1);
      assert Shift(FallingOnes(n)) == FallingOnes(n + 1);
      OnesShiftOut(n + 1, m - 1);
    }
  }

  lemma FlattenFour(b0: byte, b1: byte, b2: byte, b3: byte)
    ensures Flatten([b0, b1, b2, b3]) == b0 + b1 + b2 + b3
  {
    assert [b3][1..] == [] && [b2, b3][1..] == [b3];
    assert [b1, b2, b3][1..] == [b2, b3] && [b0, b1, b2, b3][1..] == [b1, b2, b3];
    assert Flatten([b3]) == b3;
    assert Flatten([b2, b3]) == b2 + b3;
    assert Flatten([b1, b2, b3]) == b1 + (b2 + b3);
    assert Flatten([b0, b1, b2, b3]) == b0 + (b1 + (b2 + b3));
  }

  /** A check value: four bytes 0xFF cancel the start value, so that their CRC is
   *  0xFFFFFFFF. */
  lemma CheckValue()
    ensures var ff: byte := [true, true, true, true, true, true, true, true];
            Xor(Update(ONES, [ff, ff, ff, ff]), ONES) == Bits(0xFFFF_FFFF, 32)
  {
    var ff: byte := [true, true, true, true, true, true, true, true];
    OnesAreOnes();
    assert ONES == FallingOnes(0);
    UpdateIsSerial(ONES, [ff, ff, ff, ff]);
    FlattenFour(ff, ff, ff, ff);
    assert ff + ff + ff + ff == Ones(32);
    OnesShiftOut(0, 32);
  }

  // ---- The register as a bit-serial machine ----

  /** One data bit: it decides, with the low bit, whether the polynomial is added. */
  function BitIn(crc: word, d: bool): word {
    if crc[0] != d then Xor(Shift(crc), POLYNOMIAL) else Shift(crc)
  }

  function Serial(crc: word, stream: seq<bool>): word
    decreases |stream|
  {
    if stream == [] then crc else Serial(BitIn(crc, stream[0]), stream[1..])
  }

  lemma InBit(crc: word, d: bool, j: nat)
    requires j < 32
    ensures j > 0 ==> BitIn(crc, d)[j - 1] == (crc[j] != ((crc[0] != d) && POLYNOMIAL[j - 1]))
    ensures BitIn(crc, d)[31] == (crc[0] != d)
  {
    PolynomialTopBit();
  }

  lemma BitInIsXorThenStep(crc: word, d: bool, rest: seq<bool>)
    requires |rest| == 31
    ensures BitStep(Xor(crc, [d] + rest)) == Xor(BitIn(crc, d), rest + [false])
  {
    var x := Xor(crc, [d] + rest);
    forall j | 0 <= j < 32
      ensures BitStep(x)[j] == Xor(BitIn(crc, d), rest + [false])[j]
    {
      StepBit(x, if j < 31 then j + 1 else 31);
      InBit(crc, d, if j < 31 then j + 1 else 31);
    }
  }

  /** Up to 32 bits can be added to the register at once and then stepped over. */
  lemma {:induction false} AbsorbAtOnce(crc: word, bits: seq<bool>)
    requires |bits| <= 32
    ensures Serial(crc, bits) == BitSteps(Xor(crc, bits + Zeros(32 - |bits|)), |bits|)
    decreases |bits|
  {
    if bits == [] {
      assert Xor(crc, Zeros(32)) == crc;
      assert bits + Zeros(32) == Zeros(32);
    } else {
      var rest := bits[1..] + Zeros(32 - |bits|);
      assert bits + Zeros(32 - |bits|) == [bits[0]] + rest;
      assert rest + [false] == bits[1..] + Zeros(32 - |bits[1..]|);
      BitInIsXorThenStep(crc, bits[0], rest);
      AbsorbAtOnce(BitIn(crc, bits[0]), bits[1..]);
    }
  }

  function Flatten(data: seq<byte>): seq<bool>
    decreases |data|
  {
    if data == [] then [] else data[0] + Flatten(data[1..])
  }

  lemma {:induction false} SerialConcat(crc: word, a: seq<bool>, b: seq<bool>)
    ensures Serial(crc, a + b) == Serial(Serial(crc, a), b)
    decreases |a|
  {
    if a == [] {
      assert a + b == b;
    } else {
      assert (a + b)[1..] == a[1..] + b;
      SerialConcat(BitIn(crc, a[0]), a[1..], b);
    }
  }

  /** The byte-wise loop of the code is the bit-serial machine on the data bits. */
  lemma {:induction false} UpdateIsSerial(crc: word, data: seq<byte>)
    ensures Update(crc, data) == Serial(crc, Flatten(data))
    decreases |data|
  {
    if data != [] {
      AbsorbAtOnce(crc, data[0]);
      SerialConcat(crc, data[0], Flatten(data[1..]));
      UpdateIsSerial(ByteStep(crc, data[0]), data[1..]);
    }
  }

  // ---- Error detection ----

  lemma {:induction false} SerialInjective(x: word, y: word, stream: seq<bool>)
    requires Serial(x, stream) == Serial(y, stream)
    ensures x == y
    decreases |stream|
  {
    if stream != [] {
      SerialInjective(BitIn(x, stream[0]), BitIn(y, stream[0]), stream[1..]);
      var rest := Zeros(31);
      assert Xor(BitIn(x, stream[0]), rest + [false]) == BitIn(x, stream[0]);
      assert Xor(BitIn(y, stream[0]), rest + [false]) == BitIn(y, stream[0]);
      BitInIsXorThenStep(x, stream[0], rest);
      BitInIsXorThenStep(y, stream[0], rest);
      BitStepInjective(Xor(x, [stream[0]] + rest), Xor(y, [stream[0]] + rest));
      XorInjective(x, y, [stream[0]] + rest);
    }
  }

  lemma XorCommutes(x: seq<bool>, y: seq<bool>)
    requires |x| == |y|
    ensures Xor(x, y) == Xor(y, x)
  {
  }

  lemma PrefixEqual(a: seq<bool>, b: seq<bool>, z: seq<bool>)
    requires |a| == |b|
    ensures a + z == b + z ==> a == b
  {
    assert (a + z)[..|a|] == a && (b + z)[..|b|] == b;
  }

  /** A burst of at most 32 bits changes the register. */
  lemma BurstChangesRegister(crc: word, a: seq<bool>, b: seq<bool>)
    requires |a| == |b| <= 32 && a != b
    ensures Serial(crc, a) != Serial(crc, b)
  {
    if Serial(crc, a) == Serial(crc, b) {
      var z := Zeros(32 - |a|);
      AbsorbAtOnce(crc, a);
      AbsorbAtOnce(crc, b);
      BitStepsInjective(Xor(crc, a + z), Xor(crc, b + z), |a|);
      XorCommutes(crc, a + z);
      XorCommutes(crc, b + z);
      XorInjective(a + z, b + z, crc);
      PrefixEqual(a, b, z);
    }
  }

  /** Two messages that differ only inside a window of at most 32 bits, at any
   *  bit position, never have the same CRC. */
  lemma BurstDetected(crc: word, head: seq<bool>, a: seq<bool>, b: seq<bool>, tail: seq<bool>)
    requires |a| == |b| <= 32 && a != b
    ensures Serial(crc, head + a + tail) != Serial(crc, head + b + tail)
  {
    SerialConcat(crc, head + a, tail);
    SerialConcat(crc, head, a);
    SerialConcat(crc, head + b, tail);
    SerialConcat(crc, head, b);
    BurstChangesRegister(Serial(crc, head), a, b);
    if Serial(crc, head + a + tail) == Serial(crc, head + b + tail) {
      SerialInjective(Serial(crc, head + a), Serial(crc, head + b), tail);
    }
  }

  // ---- The header ----

  const HEADER_BYTES := 128
  const MAGIC_AT := 0
  const CRC_AT := 44

  const ZERO_BYTE: byte := [false, false, false, false, false, false, false, false]

  type header = h: seq<byte> | |h| == 128 witness seq(128, _ => ZERO_BYTE)

  /** A 32-bit field, stored little-endian. */
  function Field(h: seq<byte>, at: nat): word
    requires at + 4 <= |h|
  {
    FieldOf(h[at], h[at + 1], h[at + 2], h[at + 3])
  }

  function FieldOf(b0: byte, b1: byte, b2: byte, b3: byte): word {
    b0 + b1 + b2 + b3
  }

  function ByteOf(w: word, k: nat): byte
    requires k < 4
  {
    w[8 * k..8 * k + 8]
  }

  function WithField(h: seq<byte>, at: nat, w: word): seq<byte>
    requires at + 4 <= |h|
  {
    h[..at] + [ByteOf(w, 0), ByteOf(w, 1), ByteOf(w, 2), ByteOf(w, 3)] + h[at + 4..]
  }

  /** The bytes the CRC covers: magic to max_subscribers, flags to off_subs. */
  function Covered(h: header): seq<byte> {
    h[0..16] + h[48..72]
  }

  function CrcOf(h: header): word {
    Xor(Update(Update(ONES, h[0..16]), h[48..72]), ONES)
  }

  function Sealed(h: header): header {
    WithField(h, CRC_AT, CrcOf(h))
  }

  predicate Verifies(h: header) {
    Field(h, MAGIC_AT) == MAGIC && CrcOf(h) == Field(h, CRC_AT)
  }

  method HeaderCrc32Of(h: array<byte>) returns (crc: word)
    requires h.Length == HEADER_BYTES
    ensures crc == CrcOf(h[..])
  {
    crc := ONES;
    assert h[..][0..16] == h[0..16] && h[..][48..72] == h[48..72];
    crc := Crc32Update(crc, h[0..16]);
    crc := Crc32Update(crc, h[48..72]);
    crc := Xor(crc, ONES);
  }

  method StoreField(h: array<byte>, at: nat, w: word)
    requires at + 4 <= h.Length
    modifies h
    ensures h[..] == WithField(old(h[..]), at, w)
  {
    h[at], h[at + 1], h[at + 2], h[at + 3] :=
      ByteOf(w, 0), ByteOf(w, 1), ByteOf(w, 2), ByteOf(w, 3);
  }

  lemma SealFromZeroed(h: header, zeroed: header)
    requires zeroed == WithField(h, CRC_AT, Bits(0, 32))
    ensures WithField(zeroed, CRC_AT, CrcOf(zeroed)) == Sealed(h)
  {
    FieldOfWithField(h, CRC_AT, Bits(0, 32));
    CrcIgnoresUncovered(h, zeroed);
    assert zeroed[..CRC_AT] == h[..CRC_AT] && zeroed[CRC_AT + 4..] == h[CRC_AT + 4..];
  }

  method HeaderSeal(h: array<byte>)
    requires h.Length == HEADER_BYTES
    modifies h
    ensures h[..] == Sealed(old(h[..]))
  {
    ghost var before := h[..];
    StoreField(h, CRC_AT, Bits(0, 32));
    ghost var zeroed := h[..];
    var crc := HeaderCrc32Of(h);
    StoreField(h, CRC_AT, crc);
    SealFromZeroed(before, zeroed);
  }

  method HeaderVerify(h: array<byte>) returns (ok: bool)
    requires h.Length == HEADER_BYTES
    ensures ok == Verifies(h[..])
  {
    if Field(h[..], MAGIC_AT) != MAGIC {
      return false;
    }
    var crc := HeaderCrc32Of(h);
    ok := crc == Field(h[..], CRC_AT);
  }

  lemma CrcIgnoresUncovered(h: header, k: header)
    requires forall i :: 0 <= i < 16 || 48 <= i < 72 ==> h[i] == k[i]
    ensures CrcOf(h) == CrcOf(k)
  {
    assert h[0..16] == k[0..16] && h[48..72] == k[48..72];
  }

  lemma FieldOfWithField(h: header, at: nat, w: word)
    requires at + 4 <= 128
    ensures Field(WithField(h, at, w), at) == w
    ensures |WithField(h, at, w)| == 128
    ensures forall i :: 0 <= i < 128 && !(at <= i < at + 4) ==> WithField(h, at, w)[i] == h[i]
  {
    assert FieldOf(ByteOf(w, 0), ByteOf(w, 1), ByteOf(w, 2), ByteOf(w, 3)) == w;
  }

  /** A sealed header verifies, and sealing changes only the CRC field. */
  lemma SealedVerifies(h: header)
    ensures Verifies(Sealed(h)) <==> Field(h, 0) == Bits(0x1DBA_1DBA, 32)
    ensures forall i :: 0 <= i < 128 && !(44 <= i < 48) ==> Sealed(h)[i] == h[i]
  {
    FieldOfWithField(h, CRC_AT, CrcOf(h));
    CrcIgnoresUncovered(h, Sealed(h));
  }

  /** Bytes outside [0,16), [44,48) and [48,72) do not matter. */
  lemma UncoveredChangesVerify(h: header, k: header)
    requires forall i :: 0 <= i < 16 || 44 <= i < 72 ==> h[i] == k[i]
    ensures Verifies(h) <==> Verifies(k)
  {
    CrcIgnoresUncovered(h, k);
  }

  lemma {:induction false} UpdateConcat(crc: word, a: seq<byte>, b: seq<byte>)
    ensures Update(crc, a + b) == Update(Update(crc, a), b)
    decreases |a|
  {
    if a == [] {
      assert a + b == b;
    } else {
      assert (a + b)[1..] == a[1..] + b;
      UpdateConcat(ByteStep(crc, a[0]), a[1..], b);
    }
  }

  lemma {:induction false} FlattenConcat(a: seq<byte>, b: seq<byte>)
    ensures Flatten(a + b) == Flatten(a) + Flatten(b)
    decreases |a|
  {
    if a == [] {
      assert a + b == b;
    } else {
      assert (a + b)[1..] == a[1..] + b;
      FlattenConcat(a[1..], b);
    }
  }

  /** The CRC is one bit-serial run over the covered bits (what zlib.crc32 of
   *  raw[0:16] + raw[48:72] computes). */
  lemma CrcIsOneRun(h: header)
    ensures CrcOf(h) == Xor(Serial(ONES, Flatten(Covered(h))), ONES)
  {
    UpdateConcat(ONES, h[0..16], h[48..72]);
    UpdateIsSerial(ONES, Covered(h));
  }

  /** A header that verifies no longer does once its covered bits are altered
   *  inside one window of at most 32 bits, wherever that window lies. */
  lemma CoveredBurstFails(h: header, k: header, head: seq<bool>, a: seq<bool>, b: seq<bool>, tail: seq<bool>)
    requires Verifies(h) && Field(k, CRC_AT) == Field(h, CRC_AT)
    requires Flatten(Covered(h)) == head + a + tail && Flatten(Covered(k)) == head + b + tail
    requires |a| == |b| <= 32 && a != b
    ensures !Verifies(k)
  {
    CrcIsOneRun(h);
    CrcIsOneRun(k);
    BurstDetected(ONES, head, a, b, tail);
    if CrcOf(h) == CrcOf(k) {
      XorInjective(Serial(ONES, head + a + tail), Serial(ONES, head + b + tail), ONES);
    }
  }

  predicate IsCoveredField(at: nat) {
    at % 4 == 0 && (at < 16 || 48 <= at < 72)
  }

  /** Position of a covered field among the covered bytes. */
  function CoveredAt(at: nat): nat
    requires IsCoveredField(at)
  {
    if at < 16 then at else at - 32
  }

  lemma CoveredIndex(h: header)
    ensures |Covered(h)| == 40
    ensures forall i :: 0 <= i < 40 ==> Covered(h)[i] == h[if i < 16 then i else i + 32]
  {
  }

  lemma CoveredAround(h: header, k: header, at: nat)
    requires IsCoveredField(at)
    requires forall i :: (0 <= i < 16 || 48 <= i < 72) && !(at <= i < at + 4) ==> k[i] == h[i]
    ensures var p := CoveredAt(at);
            && Covered(k)[..p] == Covered(h)[..p]
            && Covered(k)[p + 4..] == Covered(h)[p + 4..]
            && Covered(h)[p..p + 4] == h[at..at + 4]
            && Covered(k)[p..p + 4] == k[at..at + 4]
  {
    CoveredIndex(h);
    CoveredIndex(k);
    var p := CoveredAt(at);
    var c, d := Covered(h), Covered(k);
    assert forall i :: 0 <= i < p ==> d[i] == c[i];
    assert forall i :: p + 4 <= i < 40 ==> d[i] == c[i];
  }

  lemma FlattenAround(c: seq<byte>, p: nat, w: seq<byte>)
    requires p + 4 <= |c| && c[p..p + 4] == w
    ensures Flatten(c) == Flatten(c[..p]) + Flatten(w) + Flatten(c[p + 4..])
  {
    assert c == c[..p] + w + c[p + 4..];
    FlattenConcat(c[..p] + w, c[p + 4..]);
    FlattenConcat(c[..p], w);
  }

  lemma FieldWindow(h: header, at: nat)
    requires IsCoveredField(at)
    ensures var p := CoveredAt(at);
            Flatten(Covered(h)) == Flatten(Covered(h)[..p]) + Field(h, at) + Flatten(Covered(h)[p + 4..])
  {
    CoveredAround(h, h, at);
    FlattenAround(Covered(h), CoveredAt(at), h[at..at + 4]);
    FlattenField(h, at);
  }

  lemma SplitAtField(h: header, k: header, at: nat) returns (head: seq<bool>, tail: seq<bool>)
    requires IsCoveredField(at)
    requires forall i :: (0 <= i < 16 || 48 <= i < 72) && !(at <= i < at + 4) ==> k[i] == h[i]
    ensures Flatten(Covered(h)) == head + Field(h, at) + tail
    ensures Flatten(Covered(k)) == head + Field(k, at) + tail
  {
    var p := CoveredAt(at);
    CoveredAround(h, k, at);
    FieldWindow(h, at);
    FieldWindow(k, at);
    head, tail := Flatten(Covered(h)[..p]), Flatten(Covered(h)[p + 4..]);
  }

  /** A header that verifies no longer does once exactly one of its ten covered
   *  32-bit fields has another value, whatever happened outside the CRC's range. */
  lemma OneFieldChangeFails(h: header, k: header, at: nat)
    requires Verifies(h) && at % 4 == 0 && (at < 16 || 48 <= at < 72)
    requires forall i :: (0 <= i < 16 || 44 <= i < 72) && !(at <= i < at + 4) ==> k[i] == h[i]
    requires Field(k, at) != Field(h, at)
    ensures !Verifies(k)
  {
    var head, tail := SplitAtField(h, k, at);
    CoveredBurstFails(h, k, head, Field(h, at), Field(k, at), tail);
  }

  lemma FlattenField(h: header, at: nat)
    requires at + 4 <= 128
    ensures Flatten(h[at..at + 4]) == Field(h, at)
  {
    assert h[at..at + 4] == [h[at], h[at + 1], h[at + 2], h[at + 3]];
    FlattenFour(h[at], h[at + 1], h[at + 2], h[at + 3]);
  }
}
