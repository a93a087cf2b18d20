/** The frame check sequence: `crc16_ccitt` as the reflected CRC-16 of appendix C.2
    of RFC 1662 (generator 0x8408, least significant bit first, no final complement). */
module Crc {
  import opened Bytes

  const GENERATOR: nat := 0x8408
  const BYTE_WIDTH: nat := 8

  const WIDTH: nat := 16

  const ZERO: seq<bool> := seq(16, _ => false)

  type Register = r: seq<bool> | |r| == 16 witness ZERO

  /** The `n` low bits of `v`, least significant first. */
  function BitsOf(v: nat, n: nat): (b: seq<bool>)
    ensures |b| == n
  {
    if n == 0 then [] else [v % 2 == 1] + BitsOf(v / 2, n - 1)
  }

  function Value(b: seq<bool>): nat {
    if b == [] then 0 else (if b[0] then 1 else 0) + 2 * Value(b[1..])
  }

  function ByteBits(s: seq<byte>): (b: seq<bool>)
    ensures |b| == 8 * |s|
  {
    if s == [] then [] else BitsOf(s[0] as nat, BYTE_WIDTH) + ByteBits(s[1..])
  }

  /** Bits 3, 10 and 15: the reflected generator 0x8408. */
  predicate Tap(i: int) {
    i == 3 || i == 10 || i == 15
  }

  function Taps(): Register {
    seq(16, i => Tap(i))
  }

  function Shift(r: Register, bit: bool): Register {
    seq(16, i requires 0 <= i < 16 => (i < 15 && r[i + 1]) != (r[0] != bit && Tap(i)))
  }

  function Feed(r: Register, bits: seq<bool>): Register
    decreases |bits|
  {
    if bits == [] then r else Feed(Shift(r, bits[0]), bits[1..])
  }

  /** The register a check starts from. */
  function Seed(seed: uint16): Register {
    BitsOf(seed, WIDTH)
  }

  function Crc16(seed: uint16, data: seq<byte>): nat {
    Value(Feed(Seed(seed), ByteBits(data)))
  }

  // ---------- bits and numbers ----------

  function Pow2(n: nat): (p: nat)
    ensures p > 0
  {
    if n == 0 then 1 else 2 * Pow2(n - 1)
  }

  lemma {:induction false} BitsOfValue(b: seq<bool>)
    ensures BitsOf(Value(b), |b|) == b
    ensures Value(b) < Pow2(|b|)
  {
    if b != [] {
      BitsOfValue(b[1..]);
    }
  }

  lemma {:induction false} ValueOfClear(n: nat)
    ensures Value(Clear(n)) == 0
  {
    if n > 0 {
      assert Clear(n)[1..] == Clear(n - 1);
      ValueOfClear(n - 1);
    }
  }

  lemma {:induction false} ValueConcat(a: seq<bool>, b: seq<bool>)
    ensures Value(a + b) == Value(a) + Pow2(|a|) * Value(b)
  {
    if a == [] {
      assert a + b == b;
    } else {
      ValueConcat(a[1..], b);
      assert (a + b)[1..] == a[1..] + b;
      assert 2 * (Pow2(|a| - 1) * Value(b)) == Pow2(|a|) * Value(b);
    }
  }

  lemma ByteBitsPair(lo: byte, hi: byte)
    ensures ByteBits([lo, hi]) == BitsOf(lo as nat, BYTE_WIDTH) + BitsOf(hi as nat, BYTE_WIDTH)
  {
    assert [lo, hi][1..] == [hi] && [hi][1..] == [];
    assert ByteBits([hi]) == BitsOf(hi as nat, BYTE_WIDTH) + ByteBits([]);
  }

  lemma ValueOfRegister(r: Register)
    ensures Value(r) == Value(r[..8]) + 0x100 * Value(r[8..])
    ensures Value(r[..8]) < 0x100 && Value(r[8..]) < 0x100
    ensures BitsOf(Value(r[..8]), BYTE_WIDTH) + BitsOf(Value(r[8..]), BYTE_WIDTH) == r
  {
    assert r == r[..8] + r[8..];
    ValueConcat(r[..8], r[8..]);
    BitsOfValue(r[..8]);
    BitsOfValue(r[8..]);
    assert Pow2(8) == 0x100 by {
      assert Pow2(4) == 16;
    }
  }

  /** The little-endian trailer carries the bits of the register in register order. */
  lemma TrailerBits(r: Register)
    ensures Value(r) < 0x1_0000
    ensures ByteBits(Le16(Value(r))) == r
  {
    ValueOfRegister(r);
    var lo, hi := Value(r[..8]), Value(r[8..]);
    LowHigh(lo, hi);
    ByteBitsPair(lo as byte, hi as byte);
  }

  lemma LowHigh(lo: nat, hi: nat)
    requires lo < 0x100 && hi < 0x100
    ensures Le16(lo + 0x100 * hi) == [lo as byte, hi as byte]
  {
  }

  lemma {:induction false} ByteBitsConcat(a: seq<byte>, b: seq<byte>)
    ensures ByteBits(a + b) == ByteBits(a) + ByteBits(b)
  {
    if a == [] {
      assert a + b == b;
    } else {
      hide BitsOf;
      ByteBitsConcat(a[1..], b);
      assert (a + b)[0] == a[0] && (a + b)[1..] == a[1..] + b;
      Regroup(BitsOf(a[0] as nat, BYTE_WIDTH), ByteBits(a[1..]), ByteBits(b));
    }
  }

  /** Two byte strings with the same bits are the same. */
  lemma {:induction false} ByteBitsInjective(a: seq<byte>, b: seq<byte>)
    requires |a| == |b| && ByteBits(a) == ByteBits(b)
    ensures a == b
  {
    if a != [] {
      var x, y := a[0] as nat, b[0] as nat;
      assert BitsOf(x, BYTE_WIDTH) == ByteBits(a)[..8] == ByteBits(b)[..8] == BitsOf(y, BYTE_WIDTH);
      assert Pow2(BYTE_WIDTH) == 0x100 by {
        assert Pow2(4) == 16;
      }
      BitsOfInjective(x, y, BYTE_WIDTH);
      assert ByteBits(a[1..]) == ByteBits(a)[8..] == ByteBits(b)[8..] == ByteBits(b[1..]);
      ByteBitsInjective(a[1..], b[1..]);
    }
  }

  lemma {:induction false} BitsOfInjective(x: nat, y: nat, n: nat)
    requires x < Pow2(n) && y < Pow2(n) && BitsOf(x, n) == BitsOf(y, n)
    ensures x == y
  {
    if n > 0 {
      assert BitsOf(x, n)[0] == BitsOf(y, n)[0];
      assert BitsOf(x, n)[1..] == BitsOf(y, n)[1..];
      BitsOfInjective(x / 2, y / 2, n - 1);
    }
  }

  /** One step in numbers, as appendix C.2 of RFC 1662 builds its table: shift right, and
      combine with 0x8408 if the bit that drops out differs from the one that enters. */
  lemma ShiftInNumbers(r: Register, bit: bool)
    ensures BitsOf(Value(Shift(r, bit)), WIDTH) ==
            if r[0] != bit then Xor(BitsOf(Value(r) / 2, WIDTH), BitsOf(GENERATOR, WIDTH))
            else BitsOf(Value(r) / 2, WIDTH)
  {
    BitsOfValue(Shift(r, bit));
    HalfDropsBit(r);
    GeneratorBits();
    ShiftIsXor(r, bit);
  }

  /** The number `v` with the bit of weight `p` inverted. */
  function Flip(v: nat, p: nat): nat
    requires p > 0
  {
    if v / p % 2 == 1 then v - p else v + p
  }

  /** A register step on numbers: shift right, and invert the bits of 0x8408 (8, 1024 and 32768)
      if the bit that drops out differs from the one that enters. */
  function Step(v: nat, bit: nat): nat {
    if v % 2 == bit % 2 then v / 2 else Flip(Flip(Flip(v / 2, 8), 1024), 32768)
  }

  /** `n` steps, the bits of `b` entering from the lowest on. */
  function Steps(v: nat, b: nat, n: nat): nat
    decreases n
  {
    if n == 0 then v else Steps(Step(v, b), b / 2, n - 1)
  }

  lemma {:induction false} FlipInNumbers(b: seq<bool>, i: nat)
    requires i < |b|
    ensures Value(b[i := !b[i]]) == if b[i] then Value(b) - Pow2(i) else Value(b) + Pow2(i)
  {
    var r := b[i := !b[i]];
    if i == 0 {
      assert r[1..] == b[1..];
    } else {
      assert r[1..] == b[1..][i - 1 := !b[1..][i - 1]];
      FlipInNumbers(b[1..], i - 1);
    }
  }

  lemma Weights()
    ensures Pow2(3) == 8 && Pow2(10) == 1024 && Pow2(15) == 32768
  {
    assert Pow2(5) == 32;
    assert Pow2(10) == 32 * Pow2(5) by {
      assert Pow2(7) == 4 * Pow2(5);
    }
    assert Pow2(13) == 8 * Pow2(10);
  }

  lemma SplitValue(b: seq<bool>, i: nat, p: nat)
    requires i < |b| && Pow2(i) == p
    ensures Value(b) == Value(b[..i]) + p * Value(b[i..]) && Value(b[..i]) < p
    ensures Value(b[i..]) % 2 == if b[i] then 1 else 0
  {
    hide Value, Pow2;
    assert b == b[..i] + b[i..];
    ValueConcat(b[..i], b[i..]);
    BitsOfValue(b[..i]);
    LowBit(b[i..]);
  }

  lemma LowBit(b: seq<bool>)
    requires b != []
    ensures Value(b) % 2 == if b[0] then 1 else 0
  {
    TwiceAndOne(Value(b[1..]), if b[0] then 1 else 0);
  }

  lemma TwiceAndOne(x: nat, y: nat)
    requires y < 2
    ensures (y + 2 * x) % 2 == y
  {
  }

  /** Inverting a tap, in numbers. */
  lemma FlipTap(b: seq<bool>, i: nat)
    requires |b| == 16 && Tap(i)
    ensures Value(b[i := !b[i]]) == Flip(Value(b), if i == 3 then 8 else if i == 10 then 1024 else 32768)
  {
    hide Value;
    Weights();
    FlipInNumbers(b, i);
    if i == 3 {
      SplitValue(b, 3, 8);
    } else if i == 10 {
      SplitValue(b, 10, 1024);
    } else {
      SplitValue(b, 15, 32768);
    }
  }

  lemma ShiftIsStep(r: Register, bit: bool)
    ensures Value(Shift(r, bit)) == Step(Value(r), if bit then 1 else 0)
  {
    hide Value, Flip;
    var moved := r[1..] + [false];
    HalfOfValue(r);
    if r[0] == bit {
      assert Shift(r, bit) == moved;
    } else {
      var a := moved[3 := !moved[3]];
      var b := a[10 := !a[10]];
      var c := b[15 := !b[15]];
      assert Shift(r, bit) == c;
      FlipTap(moved, 3);
      FlipTap(a, 10);
      FlipTap(b, 15);
    }
  }

  lemma HalfOfValue(r: Register)
    ensures Value(r) / 2 == Value(r[1..] + [false])
    ensures Value(r) % 2 == if r[0] then 1 else 0
  {
    assert Value([false]) == 0 by {
      assert [false][1..] == [];
    }
    ValueConcat(r[1..], [false]);
  }

  lemma {:induction false} FeedIsSteps(r: Register, b: nat, n: nat)
    ensures Value(Feed(r, BitsOf(b, n))) == Steps(Value(r), b, n)
    decreases n
  {
    hide Shift, Value, Step;
    if n > 0 {
      var bits := BitsOf(b, n);
      assert bits[0] == (b % 2 == 1) && bits[1..] == BitsOf(b / 2, n - 1);
      ShiftIsStep(r, bits[0]);
      StepTakesLowBit(Value(r), b);
      FeedIsSteps(Shift(r, bits[0]), b / 2, n - 1);
    }
  }

  lemma StepTakesLowBit(v: nat, b: nat)
    ensures Step(v, b) == Step(v, if b % 2 == 1 then 1 else 0)
  {
  }

  /** The check of a byte string on numbers, byte by byte. */
  function Update(v: nat, data: seq<byte>): nat
    decreases |data|
  {
    if data == [] then v else Update(Steps(v, data[0] as nat, 8), data[1..])
  }

  lemma {:induction false} FeedIsUpdate(r: Register, data: seq<byte>)
    ensures Value(Feed(r, ByteBits(data))) == Update(Value(r), data)
    decreases |data|
  {
    hide Shift;
    if data != [] {
      var bits := BitsOf(data[0] as nat, BYTE_WIDTH);
      FeedConcat(r, bits, ByteBits(data[1..]));
      FeedIsSteps(r, data[0] as nat, BYTE_WIDTH);
      FeedIsUpdate(Feed(r, bits), data[1..]);
    }
  }

  lemma EightSteps(v: nat, b: nat, v1: nat, v2: nat, v3: nat, v4: nat, v5: nat, v6: nat, v7: nat, v8: nat)
    requires Step(v, b) == v1 && Step(v1, b / 2) == v2 && Step(v2, b / 4) == v3 && Step(v3, b / 8) == v4
    requires Step(v4, b / 16) == v5 && Step(v5, b / 32) == v6 && Step(v6, b / 64) == v7 && Step(v7, b / 128) == v8
    ensures Steps(v, b, 8) == v8
  {
    hide Step;
    assert Steps(v4, b / 16, 4) == v8;
    assert Steps(v, b, 8) == Steps(v4, b / 16, 4);
  }

  lemma KnownFirst()
    ensures Steps(65535, 1, 8) == 7694
  {
    hide Steps;
    EightSteps(65535, 1, 32767, 48119, 55795, 59633, 61552, 30776, 15388, 7694);
  }

  lemma KnownSecond()
    ensures Steps(7694, 0, 8) == 59744
  {
    hide Steps;
    EightSteps(7694, 0, 3847, 33675, 50637, 59118, 29559, 48563, 56017, 59744);
  }

  lemma UpdateTwo(v: nat, a: byte, b: byte)
    ensures Update(v, [a, b]) == Steps(Steps(v, a as nat, 8), b as nat, 8)
  {
    hide Steps;
    assert [a, b][1..] == [b] && [b][1..] == [];
    assert Update(Steps(v, a as nat, 8), [b]) == Update(Steps(Steps(v, a as nat, 8), b as nat, 8), []);
  }

  /** A check value in full: of the bytes 1 and 0, version and type of a UART frame, it is 0xE960. */
  lemma KnownCheck()
    ensures Crc16(0xFFFF, [1, 0]) == 0xE960
  {
    hide Steps, Update, Crc16;
    CrcIsUpdate(0xFFFF, [1, 0]);
    UpdateTwo(0xFFFF, 1, 0);
    KnownFirst();
    KnownSecond();
  }

  lemma CrcIsUpdate(seed: uint16, data: seq<byte>)
    ensures Crc16(seed, data) == Update(seed, data)
  {
    FeedIsUpdate(Seed(seed), data);
    assert Pow2(16) == 0x1_0000 by {
      Weights();
    }
    ValueOfBits(seed, 16);
  }

  lemma {:induction false} ValueOfBits(v: nat, n: nat)
    requires v < Pow2(n)
    ensures Value(BitsOf(v, n)) == v
  {
    if n > 0 {
      ValueOfBits(v / 2, n - 1);
    }
  }

  lemma ShiftIsXor(r: Register, bit: bool)
    ensures Shift(r, bit) == if r[0] != bit then Xor(r[1..] + [false], Taps()) else r[1..] + [false]
  {
  }

  lemma HalfDropsBit(r: Register)
    ensures BitsOf(Value(r) / 2, WIDTH) == r[1..] + [false]
  {
    var moved := r[1..] + [false];
    assert Value([false]) == 0 by {
      assert [false][1..] == [];
    }
    ValueConcat(r[1..], [false]);
    BitsOfValue(moved);
    assert Value(r) / 2 == Value(moved);
  }

  lemma ValueOfFour(a: bool, b: bool, c: bool, d: bool)
    ensures Value([a, b, c, d])
         == (if a then 1 else 0) + (if b then 2 else 0) + (if c then 4 else 0) + (if d then 8 else 0)
  {
    var s := [a, b, c, d];
    assert s[1..] == [b, c, d] && s[1..][1..] == [c, d] && s[1..][1..][1..] == [d] && s[1..][1..][1..][1..] == [];
    assert Value([d]) == if d then 1 else 0;
    assert Value([c, d]) == (if c then 1 else 0) + 2 * Value([c, d][1..]);
    assert Value([b, c, d]) == (if b then 1 else 0) + 2 * Value([b, c, d][1..]);
    assert Value(s) == (if a then 1 else 0) + 2 * Value(s[1..]);
  }

  lemma FourMore(a: seq<bool>, b: seq<bool>)
    requires |a| == 4
    ensures Value(a + b) == Value(a) + 16 * Value(b)
  {
    ValueConcat(a, b);
    assert Pow2(2) == 4;
    assert Pow2(4) == 16;
  }

  lemma GeneratorValue() returns (g: seq<bool>)
    ensures |g| == 16 && Value(g) == GENERATOR
    ensures forall i | 0 <= i < 16 :: g[i] == Tap(i)
  {
    var zero, four, eight := [false, false, false, false], [false, false, true, false], [false, false, false, true];
    ValueOfFour(false, false, false, true);
    ValueOfFour(false, false, false, false);
    ValueOfFour(false, false, true, false);
    FourMore(four, eight);
    FourMore(zero, four + eight);
    FourMore(eight, zero + (four + eight));
    g := eight + (zero + (four + eight));
  }

  lemma GeneratorBits()
    ensures BitsOf(GENERATOR, WIDTH) == Taps()
  {
    var g := GeneratorValue();
    BitsOfValue(g);
    assert g == Taps();
  }

  // ---------- the register is linear ----------

  function Xor(a: seq<bool>, b: seq<bool>): (c: seq<bool>)
    requires |a| == |b|
    ensures |c| == |a|
  {
    seq(|a|, i requires 0 <= i < |a| => a[i] != b[i])
  }

  function Clear(n: nat): (z: seq<bool>)
    ensures |z| == n
  {
    seq(n, _ => false)
  }

  lemma {:induction false} FeedConcat(r: Register, a: seq<bool>, b: seq<bool>)
    ensures Feed(r, a + b) == Feed(Feed(r, a), b)
    decreases |a|
  {
    if a == [] {
      assert a + b == b;
    } else {
      FeedConcat(Shift(r, a[0]), a[1..], b);
      assert (a + b)[1..] == a[1..] + b;
    }
  }

  /** Linearity over GF(2): the register after two messages combined is the combination. */
  lemma {:induction false} FeedLinear(r: Register, s: Register, a: seq<bool>, b: seq<bool>)
    requires |a| == |b|
    ensures Feed(Xor(r, s), Xor(a, b)) == Xor(Feed(r, a), Feed(s, b))
    decreases |a|
  {
    if a != [] {
      assert Shift(Xor(r, s), a[0] != b[0]) == Xor(Shift(r, a[0]), Shift(s, b[0]));
      assert Xor(a, b)[1..] == Xor(a[1..], b[1..]);
      FeedLinear(Shift(r, a[0]), Shift(s, b[0]), a[1..], b[1..]);
    }
  }

  /** The zero-input step is injective at zero. */
  lemma ShiftKeepsNonzero(r: Register)
    ensures Shift(r, false) == ZERO <==> r == ZERO
  {
    var q := Shift(r, false);
    if q == ZERO {
      assert !q[15];
      forall i | 0 <= i < 16
        ensures !r[i]
      {
        if i > 0 {
          assert !q[i - 1];
        }
      }
    }
  }

  lemma {:induction false} FeedClear(r: Register, n: nat)
    ensures Feed(r, Clear(n)) == ZERO <==> r == ZERO
    decreases n
  {
    if n > 0 {
      assert Clear(n)[1..] == Clear(n - 1);
      ShiftKeepsNonzero(r);
      FeedClear(Shift(r, false), n - 1);
    }
  }

  /** At most 16 bits fed in act like a change of the register before as many zero bits. */
  lemma {:induction false} FeedAbsorb(r: Register, w: seq<bool>)
    requires |w| <= 16
    ensures Feed(r, w) == Feed(Xor(r, w + Clear(16 - |w|)), Clear(|w|))
    decreases |w|
  {
    var x := Xor(r, w + Clear(16 - |w|));
    if w == [] {
      assert x == r;
    } else {
      var tail := w[1..];
      assert Shift(x, false) == Xor(Shift(r, w[0]), tail + Clear(16 - |tail|));
      assert Clear(|w|)[1..] == Clear(|tail|);
      FeedAbsorb(Shift(r, w[0]), tail);
    }
  }

  lemma XorZero(r: Register, t: Register)
    ensures Xor(r, t) == ZERO <==> t == r
  {
    if Xor(r, t) == ZERO {
      forall i | 0 <= i < 16
        ensures t[i] == r[i]
      {
        assert !Xor(r, t)[i];
      }
    }
  }

  /** Feeding 16 bits clears the register exactly when they are the register's own bits. */
  lemma FeedTrailer(r: Register, t: Register)
    ensures Feed(r, t) == ZERO <==> t == r
  {
    FeedAbsorb(r, t);
    assert t + Clear(0) == t;
    FeedClear(Xor(r, t), 16);
    XorZero(r, t);
  }

  /** A nonzero error inside a window of 16 bits leaves a nonzero register. */
  lemma BurstDetected(before: nat, w: seq<bool>, after: nat)
    requires |w| <= 16 && true in w
    ensures Feed(ZERO, Clear(before) + w + Clear(after)) != ZERO
  {
    hide Feed;
    FeedConcat(ZERO, Clear(before) + w, Clear(after));
    FeedConcat(ZERO, Clear(before), w);
    FeedClear(ZERO, before);
    FeedAbsorb(ZERO, w);
    var p := w + Clear(16 - |w|);
    assert Xor(ZERO, p) == p;
    assert p != ZERO by {
      var i :| 0 <= i < |w| && w[i];
      assert p[i] != ZERO[i];
    }
    FeedClear(p, |w|);
    FeedClear(Feed(ZERO, w), after);
  }

  function Ones(b: seq<bool>): nat {
    if b == [] then 0 else (if b[0] then 1 else 0) + Ones(b[1..])
  }

  predicate Parity(b: seq<bool>) {
    b != [] && b[0] != Parity(b[1..])
  }

  lemma {:induction false} ParityOfOnes(b: seq<bool>)
    ensures Parity(b) <==> Ones(b) % 2 == 1
  {
    if b != [] {
      ParityOfOnes(b[1..]);
    }
  }

  lemma {:induction false} ParityXor(a: seq<bool>, b: seq<bool>)
    requires |a| == |b|
    ensures Parity(Xor(a, b)) == (Parity(a) != Parity(b))
  {
    if a != [] {
      assert Xor(a, b)[1..] == Xor(a[1..], b[1..]);
      ParityXor(a[1..], b[1..]);
    }
  }

  lemma {:induction false} ParityClear(n: nat)
    ensures !Parity(Clear(n))
  {
    if n > 0 {
      assert Clear(n)[1..] == Clear(n - 1);
      ParityClear(n - 1);
    }
  }

  lemma {:induction false} ParityConcat(a: seq<bool>, b: seq<bool>)
    ensures Parity(a + b) == (Parity(a) != Parity(b))
  {
    if a == [] {
      assert a + b == b;
    } else {
      ParityConcat(a[1..], b);
      assert (a + b)[1..] == a[1..] + b;
    }
  }

  lemma ParitySingle(x: bool)
    ensures Parity([x]) == x
  {
    assert [x][1..] == [];
  }

  /** The generator x^16 + x^12 + x^5 + 1 has an even number of terms, so a step changes
      the parity of the register exactly by the bit that enters. */
  lemma ShiftParity(r: Register, bit: bool)
    ensures Parity(Shift(r, bit)) == (Parity(r) != bit)
  {
    var moved := r[1..] + [false];
    var taps := Clear(3) + [true] + Clear(6) + [true] + Clear(4) + [true];
    assert Parity(moved) == (Parity(r) != r[0]) by {
      ParityConcat(r[1..], [false]);
      ParitySingle(false);
    }
    assert Parity(taps) by {
      ParityClear(3);
      ParityClear(6);
      ParityClear(4);
      ParitySingle(true);
      ParityConcat(Clear(3), [true]);
      ParityConcat(Clear(3) + [true], Clear(6));
      ParityConcat(Clear(3) + [true] + Clear(6), [true]);
      ParityConcat(Clear(3) + [true] + Clear(6) + [true], Clear(4));
      ParityConcat(Clear(3) + [true] + Clear(6) + [true] + Clear(4), [true]);
    }
    ShiftIsXor(r, bit);
    assert taps == Taps();
    ParityXor(moved, taps);
  }

  lemma {:induction false} FeedParity(r: Register, e: seq<bool>)
    ensures Parity(Feed(r, e)) == (Parity(r) != Parity(e))
    decreases |e|
  {
    if e != [] {
      ShiftParity(r, e[0]);
      FeedParity(Shift(r, e[0]), e[1..]);
    }
  }

  // ---------- what the check value detects ----------

  /** Data followed by its own check value leaves the zero register; with any other
      two bytes behind the data it does not. */
  lemma CheckedExactly(seed: uint16, data: seq<byte>, trailer: seq<byte>)
    requires |trailer| == 2
    ensures Feed(Seed(seed), ByteBits(data + trailer)) == ZERO <==> GetLe16(trailer, 0) == Crc16(seed, data)
  {
    var r := Feed(Seed(seed), ByteBits(data));
    ByteBitsConcat(data, trailer);
    FeedConcat(Seed(seed), ByteBits(data), ByteBits(trailer));
    FeedTrailer(r, ByteBits(trailer));
    TrailerMatches(r, trailer);
  }

  lemma TrailerMatches(r: Register, trailer: seq<byte>)
    requires |trailer| == 2
    ensures ByteBits(trailer) == r <==> GetLe16(trailer, 0) == Value(r)
  {
    TrailerBits(r);
    Le16Of(trailer, Value(r));
    if ByteBits(trailer) == r {
      ByteBitsInjective(trailer, Le16(Value(r)));
    }
  }

  /** The bits in which two strings of the same length differ. */
  function Damage(x: seq<byte>, y: seq<byte>): seq<bool>
    requires |x| == |y|
  {
    Xor(ByteBits(x), ByteBits(y))
  }

  /** All differences lie within 16 consecutive bits, and there is one. */
  ghost predicate IsBurst(e: seq<bool>, at: nat) {
    && true in e
    && forall i | 0 <= i < |e| && e[i] :: at <= i < at + 16
  }

  /** The register after the damaged string is the register the damage alone leaves,
      when the intact string leaves zero. */
  lemma DamageAlone(r: Register, x: seq<byte>, y: seq<byte>)
    requires |x| == |y| && Feed(r, ByteBits(x)) == ZERO
    ensures Feed(r, ByteBits(y)) == Feed(ZERO, Damage(x, y))
  {
    var xs, ys, e := ByteBits(x), ByteBits(y), Damage(x, y);
    assert Xor(xs, e) == ys;
    assert Xor(r, ZERO) == r;
    FeedLinear(r, ZERO, xs, e);
    var f := Feed(ZERO, e);
    assert Xor(ZERO, f) == f;
  }

  lemma BurstShape(e: seq<bool>, at: nat) returns (w: seq<bool>)
    requires IsBurst(e, at)
    ensures at <= |e| && |w| <= 16 && at + |w| <= |e| && true in w
    ensures e == Clear(at) + w + Clear(|e| - at - |w|)
  {
    var i :| 0 <= i < |e| && e[i];
    var hi := if at + 16 <= |e| then at + 16 else |e|;
    w := e[at..hi];
    assert w[i - at];
  }

  lemma BurstChangesRegister(r: Register, x: seq<byte>, y: seq<byte>, at: nat)
    requires |x| == |y| && Feed(r, ByteBits(x)) == ZERO
    requires IsBurst(Damage(x, y), at)
    ensures Feed(r, ByteBits(y)) != ZERO
  {
    DamageAlone(r, x, y);
    var e := Damage(x, y);
    var w := BurstShape(e, at);
    BurstDetected(at, w, |e| - at - |w|);
  }

  lemma OddDamageChangesRegister(r: Register, x: seq<byte>, y: seq<byte>)
    requires |x| == |y| && Feed(r, ByteBits(x)) == ZERO
    requires Ones(Damage(x, y)) % 2 == 1
    ensures Feed(r, ByteBits(y)) != ZERO
  {
    DamageAlone(r, x, y);
    ParityOfOnes(Damage(x, y));
    FeedParity(ZERO, Damage(x, y));
    ParityClear(16);
    assert Clear(16) == ZERO;
  }
}
