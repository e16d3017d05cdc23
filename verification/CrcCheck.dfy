/**
  * The checksum against answers known from outside: the residue that CRC-32 leaves after any message and
  * its checksum, and the check value of the catalogue. Words are computed with as hexadecimal digits.
  */
module CrcCheck {
  import opened Bytes
  import opened Crc

  // ---------- words as eight hexadecimal digits, least significant first ----------

  /** A digit is its four bits. */
  datatype Digit = Digit(p: bool, q: bool, r: bool, s: bool)

  const X0: Digit := Digit(false, false, false, false)
  const X1: Digit := Digit(true, false, false, false)
  const X2: Digit := Digit(false, true, false, false)
  const X3: Digit := Digit(true, true, false, false)
  const X4: Digit := Digit(false, false, true, false)
  const X5: Digit := Digit(true, false, true, false)
  const X6: Digit := Digit(false, true, true, false)
  const X7: Digit := Digit(true, true, true, false)
  const X8: Digit := Digit(false, false, false, true)
  const X9: Digit := Digit(true, false, false, true)
  const XA: Digit := Digit(false, true, false, true)
  const XB: Digit := Digit(true, true, false, true)
  const XC: Digit := Digit(false, false, true, true)
  const XD: Digit := Digit(true, false, true, true)
  const XE: Digit := Digit(false, true, true, true)
  const XF: Digit := Digit(true, true, true, true)

  function OfDigit(d: Digit): (n: nat)
    ensures n < 16
  {
    (if d.p then 1 else 0) + 2 * ((if d.q then 1 else 0) + 2 * ((if d.r then 1 else 0) + 2 * (if d.s then 1 else 0)))
  }

  datatype Hex = Hex(a: Digit, b: Digit, c: Digit, d: Digit, e: Digit, f: Digit, g: Digit, h: Digit)

  function OfHex(x: Hex): (n: nat)
  {
    OfDigit(x.a) + 16 * (OfDigit(x.b) + 16 * (OfDigit(x.c) + 16 * (OfDigit(x.d) + 16 * (OfDigit(x.e) + 16 * (OfDigit(x.f)
      + 16 * (OfDigit(x.g) + 16 * OfDigit(x.h)))))))
  }

  function Four(d: Digit): (r: seq<bool>) { [d.p, d.q, d.r, d.s] }

  function HexBits(x: Hex): (w: Word)
  {
    Four(x.a) + (Four(x.b) + (Four(x.c) + (Four(x.d) + (Four(x.e) + (Four(x.f) + (Four(x.g) + Four(x.h)))))))
  }

  lemma Unfold(n: nat, width: nat)
    requires width > 0
    ensures Bits(n, width) == [n % 2 == 1] + Bits(n / 2, width - 1)
  {
  }

  lemma OneBit(bit: bool, rest: nat, width: nat)
    ensures Bits((if bit then 1 else 0) + 2 * rest, width + 1) == [bit] + Bits(rest, width)
  {
  }

  lemma FourBits(d: Digit, rest: nat, width: nat)
    ensures Bits(OfDigit(d) + 16 * rest, width + 4) == Four(d) + Bits(rest, width)
  {
    hide Bits;
    OneBit(d.s, rest, width);
    var s := (if d.s then 1 else 0) + 2 * rest;
    OneBit(d.r, s, width + 1);
    var r := (if d.r then 1 else 0) + 2 * s;
    OneBit(d.q, r, width + 2);
    OneBit(d.p, (if d.q then 1 else 0) + 2 * r, width + 3);
  }

  lemma BitsOfHex(x: Hex)
    ensures Bits(OfHex(x), 32) == HexBits(x)
  {
    hide Bits, Four, OfDigit;
    var g := OfDigit(x.g) + 16 * OfDigit(x.h);
    var f := OfDigit(x.f) + 16 * g;
    var e := OfDigit(x.e) + 16 * f;
    var d := OfDigit(x.d) + 16 * e;
    var c := OfDigit(x.c) + 16 * d;
    var b := OfDigit(x.b) + 16 * c;
    FourBits(x.h, 0, 0);
    FourBits(x.g, OfDigit(x.h), 4);
    FourBits(x.f, g, 8);
    FourBits(x.e, f, 12);
    FourBits(x.d, e, 16);
    FourBits(x.c, d, 20);
    FourBits(x.b, c, 24);
    FourBits(x.a, b, 28);
    assert Bits(0, 0) == [] && Four(x.h) + [] == Four(x.h);
  }

  function XorDigit(a: Digit, b: Digit): (r: Digit)
  {
    Digit(a.p != b.p, a.q != b.q, a.r != b.r, a.s != b.s)
  }

  function XorHex(x: Hex, y: Hex): (r: Hex)
  {
    Hex(XorDigit(x.a, y.a), XorDigit(x.b, y.b), XorDigit(x.c, y.c), XorDigit(x.d, y.d),
        XorDigit(x.e, y.e), XorDigit(x.f, y.f), XorDigit(x.g, y.g), XorDigit(x.h, y.h))
  }

  /** Bit by bit, on sequences of any one length. */
  ghost predicate Differ(p: seq<bool>, q: seq<bool>, r: seq<bool>)
  {
    |p| == |q| == |r| && forall i :: 0 <= i < |r| ==> r[i] == (p[i] != q[i])
  }

  lemma DifferFour(a: Digit, b: Digit)
    ensures Differ(Four(a), Four(b), Four(XorDigit(a, b)))
  {
  }

  lemma DifferMore(a: Digit, b: Digit, p: seq<bool>, q: seq<bool>, r: seq<bool>)
    requires Differ(p, q, r)
    ensures Differ(Four(a) + p, Four(b) + q, Four(XorDigit(a, b)) + r)
  {
    hide Four, XorDigit;
    DifferFour(a, b);
  }

  lemma XorOfHex(x: Hex, y: Hex)
    ensures Xor(HexBits(x), HexBits(y)) == HexBits(XorHex(x, y))
  {
    hide Four, XorDigit, Differ;
    DifferFour(x.h, y.h);
    var p7, q7, r7 := Four(x.h), Four(y.h), Four(XorDigit(x.h, y.h));
    DifferMore(x.g, y.g, p7, q7, r7);
    var p6, q6, r6 := Four(x.g) + p7, Four(y.g) + q7, Four(XorDigit(x.g, y.g)) + r7;
    DifferMore(x.f, y.f, p6, q6, r6);
    var p5, q5, r5 := Four(x.f) + p6, Four(y.f) + q6, Four(XorDigit(x.f, y.f)) + r6;
    DifferMore(x.e, y.e, p5, q5, r5);
    var p4, q4, r4 := Four(x.e) + p5, Four(y.e) + q5, Four(XorDigit(x.e, y.e)) + r5;
    DifferMore(x.d, y.d, p4, q4, r4);
    var p3, q3, r3 := Four(x.d) + p4, Four(y.d) + q4, Four(XorDigit(x.d, y.d)) + r4;
    DifferMore(x.c, y.c, p3, q3, r3);
    var p2, q2, r2 := Four(x.c) + p3, Four(y.c) + q3, Four(XorDigit(x.c, y.c)) + r3;
    DifferMore(x.b, y.b, p2, q2, r2);
    var p1, q1, r1 := Four(x.b) + p2, Four(y.b) + q2, Four(XorDigit(x.b, y.b)) + r2;
    DifferMore(x.a, y.a, p1, q1, r1);
    DifferIsXor(HexBits(x), HexBits(y), HexBits(XorHex(x, y)));
  }

  lemma DifferIsXor(p: Word, q: Word, r: Word)
    requires Differ(p, q, r)
    ensures Xor(p, q) == r
  {
  }

  // ---------- four bits of the message at a time ----------

  const GENERATOR_0: Hex := Hex(X0, X2, X3, X8, X8, XB, XD, XE)
  const GENERATOR_1: Hex := Hex(X0, X9, X1, X4, XC, XD, X6, X7)
  const GENERATOR_2: Hex := Hex(X8, XC, X0, X2, XE, X6, XB, X3)
  const GENERATOR_3: Hex := Hex(X4, X6, X0, X1, X7, XB, XD, X1)
  const NOTHING: Hex := Hex(X0, X0, X0, X0, X0, X0, X0, X0)

  /** A number that needs fewer bits has zeros above them. */
  lemma {:induction false} BitsPadded(n: nat, width: nat, more: nat)
    requires n < Pow2(width)
    ensures Bits(n, width + more) == Bits(n, width) + Zeros(more)
    decreases width
  {
    if width == 0 {
      NoBits(more);
      assert Bits(n, width) + Zeros(more) == Zeros(more);
    } else {
      BitsPadded(n / 2, width - 1, more);
      assert [n % 2 == 1] + (Bits(n / 2, width - 1) + Zeros(more)) == Bits(n, width) + Zeros(more);
    }
  }

  lemma {:induction false} NoBits(width: nat)
    ensures Bits(0, width) == Zeros(width)
  {
    if width > 0 {
      NoBits(width - 1);
      assert Zeros(width) == [false] + Zeros(width - 1);
    }
  }

  lemma Doubled(n: nat)
    ensures Pow2(n + 1) == 2 * Pow2(n)
  {
  }

  lemma ShiftHalves(n: nat)
    requires n < Pow2(32)
    ensures ShiftRight(Bits(n, 32), 1) == Bits(n / 2, 32)
  {
    hide Bits, Pow2;
    Doubled(31);
    Unfold(n, 32);
    BitsPadded(n / 2, 31, 1);
  }

  lemma DigitValues()
    ensures OfDigit(X0) == 0 && OfDigit(X1) == 1 && OfDigit(X2) == 2 && OfDigit(X3) == 3 && OfDigit(X4) == 4 && OfDigit(X5) == 5
    ensures OfDigit(X6) == 6 && OfDigit(X7) == 7 && OfDigit(X8) == 8 && OfDigit(X9) == 9 && OfDigit(XA) == 10
    ensures OfDigit(XB) == 11 && OfDigit(XC) == 12 && OfDigit(XD) == 13 && OfDigit(XE) == 14 && OfDigit(XF) == 15
  {
  }

  lemma GeneratorHex()
    ensures OfHex(GENERATOR_0) == GENERATOR && OfHex(GENERATOR_1) == GENERATOR / 2
    ensures OfHex(GENERATOR_2) == GENERATOR / 4 && OfHex(GENERATOR_3) == GENERATOR / 8 && OfHex(NOTHING) == 0
  {
    hide OfDigit;
    DigitValues();
  }

  lemma GeneratorBits()
    ensures HexBits(GENERATOR_0) == POLYNOMIAL && HexBits(GENERATOR_1) == ShiftRight(POLYNOMIAL, 1)
    ensures HexBits(GENERATOR_2) == ShiftRight(POLYNOMIAL, 2) && HexBits(GENERATOR_3) == ShiftRight(POLYNOMIAL, 3)
    ensures HexBits(NOTHING) == Zeros(32)
  {
    hide Bits, HexBits, Pow2, OfHex, ShiftRight;
    WordLimit();
    GeneratorHex();
    BitsOfHex(GENERATOR_0);
    BitsOfHex(GENERATOR_1);
    BitsOfHex(GENERATOR_2);
    BitsOfHex(GENERATOR_3);
    BitsOfHex(NOTHING);
    NoBits(32);
    ShiftHalves(GENERATOR);
    ShiftHalves(GENERATOR / 2);
    ShiftHalves(GENERATOR / 4);
    ShiftTwice(POLYNOMIAL, 1);
    ShiftTwice(POLYNOMIAL, 2);
  }

  lemma ShiftTwice(w: Word, n: nat)
    requires n < 32
    ensures ShiftRight(ShiftRight(w, n), 1) == ShiftRight(w, n + 1)
  {
  }

  lemma LowBitsAreZero()
    ensures forall i :: 0 <= i < 4 ==> !POLYNOMIAL[i]
  {
    hide Bits;
    FourBits(X0, GENERATOR / 16, 28);
  }

  function BitAt(w: Word, i: nat): (b: bool) { i < 32 && w[i] }

  lemma StepAt(c: Word, i: nat)
    ensures BitAt(BitStep(c), i) == (BitAt(c, i + 1) != (c[0] && BitAt(POLYNOMIAL, i)))
  {
    hide Bits;
  }

  lemma TwoStepsAt(c: Word, i: nat)
    requires !POLYNOMIAL[0]
    ensures BitAt(BitStep(BitStep(c)), i) ==
              (BitAt(c, i + 2) != ((c[0] && BitAt(POLYNOMIAL, i + 1)) != (c[1] && BitAt(POLYNOMIAL, i))))
  {
    hide BitStep, Bits;
    StepAt(BitStep(c), i);
    StepAt(c, i + 1);
    StepAt(c, 0);
  }

  /** What the generator adds for a bit that leaves the register. */
  function Added(bit: bool, x: Hex): (r: Hex) { if bit then x else NOTHING }

  /** Four bits of the register leave it at once. */
  function HexStep(x: Hex): (r: Hex)
  {
    XorHex(Hex(x.b, x.c, x.d, x.e, x.f, x.g, x.h, X0),
           XorHex(XorHex(Added(x.a.p, GENERATOR_3), Added(x.a.q, GENERATOR_2)),
                  XorHex(Added(x.a.r, GENERATOR_1), Added(x.a.s, GENERATOR_0))))
  }

  /** Bit `i` after four steps: the bit four places up, and the generator for each of the bits that left. */
  lemma FourStepsAt(c: Word, i: nat)
    requires i < 32 && !POLYNOMIAL[0] && !POLYNOMIAL[1] && !POLYNOMIAL[2]
    ensures BitSteps(c, 4)[i] ==
              (BitAt(c, i + 4) != (((c[0] && BitAt(POLYNOMIAL, i + 3)) != (c[1] && BitAt(POLYNOMIAL, i + 2)))
                                   != ((c[2] && BitAt(POLYNOMIAL, i + 1)) != (c[3] && BitAt(POLYNOMIAL, i)))))
  {
    hide BitStep, BitSteps, Bits;
    var c2 := BitStep(BitStep(c));
    FourSingleSteps(c);
    TwoStepsAt(c2, i);
    TwoStepsAt(c, i + 2);
    TwoStepsAt(c, 0);
    TwoStepsAt(c, 1);
  }

  lemma FourSingleSteps(c: Word)
    ensures BitSteps(c, 4) == BitStep(BitStep(BitStep(BitStep(c))))
  {
    hide BitStep;
    assert BitSteps(c, 1) == BitStep(c);
    assert BitSteps(c, 2) == BitStep(BitStep(c));
  }

  lemma FourSteps(c: Word)
    ensures var left := Xor(Pick(c[0], 3), Pick(c[1], 2));
            var right := Xor(Pick(c[2], 1), Pick(c[3], 0));
            BitSteps(c, 4) == Xor(ShiftRight(c, 4), Xor(left, right))
  {
    hide BitSteps, Bits;
    LowBitsAreZero();
    var r := Xor(ShiftRight(c, 4), Xor(Xor(Pick(c[0], 3), Pick(c[1], 2)), Xor(Pick(c[2], 1), Pick(c[3], 0))));
    forall i | 0 <= i < 32
      ensures BitSteps(c, 4)[i] == r[i]
    {
      FourStepsAt(c, i);
    }
  }

  function Pick(bit: bool, n: nat): (w: Word)
    requires n <= 32
  {
    if bit then ShiftRight(POLYNOMIAL, n) else Zeros(32)
  }

  lemma StepOfHex(x: Hex)
    ensures BitSteps(HexBits(x), 4) == HexBits(HexStep(x))
  {
    hide BitSteps, Bits, Xor, XorHex, HexBits, Added, Pick, ShiftRight;
    var w := HexBits(x);
    FourSteps(w);
    LowDigit(x);
    AddedBits(w[0]);
    AddedBits(w[1]);
    AddedBits(w[2]);
    AddedBits(w[3]);
    var left := XorHex(Added(w[0], GENERATOR_3), Added(w[1], GENERATOR_2));
    var right := XorHex(Added(w[2], GENERATOR_1), Added(w[3], GENERATOR_0));
    XorOfHex(Added(w[0], GENERATOR_3), Added(w[1], GENERATOR_2));
    XorOfHex(Added(w[2], GENERATOR_1), Added(w[3], GENERATOR_0));
    XorOfHex(left, right);
    XorOfHex(Hex(x.b, x.c, x.d, x.e, x.f, x.g, x.h, X0), XorHex(left, right));
    ShiftOfHex(x);
  }

  lemma LowDigit(x: Hex)
    ensures HexBits(x)[0] == x.a.p && HexBits(x)[1] == x.a.q
    ensures HexBits(x)[2] == x.a.r && HexBits(x)[3] == x.a.s
  {
  }

  lemma Tack(p: seq<bool>, q: seq<bool>, z: seq<bool>)
    ensures (p + q) + z == p + (q + z)
  {
  }

  lemma ShiftOfHex(x: Hex)
    ensures ShiftRight(HexBits(x), 4) == HexBits(Hex(x.b, x.c, x.d, x.e, x.f, x.g, x.h, X0))
  {
    var z := Four(X0);
    assert z == Zeros(4) && |Four(x.a)| == 4;
    hide Four;
    var g := Four(x.g) + Four(x.h);
    var f := Four(x.f) + g;
    var e := Four(x.e) + f;
    var d := Four(x.d) + e;
    var c := Four(x.c) + d;
    Tack(Four(x.g), Four(x.h), z);
    Tack(Four(x.f), g, z);
    Tack(Four(x.e), f, z);
    Tack(Four(x.d), e, z);
    Tack(Four(x.c), d, z);
    Tack(Four(x.b), c, z);
    assert HexBits(x) == Four(x.a) + (Four(x.b) + c);
    assert HexBits(x)[4..] == Four(x.b) + c;
  }

  lemma AddedBits(bit: bool)
    ensures Pick(bit, 0) == HexBits(Added(bit, GENERATOR_0)) && Pick(bit, 1) == HexBits(Added(bit, GENERATOR_1))
    ensures Pick(bit, 2) == HexBits(Added(bit, GENERATOR_2)) && Pick(bit, 3) == HexBits(Added(bit, GENERATOR_3))
  {
    hide HexBits, Bits;
    GeneratorBits();
    assert ShiftRight(POLYNOMIAL, 0) == POLYNOMIAL;
  }

  // ---------- the residue ----------

  /** A register after a message goes on with the next one. */
  lemma {:induction false} FromConcat(c: Word, s: Bytes, t: Bytes)
    ensures BitwiseFrom(c, s + t) == BitwiseFrom(BitwiseFrom(c, s), t)
    decreases |t|
  {
    hide BitSteps, Xor, ByteBits;
    if t == [] {
      assert s + t == s;
    } else {
      var m := |t| - 1;
      assert (s + t)[..|s + t| - 1] == s + t[..m] && (s + t)[|s + t| - 1] == t[m];
      FromConcat(c, s, t[..m]);
    }
  }

  lemma FromByte(c: Word, b: Byte)
    ensures BitwiseFrom(c, [b]) == BitSteps(Xor(c, ByteBits(b)), 8)
  {
    hide BitSteps, Xor, ByteBits;
    assert [b][..0] == [];
  }

  /** A word added to the register is taken in byte by byte, lowest byte first. */
  lemma AbsorbByte(c: Word, w: Word)
    ensures BitSteps(Xor(c, w), 8) == Xor(BitSteps(Xor(c, ByteBits(LowByte(w))), 8), ShiftRight(w, 8))
  {
    hide BitSteps, ShiftRight, ByteBits, Xor;
    var low: Word, high: Word := w[..8] + Zeros(24), Zeros(8) + w[8..];
    LowAndHigh(w);
    XorRegroup(c, low, high);
    BitStepsLinear(Xor(c, low), high, 8);
    ZeroBitsOnlyShift(high, 8);
  }

  lemma XorRegroup(a: Word, b: Word, c: Word)
    ensures Xor(a, Xor(b, c)) == Xor(Xor(a, b), c)
  {
  }

  lemma {:induction false} StepsInTwo(c: Word, m: nat, n: nat)
    ensures BitSteps(c, m + n) == BitSteps(BitSteps(c, m), n)
    decreases n
  {
    hide BitStep;
    if n > 0 {
      StepsInTwo(c, m, n - 1);
    }
  }

  function Octets(w: Word): (s: Bytes)
  {
    var w1 := ShiftRight(w, 8);
    var w2 := ShiftRight(w1, 8);
    [LowByte(w), LowByte(w1), LowByte(w2), LowByte(ShiftRight(w2, 8))]
  }

  lemma AbsorbWord(c: Word, w: Word)
    ensures BitwiseFrom(c, Octets(w)) == BitSteps(Xor(c, w), 32)
  {
    hide BitSteps, ShiftRight, ByteBits, Xor, BitwiseFrom, LowByte;
    var w1 := ShiftRight(w, 8);
    var w2 := ShiftRight(w1, 8);
    var w3 := ShiftRight(w2, 8);
    var c1 := BitwiseFrom(c, [LowByte(w)]);
    var c2 := BitwiseFrom(c1, [LowByte(w1)]);
    var c3 := BitwiseFrom(c2, [LowByte(w2)]);
    var c4 := BitwiseFrom(c3, [LowByte(w3)]);
    FromByte(c, LowByte(w));
    FromByte(c1, LowByte(w1));
    FromByte(c2, LowByte(w2));
    FromByte(c3, LowByte(w3));
    AbsorbByte(c, w);
    AbsorbByte(c1, w1);
    AbsorbByte(c2, w2);
    AbsorbByte(c3, w3);
    StepsInTwo(Xor(c, w), 8, 24);
    StepsInTwo(Xor(c1, w1), 8, 16);
    StepsInTwo(Xor(c2, w2), 8, 8);
    AllShiftedOut(w, c4);
    assert Octets(w) == [LowByte(w)] + ([LowByte(w1)] + ([LowByte(w2)] + [LowByte(w3)]));
    FromConcat(c, [LowByte(w)], [LowByte(w1)] + ([LowByte(w2)] + [LowByte(w3)]));
    FromConcat(c1, [LowByte(w1)], [LowByte(w2)] + [LowByte(w3)]);
    FromConcat(c2, [LowByte(w2)], [LowByte(w3)]);
  }

  lemma AllShiftedOut(w: Word, c: Word)
    ensures Xor(c, ShiftRight(ShiftRight(ShiftRight(ShiftRight(w, 8), 8), 8), 8)) == c
  {
    var w2 := ShiftRight(ShiftRight(w, 8), 8);
    assert w2 == w[16..] + Zeros(16);
    var w4 := ShiftRight(ShiftRight(w2, 8), 8);
    assert w4 == Zeros(32);
  }

  /** The four bytes that are written for a word are its octets. */
  lemma PutIsOctets(w: Word)
    ensures Put32(WordOf(w)) == Octets(w)
  {
    hide LowByte, WordOf, ShiftRight;
    var w1 := ShiftRight(w, 8);
    var w2 := ShiftRight(w1, 8);
    LowestByte(w);
    LowestByte(w1);
    LowestByte(w2);
    LowestByte(ShiftRight(w2, 8));
  }

  lemma LowestByte(w: Word)
    ensures LowByte(w) == WordOf(w) % 256 && WordOf(ShiftRight(w, 8)) == WordOf(w) / 256
  {
    hide Value, Pow2;
    WordLimit();
    assert w == w[..8] + w[8..];
    ValueOfConcat(w[..8], w[8..]);
    ValueOfConcat(w[8..], Zeros(8));
    ValueOfZeros(8);
  }

  lemma {:induction false} ValueOfConcat(a: seq<bool>, b: seq<bool>)
    ensures Value(a + b) == Value(a) + Pow2(|a|) * Value(b)
    decreases |a|
  {
    if a == [] {
      assert a + b == b;
    } else {
      assert (a + b)[1..] == a[1..] + b && (a + b)[0] == a[0];
      ValueOfConcat(a[1..], b);
      Twice(Pow2(|a| - 1), Value(b));
    }
  }

  lemma Twice(p: nat, v: nat)
    ensures 2 * (p * v) == (2 * p) * v
  {
  }

  lemma {:induction false} ValueOfZeros(n: nat)
    ensures Value(Zeros(n)) == 0
  {
    if n > 0 {
      assert Zeros(n)[1..] == Zeros(n - 1);
      ValueOfZeros(n - 1);
    }
  }

  const HEX_ONES: Hex := Hex(XF, XF, XF, XF, XF, XF, XF, XF)

  function HexSteps(x: Hex, n: nat): (r: Hex) { if n == 0 then x else HexStep(HexSteps(x, n - 1)) }

  lemma {:induction false} StepsOfHex(x: Hex, n: nat)
    ensures BitSteps(HexBits(x), 4 * n) == HexBits(HexSteps(x, n))
  {
    hide HexBits, HexStep, BitStep;
    if n > 0 {
      StepsOfHex(x, n - 1);
      StepsInTwo(HexBits(x), 4 * (n - 1), 4);
      StepOfHex(HexSteps(x, n - 1));
    }
  }

  lemma ResidueInHex()
    ensures HexSteps(HEX_ONES, 8) == Hex(X3, XE, X0, X2, XB, XB, XE, XD)
  {
    hide HexStep;
    ResidueDigits();
    assert HexSteps(HEX_ONES, 2) == Hex(X2, X7, X0, X1, XD, XF, XD, X2);
    assert HexSteps(HEX_ONES, 4) == Hex(X0, X0, XD, XE, X6, X2, XE, XB);
    assert HexSteps(HEX_ONES, 6) == Hex(XD, XE, X6, X2, XE, XB, X0, X0);
  }

  lemma ResidueDigits()
    ensures HexStep(Hex(XF, XF, XF, XF, XF, XF, XF, XF)) == Hex(X3, XE, XD, X0, X2, X4, X2, XB)
    ensures HexStep(Hex(X3, XE, XD, X0, X2, X4, X2, XB)) == Hex(X2, X7, X0, X1, XD, XF, XD, X2)
    ensures HexStep(Hex(X2, X7, X0, X1, XD, XF, XD, X2)) == Hex(XF, XC, X1, XF, X1, XB, X9, X3)
    ensures HexStep(Hex(XF, XC, X1, XF, X1, XB, X9, X3)) == Hex(X0, X0, XD, XE, X6, X2, XE, XB)
    ensures HexStep(Hex(X0, X0, XD, XE, X6, X2, XE, XB)) == Hex(X0, XD, XE, X6, X2, XE, XB, X0)
    ensures HexStep(Hex(X0, XD, XE, X6, X2, XE, XB, X0)) == Hex(XD, XE, X6, X2, XE, XB, X0, X0)
    ensures HexStep(Hex(XD, XE, X6, X2, XE, XB, X0, X0)) == Hex(XA, XB, X0, X3, X8, XD, X6, X8)
    ensures HexStep(Hex(XA, XB, X0, X3, X8, XD, X6, X8)) == Hex(X3, XE, X0, X2, XB, XB, XE, XD)
  {
  }

  /**
    * Whatever the message, the register after the message and its checksum, as they stand in a frame of
    * the log, is the residue of CRC-32.
    */
  lemma ResidueAlways(message: Bytes)
    ensures BitwiseFrom(ONES, message + Put32(WordOf(Checksum(message)))) == Bits(0xDEBB20E3, 32)
  {
    hide BitwiseFrom, WordOf, Put32, Octets, Bits, BitSteps, HexBits, HexStep, HexSteps, OfHex;
    var c := BitwiseFrom(ONES, message);
    FromConcat(ONES, message, Octets(Not(c)));
    PutIsOctets(Not(c));
    AbsorbWord(c, Not(c));
    assert Xor(c, Not(c)) == ONES;
    OnesInHex();
    StepsOfHex(HEX_ONES, 8);
    ResidueInHex();
    BitsOfHex(Hex(X3, XE, X0, X2, XB, XB, XE, XD));
    KnownNumbers();
  }

  lemma OnesInHex()
    ensures HexBits(HEX_ONES) == ONES
  {
    assert forall i :: 0 <= i < 32 ==> HexBits(HEX_ONES)[i];
  }

  lemma KnownNumbers()
    ensures OfHex(Hex(X3, XE, X0, X2, XB, XB, XE, XD)) == 0xDEBB20E3 && OfHex(Hex(X6, X2, X9, X3, X4, XF, XB, XC)) == 0xCBF43926
  {
    hide OfDigit;
    DigitValues();
  }

  // ---------- the check value ----------

  /** One byte of the message, its low digit first. */
  function HexByte(x: Hex, low: Digit, high: Digit): (r: Hex)
  {
    HexStep(HexStep(XorHex(x, Hex(low, high, X0, X0, X0, X0, X0, X0))))
  }

  lemma ByteOfHex(c: Word, x: Hex, low: Digit, high: Digit)
    requires c == HexBits(x)
    ensures OfDigit(low) + 16 * OfDigit(high) < 256
    ensures BitwiseFrom(c, [OfDigit(low) + 16 * OfDigit(high)]) == HexBits(HexByte(x, low, high))
  {
    hide BitSteps, HexBits, HexStep, XorHex, Xor, BitwiseFrom, OfDigit, Bits;
    var b := OfDigit(low) + 16 * OfDigit(high);
    var y := Hex(low, high, X0, X0, X0, X0, X0, X0);
    FromByte(c, b);
    BitsOfHex(y);
    assert OfHex(y) == b by {
      DigitValues();
    }
    WordLimit();
    BitsPadded(b, 8, 24);
    XorOfHex(x, y);
    StepsInTwo(Xor(c, ByteBits(b)), 4, 4);
    StepOfHex(XorHex(x, y));
    StepOfHex(HexStep(XorHex(x, y)));
  }

  lemma CheckDigits()
    ensures HexByte(Hex(XF, XF, XF, XF, XF, XF, XF, XF), X1, X3) == Hex(X8, X4, X0, X1, X3, X2, XC, X7)
    ensures HexByte(Hex(X8, X4, X0, X1, X3, X2, XC, X7), X2, X3) == Hex(X2, X3, XB, XB, XC, XA, X0, XB)
    ensures HexByte(Hex(X2, X3, XB, XB, XC, XA, X0, XB), X3, X3) == Hex(XD, X2, XC, X9, X7, XB, X7, X7)
    ensures HexByte(Hex(XD, X2, XC, X9, X7, XB, X7, X7), X4, X3) == Hex(XC, X5, XF, X1, XC, X1, X4, X6)
    ensures HexByte(Hex(XC, X5, XF, X1, XC, X1, X4, X6), X5, X3) == Hex(X3, XE, X5, XC, XA, X0, X4, X3)
    ensures HexByte(Hex(X3, XE, X5, XC, XA, X0, X4, X3), X6, X3) == Hex(XE, X9, XC, X2, XD, X8, X6, XF)
    ensures HexByte(Hex(XE, X9, XC, X2, XD, X8, X6, XF), X7, X3) == Hex(X0, X6, X6, X9, XC, XF, XF, XA)
    ensures HexByte(Hex(X0, X6, X6, X9, XC, XF, XF, XA), X8, X3) == Hex(X0, X5, X5, X2, XF, X1, X5, X6)
    ensures HexByte(Hex(X0, X5, X5, X2, XF, X1, X5, X6), X9, X3) == Hex(X9, XD, X6, XC, XB, X0, X4, X3)
  {
  }

  /** The decimal digits from 1 on, in ASCII. */
  function Numerals(n: nat): (s: Bytes)
    requires n < 10
  {
    if n == 0 then [] else Numerals(n - 1) + [48 + n]
  }

  lemma NextNumeral(n: nat, x: Hex, d: Digit)
    requires n < 9 && BitwiseFrom(ONES, Numerals(n)) == HexBits(x) && OfDigit(d) == n + 1
    ensures BitwiseFrom(ONES, Numerals(n + 1)) == HexBits(HexByte(x, d, X3))
  {
    hide HexBits, HexByte, BitwiseFrom, OfDigit;
    DigitValues();
    ByteOfHex(BitwiseFrom(ONES, Numerals(n)), x, d, X3);
    FromConcat(ONES, Numerals(n), [49 + n]);
  }

  lemma AllNumerals()
    ensures Numerals(9) == [49, 50, 51, 52, 53, 54, 55, 56, 57]
  {
    assert Numerals(3) == [49, 50, 51];
    assert Numerals(6) == [49, 50, 51, 52, 53, 54];
  }

  lemma Inverted(x: Hex)
    ensures Not(HexBits(x)) == HexBits(XorHex(x, HEX_ONES)) && WordOf(HexBits(x)) == OfHex(x)
  {
    hide HexBits, Bits, XorHex, Pow2, Value, OfDigit;
    OnesInHex();
    XorOfHex(x, HEX_ONES);
    NotIsXor(HexBits(x));
    BitsOfHex(x);
    WordLimit();
    ValueOfBits(OfHex(x), 32);
  }

  lemma NotIsXor(w: Word)
    ensures Not(w) == Xor(w, ONES)
  {
  }

  lemma LastRegister()
    ensures XorHex(Hex(X9, XD, X6, XC, XB, X0, X4, X3), HEX_ONES) == Hex(X6, X2, X9, X3, X4, XF, XB, XC)
  {
  }

  /** The check value that catalogues of checksums give for CRC-32: that of the bytes of "123456789". */
  lemma CheckValue()
    ensures WordOf(Checksum([49, 50, 51, 52, 53, 54, 55, 56, 57])) == 0xCBF43926
  {
    hide HexBits, HexByte, OfDigit, OfHex, WordOf, XorHex, BitwiseFrom, Numerals;
    DigitValues();
    CheckDigits();
    OnesInHex();
    NoNumerals();
    NextNumeral(0, HEX_ONES, X1);
    NextNumeral(1, Hex(X8, X4, X0, X1, X3, X2, XC, X7), X2);
    NextNumeral(2, Hex(X2, X3, XB, XB, XC, XA, X0, XB), X3);
    NextNumeral(3, Hex(XD, X2, XC, X9, X7, XB, X7, X7), X4);
    NextNumeral(4, Hex(XC, X5, XF, X1, XC, X1, X4, X6), X5);
    NextNumeral(5, Hex(X3, XE, X5, XC, XA, X0, X4, X3), X6);
    NextNumeral(6, Hex(XE, X9, XC, X2, XD, X8, X6, XF), X7);
    NextNumeral(7, Hex(X0, X6, X6, X9, XC, XF, XF, XA), X8);
    NextNumeral(8, Hex(X0, X5, X5, X2, XF, X1, X5, X6), X9);
    AllNumerals();
    Inverted(Hex(X9, XD, X6, XC, XB, X0, X4, X3));
    LastRegister();
    Inverted(Hex(X6, X2, X9, X3, X4, XF, XB, XC));
    KnownNumbers();
  }

  lemma NoNumerals()
    ensures BitwiseFrom(ONES, Numerals(0)) == ONES
  {
  }
}
