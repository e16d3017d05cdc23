/** The checksum of a log record, src/wal.cpp:38-56. A 32-bit word is its bits, least significant first. */
module Crc {
  import opened Bytes

  type Word = w: seq<bool> | |w| == 32 witness seq(32, _ => false)

  // ---------- numbers as bits ----------

  function Bits(n: nat, width: nat): (r: seq<bool>)
    ensures |r| == width
  {
    if width == 0 then [] else [n % 2 == 1] + Bits(n / 2, width - 1)
  }

  function Value(bits: seq<bool>): (n: nat)
    ensures n < Pow2(|bits|)
  {
    if bits == [] then 0 else (if bits[0] then 1 else 0) + 2 * Value(bits[1..])
  }

  function Pow2(n: nat): (p: nat)
    ensures p >= 1
  {
    if n == 0 then 1 else 2 * Pow2(n - 1)
  }

  lemma {:induction false} ValueOfBits(n: nat, width: nat)
    requires n < Pow2(width)
    ensures Value(Bits(n, width)) == n
  {
    if width > 0 {
      ValueOfBits(n / 2, width - 1);
      assert Bits(n, width)[1..] == Bits(n / 2, width - 1);
    }
  }

  lemma {:induction false} BitsOfValue(bits: seq<bool>)
    ensures Bits(Value(bits), |bits|) == bits
  {
    if bits != [] {
      BitsOfValue(bits[1..]);
      assert Value(bits) / 2 == Value(bits[1..]);
      assert bits == [bits[0]] + bits[1..];
    }
  }

  lemma WordLimit()
    ensures Pow2(8) == 256 && Pow2(32) == 0x1_0000_0000
  {
    assert Pow2(4) == 16;
    assert Pow2(8) == 16 * Pow2(4);
    assert Pow2(12) == 16 * Pow2(8);
    assert Pow2(16) == 16 * Pow2(12);
    assert Pow2(20) == 16 * Pow2(16);
    assert Pow2(24) == 16 * Pow2(20);
    assert Pow2(28) == 16 * Pow2(24);
    assert Pow2(32) == 16 * Pow2(28);
  }

  /** The unsigned number a word holds. */
  function WordOf(w: Word): (n: nat)
    ensures n <= MAX_U32
  {
    WordLimit();
    Value(w)
  }

  lemma WordOfInjective(v: Word, w: Word)
    requires WordOf(v) == WordOf(w)
    ensures v == w
  {
    BitsOfValue(v);
    BitsOfValue(w);
  }

  // ---------- word operations ----------

  function Xor(a: Word, b: Word): (r: Word) { seq(32, i requires 0 <= i < 32 => a[i] != b[i]) }

  function Not(a: Word): (r: Word) { seq(32, i requires 0 <= i < 32 => !a[i]) }

  function Zeros(n: nat): (r: seq<bool>) { seq(n, _ => false) }

  function ShiftRight(a: Word, n: nat): (r: Word)
    requires n <= 32
  {
    a[n..] + Zeros(n)
  }

  /** A byte, widened to a word. */
  function ByteBits(b: Byte): (r: Word) { Bits(b, 8) + Zeros(24) }

  /** The low byte of a word. */
  function LowByte(w: Word): (b: Byte)
  {
    WordLimit();
    Value(w[..8])
  }

  lemma ByteBitsInjective(a: Byte, b: Byte)
    requires ByteBits(a) == ByteBits(b)
    ensures a == b
  {
    WordLimit();
    ValueOfBits(a, 8);
    ValueOfBits(b, 8);
    assert Bits(a, 8) == ByteBits(a)[..8] == ByteBits(b)[..8] == Bits(b, 8);
  }

  // ---------- bit-at-a-time CRC-32 (section 8 of RFC 1952) ----------

  const GENERATOR: nat := 0xEDB88320
  const POLYNOMIAL: Word := Bits(GENERATOR, 32)

  lemma {:induction false} TopBit(n: nat, width: nat)
    requires width >= 1 && Pow2(width - 1) <= n < Pow2(width)
    ensures Bits(n, width)[width - 1]
  {
    if width > 1 {
      TopBit(n / 2, width - 1);
    }
  }

  lemma PolynomialTopBit()
    ensures POLYNOMIAL[31]
  {
    WordLimit();
    assert Pow2(32) == 2 * Pow2(31);
    TopBit(GENERATOR, 32);
  }

  function BitStep(c: Word): (r: Word)
  {
    if c[0] then Xor(ShiftRight(c, 1), POLYNOMIAL) else ShiftRight(c, 1)
  }

  function BitSteps(c: Word, n: nat): (r: Word)
  {
    if n == 0 then c else BitStep(BitSteps(c, n - 1))
  }

  function BitwiseFrom(c: Word, s: Bytes): (r: Word)
  {
    if s == [] then c else BitSteps(Xor(BitwiseFrom(c, s[..|s| - 1]), ByteBits(s[|s| - 1])), 8)
  }

  const ONES: Word := Not(Zeros(32))

  /** CRC-32 as the standard defines it: one bit of the message at a time. */
  function Checksum(s: Bytes): (r: Word)
  {
    Not(BitwiseFrom(ONES, s))
  }

  lemma BitStepLinear(a: Word, b: Word)
    ensures BitStep(Xor(a, b)) == Xor(BitStep(a), BitStep(b))
  {
    hide Bits;
    var l, r := BitStep(Xor(a, b)), Xor(BitStep(a), BitStep(b));
    forall i | 0 <= i < 32
      ensures l[i] == r[i]
    {
    }
  }

  lemma {:induction false} BitStepsLinear(a: Word, b: Word, n: nat)
    ensures BitSteps(Xor(a, b), n) == Xor(BitSteps(a, n), BitSteps(b, n))
  {
    hide BitStep, Xor;
    if n > 0 {
      BitStepsLinear(a, b, n - 1);
      BitStepLinear(BitSteps(a, n - 1), BitSteps(b, n - 1));
    }
  }

  /** The top bit of a reduced word tells whether the polynomial was added, so no two words reduce to one. */
  lemma BitStepInjective(a: Word, b: Word)
    requires BitStep(a) == BitStep(b)
    ensures a == b
  {
    hide Bits;
    BitStepTop(a);
    BitStepTop(b);
    if a[0] {
      XorCancel(ShiftRight(a, 1), ShiftRight(b, 1), POLYNOMIAL);
    }
    assert a[1..] == ShiftRight(a, 1)[..31] == ShiftRight(b, 1)[..31] == b[1..];
    assert a == [a[0]] + a[1..] && b == [b[0]] + b[1..];
  }

  lemma BitStepTop(c: Word)
    ensures BitStep(c)[31] == c[0]
  {
    hide Bits;
    PolynomialTopBit();
  }

  lemma {:induction false} BitStepsInjective(a: Word, b: Word, n: nat)
    requires BitSteps(a, n) == BitSteps(b, n)
    ensures a == b
  {
    hide BitStep;
    if n > 0 {
      BitStepInjective(BitSteps(a, n - 1), BitSteps(b, n - 1));
      BitStepsInjective(a, b, n - 1);
    }
  }

  /** Reduction steps that meet only zero bits are plain shifts. */
  lemma {:induction false} ZeroBitsOnlyShift(c: Word, n: nat)
    requires n <= 32 && forall i :: 0 <= i < n ==> !c[i]
    ensures BitSteps(c, n) == ShiftRight(c, n)
  {
    hide Bits;
    if n > 0 {
      ZeroBitsOnlyShift(c, n - 1);
    }
  }

  // ---------- the table-driven form ----------

  ghost predicate IsTable(table: seq<Word>)
  {
    |table| == 256 && forall i: Byte :: table[i] == BitSteps(ByteBits(i), 8)
  }

  method BuildTable() returns (table: seq<Word>)
    ensures IsTable(table)
  {
    table := [];
    for i := 0 to 256
      invariant |table| == i
      invariant forall k: Byte :: k < i ==> table[k] == BitSteps(ByteBits(k), 8)
    {
      var c := ByteBits(i);
      for bit := 0 to 8
        invariant c == BitSteps(ByteBits(i), bit)
      {
        c := if c[0] then Xor(ShiftRight(c, 1), POLYNOMIAL) else ShiftRight(c, 1);
      }
      table := table + [c];
    }
  }

  /** A word is its low byte and the rest; the rest is what a shift by eight keeps. */
  lemma LowAndHigh(x: Word)
    ensures var low: Word, high: Word := x[..8] + Zeros(24), Zeros(8) + x[8..];
            && x == Xor(low, high) && ByteBits(LowByte(x)) == low && ShiftRight(high, 8) == ShiftRight(x, 8)
            && forall i :: 0 <= i < 8 ==> !high[i]
  {
    BitsOfValue(x[..8]);
  }

  lemma ShiftIgnoresByte(c: Word, b: Byte)
    ensures ShiftRight(Xor(c, ByteBits(b)), 8) == ShiftRight(c, 8)
  {
  }

  /** One table lookup does the work of eight bit steps. */
  lemma TableStep(table: seq<Word>, c: Word, b: Byte)
    requires IsTable(table)
    ensures Xor(table[LowByte(Xor(c, ByteBits(b)))], ShiftRight(c, 8)) == BitSteps(Xor(c, ByteBits(b)), 8)
  {
    hide Xor, ShiftRight, BitSteps, ByteBits;
    var x := Xor(c, ByteBits(b));
    var low: Word, high: Word := x[..8] + Zeros(24), Zeros(8) + x[8..];
    LowAndHigh(x);
    ZeroBitsOnlyShift(high, 8);
    BitStepsLinear(low, high, 8);
    ShiftIgnoresByte(c, b);
  }

  /** The table-driven loop computes CRC-32 on every byte string. */
  method ComputeCrc(table: seq<Word>, s: Bytes) returns (r: Word)
    requires IsTable(table)
    ensures r == Checksum(s)
  {
    var c := ONES;
    for i := 0 to |s|
      invariant c == BitwiseFrom(ONES, s[..i])
    {
      assert s[..i + 1][..i] == s[..i];
      TableStep(table, c, s[i]);
      c := Xor(table[LowByte(Xor(c, ByteBits(s[i])))], ShiftRight(c, 8));
    }
    assert s[..|s|] == s;
    r := Not(c);
  }

  // ---------- detection of a damaged byte ----------

  lemma XorCancel(a: Word, b: Word, x: Word)
    requires Xor(a, x) == Xor(b, x) || Xor(x, a) == Xor(x, b)
    ensures a == b
  {
    forall i | 0 <= i < 32
      ensures a[i] == b[i]
    {
      if Xor(a, x) == Xor(b, x) {
        assert Xor(a, x)[i] == Xor(b, x)[i];
      } else {
        assert Xor(x, a)[i] == Xor(x, b)[i];
      }
    }
  }

  lemma NotInjective(a: Word, b: Word)
    requires Not(a) == Not(b)
    ensures a == b
  {
    forall i | 0 <= i < 32
      ensures a[i] == b[i]
    {
      assert Not(a)[i] == Not(b)[i];
    }
  }

  lemma {:induction false} SameTailInjective(p: Bytes, q: Bytes, n: nat)
    requires n <= |p| == |q| && p[n..] == q[n..]
    requires BitwiseFrom(ONES, p) == BitwiseFrom(ONES, q)
    ensures BitwiseFrom(ONES, p[..n]) == BitwiseFrom(ONES, q[..n])
    decreases |p|
  {
    if n == |p| {
      assert p[..n] == p && q[..n] == q;
    } else {
      var m := |p| - 1;
      var p', q' := p[..m], q[..m];
      assert p[m] == p[n..][m - n] == q[n..][m - n] == q[m];
      BitStepsInjective(Xor(BitwiseFrom(ONES, p'), ByteBits(p[m])), Xor(BitwiseFrom(ONES, q'), ByteBits(q[m])), 8);
      XorCancel(BitwiseFrom(ONES, p'), BitwiseFrom(ONES, q'), ByteBits(p[m]));
      assert p'[n..] == p[n..][..m - n] == q[n..][..m - n] == q'[n..];
      SameTailInjective(p', q', n);
      assert p'[..n] == p[..n] && q'[..n] == q[..n];
    }
  }

  /** Two messages of one length that differ in exactly one byte never share a checksum. */
  lemma OneByteDetected(p: Bytes, q: Bytes, i: nat)
    requires i < |p| == |q| && p[i] != q[i]
    requires p[..i] == q[..i] && p[i + 1..] == q[i + 1..]
    ensures Checksum(p) != Checksum(q)
  {
    if Checksum(p) == Checksum(q) {
      var a, b := BitwiseFrom(ONES, p), BitwiseFrom(ONES, q);
      NotInjective(a, b);
      SameTailInjective(p, q, i + 1);
      assert p[..i + 1][..i] == p[..i] && q[..i + 1][..i] == q[..i];
      var c := BitwiseFrom(ONES, p[..i]);
      BitStepsInjective(Xor(c, ByteBits(p[i])), Xor(c, ByteBits(q[i])), 8);
      XorCancel(ByteBits(p[i]), ByteBits(q[i]), c);
      ByteBitsInjective(p[i], q[i]);
    }
  }
}
