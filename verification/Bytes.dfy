/** Bytes, 32-bit little-endian fields and decimal numbers, shared by every layer. */
module Bytes {

  datatype Option<+T> = None | Some(value: T)

  type Byte = x: int | 0 <= x < 256
  type Bytes = seq<Byte>

  const CR: Byte := 13
  const LF: Byte := 10
  const MINUS: Byte := 45

  const MAX_U32: nat := 0xFFFF_FFFF
  const MAX_U64: nat := 0xFFFF_FFFF_FFFF_FFFF
  const MAX_I64: int := 0x7FFF_FFFF_FFFF_FFFF
  const MIN_I64: int := -0x8000_0000_0000_0000

  type Int64 = n: int | MIN_I64 <= n <= MAX_I64

  // ---------- slices ----------

  lemma SliceSlice(whole: Bytes, a: nat, b: nat, k: nat)
    requires a <= b <= |whole| && k <= b - a
    ensures whole[a..b][..k] == whole[a..a + k] && whole[a..b][k..] == whole[a + k..b]
  {
  }

  lemma Cut(whole: Bytes, position: nat, a: Bytes, b: Bytes)
    requires position <= |whole| && whole[position..] == a + b
    ensures position + |a| <= |whole| && whole[position..position + |a|] == a && whole[position + |a|..] == b
  {
    var w := whole[position..];
    assert whole[position..position + |a|] == w[..|a|];
    assert whole[position + |a|..] == w[|a|..];
  }

  lemma Assoc(a: Bytes, b: Bytes, c: Bytes)
    ensures a + b + c == a + (b + c)
  {
  }

  lemma SliceOfPrefix(whole: Bytes, n: nat, from: nat, to: nat)
    requires from <= to <= n <= |whole|
    ensures whole[..n][from..to] == whole[from..to]
  {
  }

  // ---------- 32-bit little-endian words ----------

  function Put32(n: nat): (r: Bytes)
    requires n <= MAX_U32
    ensures |r| == 4 && Get32(r) == n
  {
    var n1: nat, a: Byte := n / 256, n % 256;
    var n2: nat, b: Byte := n1 / 256, n1 % 256;
    var n3: Byte, c: Byte := n2 / 256, n2 % 256;
    assert n == a + 256 * (b + 256 * (c + 256 * n3));
    [a, b, c, n3]
  }

  function Get32(p: Bytes): (n: nat)
    requires |p| >= 4
    ensures n <= MAX_U32
  {
    var a: nat, b: nat, c: nat, d: nat := p[0], p[1], p[2], p[3];
    a + 256 * (b + 256 * (c + 256 * d))
  }

  lemma PutOfGet(p: Bytes)
    requires |p| == 4
    ensures Put32(Get32(p)) == p
  {
    var n := Get32(p);
    assert n % 256 == p[0] && n / 256 == p[1] + 256 * (p[2] + 256 * p[3] as nat);
    assert n / 256 % 256 == p[1] && n / 256 / 256 == p[2] + 256 * p[3] as nat;
    assert n / 256 / 256 % 256 == p[2] && n / 256 / 256 / 256 == p[3] as nat;
    assert p == [p[0], p[1], p[2], p[3]];
  }

  // ---------- decimal numbers ----------

  predicate IsDigit(b: Byte) { 48 <= b <= 57 }

  predicate AllDigits(s: Bytes) { forall i :: 0 <= i < |s| ==> IsDigit(s[i]) }

  /** The decimal digits of `n`, without leading zeros. */
  function Digits(n: nat): (r: Bytes)
    ensures |r| >= 1 && AllDigits(r)
  {
    if n < 10 then [48 + n] else Digits(n / 10) + [48 + n % 10]
  }

  /** The number a string of digits stands for; leading zeros are allowed. */
  function DigitsValue(s: Bytes): (n: nat)
    requires AllDigits(s)
  {
    if s == [] then 0 else DigitsValue(s[..|s| - 1]) * 10 + (s[|s| - 1] - 48)
  }

  lemma {:induction false} DigitsValueOfDigits(n: nat)
    ensures DigitsValue(Digits(n)) == n
  {
    if n >= 10 {
      DigitsValueOfDigits(n / 10);
      assert Digits(n)[..|Digits(n)| - 1] == Digits(n / 10);
    }
  }

  lemma {:induction false} DigitsLength(n: nat, bound: nat, width: nat)
    requires width >= 1 && n < bound && bound <= Pow10(width)
    ensures |Digits(n)| <= width
    decreases width
  {
    if n >= 10 {
      DigitsLength(n / 10, n / 10 + 1, width - 1);
    }
  }

  function Pow10(width: nat): (p: nat)
    ensures p >= 1
  {
    if width == 0 then 1 else 10 * Pow10(width - 1)
  }

  /** `std::from_chars` into an unsigned type, accepted only when it uses the whole string. */
  function ParseUnsigned(s: Bytes, max: nat): (r: Option<nat>)
    ensures r.Some? ==> r.value <= max
  {
    if s != [] && AllDigits(s) && DigitsValue(s) <= max then Some(DigitsValue(s)) else None
  }

  /** `std::from_chars` into `int64_t`, accepted only when it uses the whole string. */
  function ParseSigned(s: Bytes): (r: Option<Int64>)
  {
    if s == [] then None
    else if s[0] == MINUS then
      match ParseUnsigned(s[1..], -MIN_I64)
      case None => None
      case Some(n) => var k: int := n; Some(-k)
    else
      match ParseUnsigned(s, MAX_I64)
      case None => None
      case Some(n) => Some(n)
  }

  /** `std::to_string` of a signed number. */
  function ToDecimal(n: int): (r: Bytes)
  {
    if n < 0 then [MINUS] + Digits(-n) else Digits(n)
  }

  lemma ParseOfDigits(n: nat, max: nat)
    requires n <= max
    ensures ParseUnsigned(Digits(n), max) == Some(n)
  {
    DigitsValueOfDigits(n);
  }

  /** Every 64-bit integer survives being printed and read back. */
  lemma DecimalRoundTrip(n: int)
    requires MIN_I64 <= n <= MAX_I64
    ensures ParseSigned(ToDecimal(n)) == Some(n)
    ensures |ToDecimal(n)| <= 20
  {
    if n < 0 {
      ParseOfDigits(-n, -MIN_I64);
      assert ToDecimal(n)[1..] == Digits(-n);
      Pow10Of19();
      DigitsLength(-n, -n + 1, 19);
    } else {
      ParseOfDigits(n, MAX_I64);
      Pow10Of19();
      DigitsLength(n, n + 1, 19);
    }
  }

  lemma {:induction false} DigitsValueBound(s: Bytes)
    requires AllDigits(s)
    ensures DigitsValue(s) < Pow10(|s|)
  {
    if s != [] {
      DigitsValueBound(s[..|s| - 1]);
    }
  }

  /** No numeral of a number is shorter than the printed one. */
  lemma PrintedIsShortest(s: Bytes)
    requires ParseSigned(s).Some?
    ensures |ToDecimal(ParseSigned(s).value)| <= |s|
  {
    var digits := if s[0] == MINUS then s[1..] else s;
    DigitsValueBound(digits);
    DigitsLength(DigitsValue(digits), DigitsValue(digits) + 1, |digits|);
  }

  lemma Pow10Of19()
    ensures Pow10(19) == 10_000_000_000_000_000_000
  {
    assert Pow10(4) == 10000;
    assert Pow10(8) == 10000 * Pow10(4);
    assert Pow10(12) == 10000 * Pow10(8);
    assert Pow10(16) == 10000 * Pow10(12);
    assert Pow10(19) == 1000 * Pow10(16);
  }
}
