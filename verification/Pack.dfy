/** Packed elements: a tagged body and a back-length that is read from its end, src/pack.cpp. */
module Pack {
  import opened Bytes

  datatype Element = Text(text: Bytes) | Number(number: Int64)

  const INTEGER_TAG: Byte := 0x80
  const LONG_TAG: Byte := 0xC0
  const MAX_STRING_HEADER: nat := 5

  /** The longest text a 32-bit length field can describe. */
  predicate Packable(e: Element) { e.Text? ==> |e.text| <= MAX_U32 }

  predicate AllPackable(items: seq<Element>) { forall i :: 0 <= i < |items| ==> Packable(items[i]) }

  // ---------- sizes ----------

  function BacklenBytes(size: nat): (n: nat)
    ensures 1 <= n <= 5
  {
    if size <= 127 then 1
    else if size < 16384 then 2
    else if size < 2097152 then 3
    else if size < 268435456 then 4
    else 5
  }

  function BodySize(e: Element): (n: nat)
    ensures n >= 1
  {
    if e.Number? then 9 else (if |e.text| <= 127 then 1 else MAX_STRING_HEADER) + |e.text|
  }

  function EncodedSize(e: Element): (n: nat)
    ensures n >= 2
  {
    BodySize(e) + BacklenBytes(BodySize(e))
  }

  // ---------- encoding ----------

  const TWO64: nat := 0x1_0000_0000_0000_0000

  /** A 64-bit integer as eight little-endian bytes, two's complement. */
  function Put64(n: Int64): (s: Bytes)
    ensures |s| == 8
  {
    var u: nat := if n < 0 then n + TWO64 else n;
    Put32(u % 0x1_0000_0000) + Put32(u / 0x1_0000_0000)
  }

  function Get64(s: Bytes): (n: Int64)
    requires |s| == 8
  {
    var u: nat := Get32(s[..4]) + Get32(s[4..]) * 0x1_0000_0000;
    if u > MAX_I64 then u - TWO64 else u
  }

  /** The length field holds the low 32 bits of the length. */
  function EncodeBody(e: Element): (s: Bytes)
    ensures |s| == BodySize(e)
  {
    if e.Number? then [INTEGER_TAG] + Put64(e.number)
    else if |e.text| <= 127 then [|e.text|] + e.text
    else [LONG_TAG] + Put32(|e.text| % 0x1_0000_0000) + e.text
  }

  /** Seven bits to a byte, most significant first; every byte but the first carries the high bit. */
  function EncodeBacklen(size: nat): (s: Bytes)
    ensures |s| == BacklenBytes(size)
  {
    if size <= 127 then [size]
    else if size < 16384 then [size / 128, size % 128 + 128]
    else if size < 2097152 then [size / 128 / 128, size / 128 % 128 + 128, size % 128 + 128]
    else if size < 268435456 then
      [size / 128 / 128 / 128, size / 128 / 128 % 128 + 128, size / 128 % 128 + 128, size % 128 + 128]
    else
      [size / 128 / 128 / 128 / 128 % 256, size / 128 / 128 / 128 % 128 + 128, size / 128 / 128 % 128 + 128,
       size / 128 % 128 + 128, size % 128 + 128]
  }

  function Encode(e: Element): (s: Bytes)
    ensures |s| == EncodedSize(e)
  {
    EncodeBody(e) + EncodeBacklen(BodySize(e))
  }

  // ---------- decoding ----------

  /** The bytes at a cursor that points at an element: enough of them for its tag and length. */
  predicate Readable(p: Bytes)
  {
    && |p| >= 1
    && (128 <= p[0] < 192 ==> |p| >= 9)
    && (192 <= p[0] ==> |p| >= 5 && |p| >= 5 + Get32(p[1..5]))
    && (p[0] < 128 ==> |p| >= 1 + p[0])
  }

  function ElementSize(p: Bytes): (n: nat)
    requires Readable(p)
    ensures 1 <= n <= |p|
  {
    if p[0] < 128 then 1 + p[0]
    else if p[0] < 192 then 9
    else MAX_STRING_HEADER + Get32(p[1..5])
  }

  function Stride(p: Bytes): (n: nat)
    requires Readable(p)
  {
    ElementSize(p) + BacklenBytes(ElementSize(p))
  }

  function Decode(p: Bytes): (e: Element)
    requires Readable(p)
  {
    if p[0] < 128 then Text(p[1..1 + p[0]])
    else if p[0] < 192 then Number(Get64(p[1..9]))
    else Text(p[5..5 + Get32(p[1..5])])
  }

  /** What the backward walk from the end of `p` reads. */
  function Backlen(p: Bytes): (n: nat)
    requires exists i :: 0 <= i < |p| && p[i] < 128
  {
    var last := p[|p| - 1];
    if last < 128 then last else last - 128 + 128 * Backlen(p[..|p| - 1])
  }

  method DecodeBacklen(p: Bytes) returns (value: nat)
    requires exists i :: 0 <= i < |p| && p[i] < 128
    ensures value == Backlen(p)
  {
    hide Backlen;
    value := 0;
    assert p[..|p|] == p;
    var weight: nat, cursor := 1, |p|;
    while p[cursor - 1] >= 128
      invariant 1 <= cursor <= |p| && (exists i :: 0 <= i < cursor && p[i] < 128)
      invariant Backlen(p) == value + weight * Backlen(p[..cursor])
      decreases cursor
    {
      cursor := cursor - 1;
      BacklenSplit(p, cursor);
      var digit: nat := p[cursor] % 128;
      Distribute(weight, digit, Backlen(p[..cursor]));
      value := value + weight * digit;
      weight := weight * 128;
    }
    BacklenStop(p[..cursor]);
    value := value + weight * p[cursor - 1];
  }

  lemma BacklenStop(p: Bytes)
    requires p != [] && p[|p| - 1] < 128
    ensures Backlen(p) == p[|p| - 1]
  {
  }

  lemma BacklenSplit(p: Bytes, cursor: nat)
    requires cursor < |p| && p[cursor] >= 128 && exists i :: 0 <= i <= cursor && p[i] < 128
    ensures exists i :: 0 <= i < cursor && p[i] < 128
    ensures Backlen(p[..cursor + 1]) == p[cursor] % 128 + 128 * Backlen(p[..cursor])
  {
    assert p[..cursor + 1][..cursor] == p[..cursor];
    var i :| 0 <= i <= cursor && p[i] < 128;
    assert p[..cursor][i] < 128;
  }

  lemma Distribute(weight: nat, digit: nat, rest: nat)
    ensures weight * (digit + 128 * rest) == weight * digit + weight * 128 * rest
  {
  }

  // ---------- decoding undoes encoding ----------

  lemma Get64OfPut64(n: Int64)
    ensures Get64(Put64(n)) == n
  {
    var u: nat := if n < 0 then n + TWO64 else n;
    assert Put64(n)[..4] == Put32(u % 0x1_0000_0000);
    assert Put64(n)[4..] == Put32(u / 0x1_0000_0000);
  }

  lemma DecodeNumber(n: Int64, rest: Bytes)
    ensures var p := EncodeBody(Number(n)) + rest;
            Readable(p) && ElementSize(p) == BodySize(Number(n)) && Decode(p) == Number(n)
  {
    hide Put64, Get64;
    var p := EncodeBody(Number(n)) + rest;
    assert p[1..9] == Put64(n);
    Get64OfPut64(n);
  }

  lemma DecodeText(text: Bytes, rest: Bytes)
    requires Packable(Text(text))
    ensures var p := EncodeBody(Text(text)) + rest;
            Readable(p) && ElementSize(p) == BodySize(Text(text)) && Decode(p) == Text(text)
  {
    hide Put32, Get32, Put64, Get64;
    var p := EncodeBody(Text(text)) + rest;
    if |text| <= 127 {
      assert p[1..1 + |text|] == text;
    } else {
      assert p[1..5] == Put32(|text|);
      assert p[5..5 + |text|] == text;
    }
  }

  /** An encoded element is read back whole, whatever follows it. */
  lemma DecodeEncoded(e: Element, rest: Bytes)
    requires Packable(e)
    ensures Readable(EncodeBody(e) + rest)
    ensures ElementSize(EncodeBody(e) + rest) == BodySize(e)
    ensures Decode(EncodeBody(e) + rest) == e
  {
    hide Readable, ElementSize, Decode, EncodeBody;
    if e.Number? {
      DecodeNumber(e.number, rest);
    } else {
      DecodeText(e.text, rest);
    }
  }

  lemma BacklenLastByte(size: nat)
    requires 128 <= size < 0x8_0000_0000
    ensures EncodeBacklen(size) == EncodeBacklen(size / 128) + [size % 128 + 128]
  {
  }

  /** Walking back over a back-length gives the size it was written for, whatever stands before it. */
  lemma {:induction false} BacklenRead(before: Bytes, size: nat)
    requires size < 0x8_0000_0000
    ensures exists i :: 0 <= i < |before + EncodeBacklen(size)| && (before + EncodeBacklen(size))[i] < 128
    ensures Backlen(before + EncodeBacklen(size)) == size
    decreases size
  {
    hide EncodeBacklen;
    var p := before + EncodeBacklen(size);
    if size < 128 {
      BacklenShort(size);
      assert p[|before|] < 128;
    } else {
      var shorter := before + EncodeBacklen(size / 128);
      BacklenRead(before, size / 128);
      BacklenLastByte(size);
      assert p == shorter + [size % 128 + 128];
      var i :| 0 <= i < |shorter| && shorter[i] < 128;
      assert p[i] < 128;
      assert p[..|p| - 1] == shorter;
    }
  }

  lemma BacklenShort(size: nat)
    requires size < 128
    ensures EncodeBacklen(size) == [size]
  {
  }
}
