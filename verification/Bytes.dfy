/**
  Bytes, little-endian words and in-place stores, as a 64-bit little-endian C
  compiler lays out the packed structures of src/ads.h and src/AdsDEF.h.
 */
module Bytes {

  datatype Option<+T> = None | Some(value: T)

  type byte = x: int | 0 <= x < 0x100
  type u16 = x: int | 0 <= x < 0x1_0000
  type u32 = x: int | 0 <= x < 0x1_0000_0000

  /** The conversion to an unsigned type of `modulus` values. */
  function Wrap(x: int, modulus: nat): (r: nat)
    requires modulus > 0
    ensures r < modulus
  {
    if 0 <= x < modulus then x else x % modulus
  }

  /** The conversion to `unsigned short`. */
  function ToU16(x: int): u16 { Wrap(x, 0x1_0000) }

  /** The conversion to `unsigned int`. */
  function ToU32(x: int): u32 { Wrap(x, 0x1_0000_0000) }

  /** The conversion of an `int` to `size_t`. */
  function ToSizeT(x: int): nat { Wrap(x, 0x1_0000_0000_0000_0000) }

  /** The conversion to `int`. */
  function ToInt32(x: int): (r: int)
    ensures -0x8000_0000 <= r < 0x8000_0000
    ensures -0x8000_0000 <= x < 0x8000_0000 ==> r == x
  {
    var u := ToU32(x);
    if u < 0x8000_0000 then u else u - 0x1_0000_0000
  }

  /** The conversions keep the number modulo the size of their type. */
  lemma ConversionsAreModular(x: int)
    ensures Wrap(x, 0x100) == x % 0x100
    ensures ToU16(x) == x % 0x1_0000 && ToU32(x) == x % 0x1_0000_0000 && ToSizeT(x) == x % 0x1_0000_0000_0000_0000
    ensures (ToInt32(x) - x) % 0x1_0000_0000 == 0
  {
  }

  function Le16(v: u16): (s: seq<byte>)
    ensures |s| == 2
  {
    [v % 0x100, v / 0x100]
  }

  function Le32(v: u32): (s: seq<byte>)
    ensures |s| == 4
  {
    [v % 0x100, v / 0x100 % 0x100, v / 0x1_0000 % 0x100, v / 0x100_0000]
  }

  function Get16(s: seq<byte>, at: nat): u16
    requires at + 2 <= |s|
  {
    s[at] as int + 0x100 * s[at + 1] as int
  }

  function Get32(s: seq<byte>, at: nat): u32
    requires at + 4 <= |s|
  {
    s[at] as int + 0x100 * s[at + 1] as int + 0x1_0000 * s[at + 2] as int + 0x100_0000 * s[at + 3] as int
  }

  function Zeros(n: nat): (s: seq<byte>)
    ensures |s| == n && forall i :: 0 <= i < n ==> s[i] == 0
  {
    seq(n, _ => 0)
  }

  /** The buffer `s` after the bytes `bs` are stored at offset `at`. */
  function Put(s: seq<byte>, at: nat, bs: seq<byte>): (r: seq<byte>)
    requires at + |bs| <= |s|
    ensures |r| == |s|
    ensures forall i :: 0 <= i < |s| ==> r[i] == if at <= i < at + |bs| then bs[i - at] else s[i]
  {
    seq(|s|, i requires 0 <= i < |s| => if at <= i < at + |bs| then bs[i - at] else s[i])
  }

  function Concat(parts: seq<seq<byte>>): seq<byte> {
    if parts == [] then [] else parts[0] + Concat(parts[1..])
  }

  lemma LastByte(hi: nat, lo: byte)
    ensures (0x100 * hi + lo) / 0x100 == hi && (0x100 * hi + lo) % 0x100 == lo
  {
  }

  lemma DivideTwice(x: nat)
    ensures x / 0x1_0000 == x / 0x100 / 0x100 && x / 0x100_0000 == x / 0x100 / 0x100 / 0x100
  {
  }

  /** The value of four bytes has those bytes. */
  lemma BytesOfValue(a: byte, b: byte, c: byte, d: byte, v: u32)
    requires v == 0x100 * (0x100 * (0x100 * d + c) + b) + a
    ensures Le32(v) == [a, b, c, d]
  {
    LastByte(0x100 * (0x100 * d + c) + b, a);
    LastByte(0x100 * d + c, b);
    LastByte(d, c);
    DivideTwice(v);
  }

  /** A word is the value of its four bytes. */
  lemma ValueOfBytes(v: u32)
    ensures v == 0x100 * (0x100 * (0x100 * (v / 0x100_0000) + v / 0x1_0000 % 0x100) + v / 0x100 % 0x100) + v % 0x100
  {
    DivideTwice(v);
    var x := v / 0x100;
    var y := x / 0x100;
    assert y == 0x100 * (y / 0x100) + y % 0x100;
    assert x == 0x100 * y + x % 0x100;
    assert v == 0x100 * x + v % 0x100;
  }

  /** The bytes of a word determine it and are determined by it. */
  lemma WordBytes(a: byte, b: byte, c: byte, d: byte, v: u32)
    ensures Le32(v) == [a, b, c, d] <==> a as int + 0x100 * b as int + 0x1_0000 * c as int + 0x100_0000 * d as int == v
  {
    if Le32(v) == [a, b, c, d] {
      assert Le32(v)[0] == a && Le32(v)[1] == b && Le32(v)[2] == c && Le32(v)[3] == d;
      ValueOfBytes(v);
    } else if a as int + 0x100 * b as int + 0x1_0000 * c as int + 0x100_0000 * d as int == v {
      BytesOfValue(a, b, c, d, v);
    }
  }

  /** The same for two bytes. */
  lemma HalfWordBytes(a: byte, b: byte, v: u16)
    ensures Le16(v) == [a, b] <==> a as int + 0x100 * b as int == v
  {
    assert [a, b][0] == a && [a, b][1] == b;
    assert Le16(v)[0] == v % 0x100 && Le16(v)[1] == v / 0x100;
    LastByte(b, a);
  }

  lemma Le32Get32(s: seq<byte>, at: nat, v: u32)
    requires at + 4 <= |s|
    ensures s[at..at + 4] == Le32(v) <==> Get32(s, at) == v
  {
    WordBytes(s[at], s[at + 1], s[at + 2], s[at + 3], v);
    assert s[at..at + 4] == [s[at], s[at + 1], s[at + 2], s[at + 3]];
  }

  lemma Le16Get16(s: seq<byte>, at: nat, v: u16)
    requires at + 2 <= |s|
    ensures s[at..at + 2] == Le16(v) <==> Get16(s, at) == v
  {
  }

  lemma Associative(a: seq<byte>, b: seq<byte>, c: seq<byte>)
    ensures (a + b) + c == a + (b + c)
  {
  }

  lemma {:induction false} ConcatAppend(a: seq<seq<byte>>, b: seq<seq<byte>>)
    ensures Concat(a + b) == Concat(a) + Concat(b)
  {
    if a == [] {
      assert a + b == b;
    } else {
      ConcatAppend(a[1..], b);
      assert (a + b)[0] == a[0] && (a + b)[1..] == a[1..] + b;
      Associative(a[0], Concat(a[1..]), Concat(b));
    }
  }

  /** C stores `bs` into the array at offset `at`. */
  method Store(a: array<byte>, at: nat, bs: seq<byte>)
    requires at + |bs| <= a.Length
    modifies a
    ensures a[..] == Put(old(a[..]), at, bs)
  {
    forall i | 0 <= i < |bs| {
      a[at + i] := bs[i];
    }
    assert a[..] == Put(old(a[..]), at, bs);
  }
}
