/**
 * Byte-order conversions between byte slices and unsigned integers (src/util/endian.rs).
 * The Rust macros build the integer with a shift-and-OR loop, or fill a byte array with a
 * shift-and-mask loop; the methods here run those loops and are proved against the
 * positional values BeValue / LeValue and the byte layout BeBytes.
 */
module Endian {
  import opened Integers
  import opened Bits

  /** Bytes read most significant first: the sum of s[i] * 256^(|s| - 1 - i). */
  function BeValue(s: seq<u8>): nat
  {
    if |s| == 0 then 0 else BeValue(s[..|s| - 1]) * 256 + s[|s| - 1]
  }

  /** Bytes read least significant first: the sum of s[i] * 256^i. */
  function LeValue(s: seq<u8>): nat
  {
    if |s| == 0 then 0 else s[0] + 256 * LeValue(s[1..])
  }

  /** The n low bytes of v, most significant first. */
  function BeBytes(v: nat, n: nat): (r: seq<u8>)
    ensures |r| == n
  {
    if n == 0 then [] else BeBytes(v / 256, n - 1) + [v % 256]
  }

  function Reverse(s: seq<u8>): (r: seq<u8>)
    ensures |r| == |s|
    ensures forall i :: 0 <= i < |s| ==> r[i] == s[|s| - 1 - i]
  {
    if |s| == 0 then [] else Reverse(s[1..]) + [s[0]]
  }

  lemma {:induction false} BeValueBound(s: seq<u8>)
    ensures BeValue(s) < Pow2(8 * |s|)
  {
    if |s| > 0 {
      var init := s[..|s| - 1];
      BeValueBound(init);
      Pow2Byte(8 * |init|);
      assert BeValue(init) * 256 + 255 < Pow2(8 * |init|) * 256;
    }
  }

  lemma {:induction false} LeValueBound(s: seq<u8>)
    ensures LeValue(s) < Pow2(8 * |s|)
  {
    if |s| > 0 {
      LeValueBound(s[1..]);
      Pow2Byte(8 * (|s| - 1));
    }
  }

  /** Appending a byte adds it at the next higher byte position (the step of the LE loop). */
  lemma {:induction false} LeValueSnoc(a: seq<u8>, x: u8)
    ensures LeValue(a + [x]) == LeValue(a) + x * Pow2(8 * |a|)
  {
    if |a| == 0 {
      assert LeValue([x]) == x + 256 * LeValue([]);
    } else {
      assert (a + [x])[1..] == a[1..] + [x];
      LeValueSnoc(a[1..], x);
      var L, P := LeValue(a[1..]), Pow2(8 * (|a| - 1));
      Pow2Byte(8 * (|a| - 1));
      assert LeValue(a + [x]) == a[0] + 256 * (L + x * P);
      ScaleSum(L, x, P);
    }
  }

  lemma ScaleSum(l: nat, x: nat, p: nat)
    ensures 256 * (l + x * p) == 256 * l + x * (256 * p)
  {
  }

  /** Byte i of BeBytes is what the Rust array loop stores: `(v >> 8 * (n - 1 - i)) & 0xff`. */
  lemma {:induction false} BeBytesAt(v: nat, n: nat, i: nat)
    requires i < n
    ensures BeBytes(v, n)[i] == (v / Pow2(8 * (n - 1 - i))) % 256
    ensures BeBytes(v, n)[i] == And(Shr(v, 8 * (n - 1 - i)), 0xff)
  {
    if i < n - 1 {
      BeBytesAt(v / 256, n - 1, i);
      Pow2Byte(8 * (n - 2 - i));
      DivDiv(v, 256, Pow2(8 * (n - 2 - i)));
    }
    assert Pow2(8) - 1 == 0xff;
    AndLowMask(v / Pow2(8 * (n - 1 - i)), 8);
  }

  /** Reading back the bytes of a value that fits gives the value. */
  lemma {:induction false} BeValueOfBytes(v: nat, n: nat)
    requires v < Pow2(8 * n)
    ensures BeValue(BeBytes(v, n)) == v
  {
    if n > 0 {
      var r := BeBytes(v, n);
      assert r[..n - 1] == BeBytes(v / 256, n - 1);
      Pow2Byte(8 * (n - 1));
      BeValueOfBytes(v / 256, n - 1);
    }
  }

  /** Laying out the value of a byte string gives the byte string back. */
  lemma {:induction false} BeBytesOfValue(s: seq<u8>)
    ensures BeBytes(BeValue(s), |s|) == s
  {
    if |s| > 0 {
      var init := s[..|s| - 1];
      var v := BeValue(s);
      assert v / 256 == BeValue(init) && v % 256 == s[|s| - 1];
      BeBytesOfValue(init);
      assert s == init + [s[|s| - 1]];
    }
  }

  /** Little-endian is big-endian of the reversed bytes. */
  lemma {:induction false} LeIsReversedBe(s: seq<u8>)
    ensures LeValue(s) == BeValue(Reverse(s))
  {
    if |s| > 0 {
      var r := Reverse(s);
      assert r[..|r| - 1] == Reverse(s[1..]);
      LeIsReversedBe(s[1..]);
    }
  }

  /**
   * One iteration of the big-endian loop: the accumulated prefix sits above bit k + 8 and the
   * next byte is shifted to bit k, so the OR is an addition and extends the prefix by a byte.
   */
  lemma BeStep(prefix: seq<u8>, x: u8, k: nat, width: nat)
    requires k + 8 <= width
    ensures Or(BeValue(prefix) * Pow2(k + 8), Shl(x, k, width)) == BeValue(prefix + [x]) * Pow2(k)
  {
    var m, p, p8 := BeValue(prefix), Pow2(k), Pow2(k + 8);
    var part := Shl(x, k, width);
    ShlByteExact(x, k, width);
    Pow2Byte(k);
    ByteTimesBelow(x, p);
    OrCommutes(m * p8, part);
    OrDisjoint(part, m, k + 8);
    BeValueSnoc(prefix, x);
    ScaleByteStep(m, x, p);
  }

  /** Appending a byte shifts the big-endian value up by a byte. */
  lemma BeValueSnoc(prefix: seq<u8>, x: u8)
    ensures BeValue(prefix + [x]) == BeValue(prefix) * 256 + x
  {
    assert (prefix + [x])[..|prefix|] == prefix;
  }

  lemma ByteTimesBelow(x: u8, p: nat)
    requires p >= 1
    ensures x * p < 256 * p
  {
    assert 256 * p - x * p == (256 - x) * p;
    MulAtLeast(256 - x, p);
  }

  lemma ScaleByteStep(m: nat, x: nat, p: nat)
    ensures m * (256 * p) + x * p == (m * 256 + x) * p
  {
  }

  /** The generic body of `define_slice_to_be!`: a loop that ORs each byte in at its shift. */
  method SliceToBe(slice: seq<u8>, size: nat) returns (res: nat)
    requires |slice| == size
    ensures res == BeValue(slice)
    ensures res < Pow2(8 * size)
  {
    res := 0;
    for i := 0 to size
      invariant res == BeValue(slice[..i]) * Pow2(8 * (size - i))
    {
      var shift := (size - i - 1) * 8;
      var part := Shl(slice[i], shift, size * 8);
      BeStep(slice[..i], slice[i], shift, size * 8);
      assert slice[..i + 1] == slice[..i] + [slice[i]];
      res := Or(res, part);
    }
    assert slice[..size] == slice;
    BeValueBound(slice);
  }

  /** The generic body of `define_slice_to_le!`. */
  method SliceToLe(slice: seq<u8>, size: nat) returns (res: nat)
    requires |slice| == size
    ensures res == LeValue(slice)
    ensures res < Pow2(8 * size)
  {
    res := 0;
    for i := 0 to size
      invariant res == LeValue(slice[..i])
      invariant res < Pow2(8 * i)
    {
      var part := Shl(slice[i], i * 8, size * 8);
      ShlByteExact(slice[i], i * 8, size * 8);
      OrDisjoint(res, slice[i], 8 * i);
      assert slice[..i + 1] == slice[..i] + [slice[i]];
      LeValueSnoc(slice[..i], slice[i]);
      LeValueBound(slice[..i + 1]);
      res := Or(res, part);
    }
    assert slice[..size] == slice;
  }

  /** The generic body of `define_be_to_array!`: fills a zeroed array byte by byte. */
  method ToArrayBe(val: nat, size: nat) returns (res: array<u8>)
    ensures fresh(res) && res.Length == size
    ensures res[..] == BeBytes(val, size)
  {
    res := new u8[size](_ => 0);
    for i := 0 to size
      invariant forall j :: 0 <= j < i ==> res[j] == BeBytes(val, size)[j]
    {
      BeBytesAt(val, size, i);
      res[i] := And(Shr(val, (size - i - 1) * 8), 0xff);
    }
  }

  /** `slice_to_u32_be` */
  method SliceToU32Be(slice: seq<u8>) returns (res: u32)
    requires |slice| == 4
    ensures res == BeValue(slice)
  {
    Pow2Widths();
    res := SliceToBe(slice, 4);
  }

  /** `u32_to_array_be` */
  method U32ToArrayBe(val: u32) returns (res: array<u8>)
    ensures fresh(res) && res.Length == 4
    ensures res[..] == BeBytes(val, 4)
  {
    res := ToArrayBe(val, 4);
  }

  /** `slice_to_u16_le` */
  method SliceToU16Le(slice: seq<u8>) returns (res: u16)
    requires |slice| == 2
    ensures res == LeValue(slice)
  {
    Pow2Widths();
    res := SliceToLe(slice, 2);
  }

  /** `slice_to_u32_le` */
  method SliceToU32Le(slice: seq<u8>) returns (res: u32)
    requires |slice| == 4
    ensures res == LeValue(slice)
  {
    Pow2Widths();
    res := SliceToLe(slice, 4);
  }

  /** `slice_to_u64_le` */
  method SliceToU64Le(slice: seq<u8>) returns (res: u64)
    requires |slice| == 8
    ensures res == LeValue(slice)
  {
    Pow2Widths();
    res := SliceToLe(slice, 8);
  }

  /** Both directions of the u32 big-endian round trip. */
  lemma U32BeRoundTrip(v: u32, s: seq<u8>)
    requires |s| == 4
    ensures BeValue(BeBytes(v, 4)) == v
    ensures BeBytes(BeValue(s), 4) == s
    ensures BeValue(s) < U32_LIMIT
  {
    Pow2Widths();
    BeValueOfBytes(v, 4);
    BeBytesOfValue(s);
    BeValueBound(s);
  }

  /** The vectors of the module's endianness test. */
  lemma EndiannessVectors()
    ensures BeValue([0xde, 0xad, 0xbe, 0xef]) == 0xdeadbeef
    ensures BeBytes(0xdeadbeef, 4) == [0xde, 0xad, 0xbe, 0xef]
    ensures LeValue([0xad, 0xde]) == 0xdead
    ensures LeValue([0xef, 0xbe, 0xad, 0xde]) == 0xdeadbeef
    ensures LeValue([0xef, 0xbe, 0xad, 0xde, 0xfe, 0xca, 0xad, 0x1b]) == 0x1badcafedeadbeef
  {
    var b1: seq<u8>, b2: seq<u8>, b3: seq<u8>, b4: seq<u8> := [0xde], [0xde, 0xad], [0xde, 0xad, 0xbe], [0xde, 0xad, 0xbe, 0xef];
    assert b2[..1] == b1 && b3[..2] == b2 && b4[..3] == b3;
    assert BeValue(b1) == 0xde;
    assert BeValue(b2) == 0xdead;
    assert BeValue(b3) == 0xdeadbe;
  }
}
