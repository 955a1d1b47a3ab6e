/**
  Java bytes and the fixed-width integer encodings `java.nio.ByteBuffer`
  uses: an n-byte two's-complement value laid out big- or little-endian.
 */
module Bytes {
  import opened Arith

  /** A Java `byte`: signed, eight bits. */
  type Byte = b: int | -128 <= b < 128

  /** `java.nio.ByteOrder`. */
  datatype ByteOrder = BigEndian | LittleEndian

  /** 256 to the power n: the number of distinct n-byte values. */
  function Pow256(n: nat): (p: nat)
    ensures p >= 1
    ensures n >= 1 ==> p >= 256 && p % 256 == 0
  {
    if n == 0 then 1 else 256 * Pow256(n - 1)
  }

  /** Half of Pow256(n): the first value that does not fit an n-byte signed integer. */
  function Half(n: nat): (h: nat)
    requires n >= 1
    ensures h + h == Pow256(n)
  {
    128 * Pow256(n - 1)
  }

  /** v is a value of the n-byte signed Java type (byte, short, int, long for n = 1, 2, 4, 8). */
  predicate SignedFits(v: int, n: nat)
  {
    n >= 1 && -(Half(n) as int) <= v < Half(n)
  }

  /** `b & 0xFF`: the byte's bit pattern read as an unsigned number. */
  function Unsigned(b: Byte): (u: nat)
    ensures u < 256
    ensures (u - b) % 256 == 0
  {
    if b < 0 then b + 256 else b
  }

  /** `(byte) u` for 0 <= u < 256. */
  function FromUnsigned(u: nat): (b: Byte)
    requires u < 256
    ensures Unsigned(b) == u
  {
    if u < 128 then u else u - 256
  }

  lemma FromUnsignedOfUnsigned(b: Byte)
    ensures FromUnsigned(Unsigned(b)) == b
  {
  }

  /** n zero bytes: what `ByteBuffer.allocate` fills a new array with, and an unset byte-array field. */
  function Zeros(n: nat): (z: seq<Byte>)
    ensures |z| == n
    ensures forall k :: 0 <= k < n ==> z[k] == 0
  {
    if n == 0 then [] else Zeros(n - 1) + [0]
  }

  /** The low n bytes of u, most significant first. */
  function EncodeBE(u: nat, n: nat): (bs: seq<Byte>)
    ensures |bs| == n
  {
    if n == 0 then [] else EncodeBE(u / 256, n - 1) + [FromUnsigned(u % 256)]
  }

  /** The unsigned number whose big-endian bytes are bs. */
  function DecodeBE(bs: seq<Byte>): (u: nat)
    ensures u < Pow256(|bs|)
  {
    if bs == [] then 0
    else
      var hi := DecodeBE(bs[..|bs| - 1]);
      assert hi + 1 <= Pow256(|bs| - 1);
      assert (hi + 1) * 256 <= Pow256(|bs| - 1) * 256;
      hi * 256 + Unsigned(bs[|bs| - 1])
  }

  lemma {:induction false} DecodeEncodeBE(u: nat, n: nat)
    requires u < Pow256(n)
    ensures DecodeBE(EncodeBE(u, n)) == u
  {
    if n > 0 {
      var bs := EncodeBE(u, n);
      assert bs[..n - 1] == EncodeBE(u / 256, n - 1);
      DecodeEncodeBE(u / 256, n - 1);
    }
  }

  lemma {:induction false} EncodeDecodeBE(bs: seq<Byte>)
    ensures EncodeBE(DecodeBE(bs), |bs|) == bs
  {
    if bs != [] {
      var init, last := bs[..|bs| - 1], bs[|bs| - 1];
      var u := DecodeBE(bs);
      assert u == DecodeBE(init) * 256 + Unsigned(last);
      assert u / 256 == DecodeBE(init);
      assert u % 256 == Unsigned(last);
      EncodeDecodeBE(init);
      assert bs == init + [last];
    }
  }

  /** The bytes in the opposite order. */
  function Reverse(bs: seq<Byte>): (r: seq<Byte>)
    ensures |r| == |bs|
    ensures forall k :: 0 <= k < |bs| ==> r[k] == bs[|bs| - 1 - k]
  {
    if bs == [] then [] else Reverse(bs[1..]) + [bs[0]]
  }

  lemma ReverseReverse(bs: seq<Byte>)
    ensures Reverse(Reverse(bs)) == bs
  {
  }

  /** Rearranges bytes between the given order and big-endian (the rearrangement is its own inverse). */
  function AsBigEndian(bs: seq<Byte>, order: ByteOrder): (r: seq<Byte>)
    ensures |r| == |bs|
  {
    if order == BigEndian then bs else Reverse(bs)
  }

  lemma AsBigEndianInvolution(bs: seq<Byte>, order: ByteOrder)
    ensures AsBigEndian(AsBigEndian(bs, order), order) == bs
  {
    if order == LittleEndian {
      ReverseReverse(bs);
    }
  }

  /** The low n bytes of u laid out in the given order. */
  function EncodeUnsigned(u: nat, n: nat, order: ByteOrder): (bs: seq<Byte>)
    ensures |bs| == n
  {
    AsBigEndian(EncodeBE(u, n), order)
  }

  /** The unsigned number whose bytes, in the given order, are bs. */
  function DecodeUnsigned(bs: seq<Byte>, order: ByteOrder): (u: nat)
    ensures u < Pow256(|bs|)
  {
    DecodeBE(AsBigEndian(bs, order))
  }

  /** Two's complement: the bit pattern of an n-byte signed value. */
  function ToUnsignedBits(v: int, n: nat): (u: nat)
    requires SignedFits(v, n)
    ensures u < Pow256(n)
    ensures u == v || u == v + Pow256(n)
  {
    if v < 0 then v + Pow256(n) else v
  }

  /** Two's complement: the signed value of an n-byte bit pattern. */
  function FromUnsignedBits(u: nat, n: nat): (v: int)
    requires n >= 1 && u < Pow256(n)
    ensures SignedFits(v, n)
    ensures v == u || v == u - Pow256(n)
  {
    if u >= Half(n) then u - Pow256(n) else u
  }

  /** `ByteBuffer.putShort/putInt/putLong`'s bytes for v, with n = 2, 4, 8. */
  function EncodeSigned(v: int, n: nat, order: ByteOrder): (bs: seq<Byte>)
    requires SignedFits(v, n)
    ensures |bs| == n
  {
    EncodeUnsigned(ToUnsignedBits(v, n), n, order)
  }

  /** `ByteBuffer.getShort/getInt/getLong`'s value for the bytes bs. */
  function DecodeSigned(bs: seq<Byte>, order: ByteOrder): (v: int)
    requires |bs| >= 1
    ensures SignedFits(v, |bs|)
  {
    FromUnsignedBits(DecodeUnsigned(bs, order), |bs|)
  }

  /** Java's narrowing cast to an n-byte type keeps the low 8n bits. */
  function Narrow(v: int, n: nat): (r: int)
    requires n >= 1
    ensures SignedFits(r, n)
    ensures r % Pow256(n) == v % Pow256(n)
    ensures SignedFits(v, n) ==> r == v
  {
    var p := Pow256(n);
    var u := v % p;
    if u >= Half(n) then
      ModSub(u, p);
      assert SignedFits(v, n) ==> v < 0 && u == v + p by {
        if SignedFits(v, n) && v >= 0 { ModUnique(v, p, 0, v); }
        if SignedFits(v, n) && v < 0 { ModUnique(v, p, -1, v + p); }
      }
      u - p
    else
      assert SignedFits(v, n) ==> v == u by {
        if SignedFits(v, n) && v >= 0 { ModUnique(v, p, 0, v); }
        if SignedFits(v, n) && v < 0 { ModUnique(v, p, -1, v + p); }
      }
      ModUnique(u, p, 0, u);
      u
  }

  /** Writing a value and reading it back in the same order gives the value. */
  lemma DecodeEncodeSigned(v: int, n: nat, order: ByteOrder)
    requires SignedFits(v, n)
    ensures DecodeSigned(EncodeSigned(v, n, order), order) == v
  {
    var u := ToUnsignedBits(v, n);
    AsBigEndianInvolution(EncodeBE(u, n), order);
    DecodeEncodeBE(u, n);
  }

  /** Reading bytes as a value and writing that value back gives the same bytes. */
  lemma EncodeDecodeSigned(bs: seq<Byte>, order: ByteOrder)
    requires |bs| >= 1
    ensures EncodeSigned(DecodeSigned(bs, order), |bs|, order) == bs
  {
    var n := |bs|;
    var u := DecodeUnsigned(bs, order);
    assert ToUnsignedBits(FromUnsignedBits(u, n), n) == u;
    EncodeDecodeBE(AsBigEndian(bs, order));
    AsBigEndianInvolution(bs, order);
  }

  /** The unsigned reading of bytes is their signed reading taken modulo 256^n. */
  lemma UnsignedIsSignedModulo(bs: seq<Byte>, order: ByteOrder)
    requires |bs| >= 1
    ensures DecodeUnsigned(bs, order) == DecodeSigned(bs, order) % Pow256(|bs|)
  {
    var u, p := DecodeUnsigned(bs, order), Pow256(|bs|);
    var v := DecodeSigned(bs, order);
    assert v == FromUnsignedBits(u, |bs|);
    if u >= Half(|bs|) {
      assert v == -1 * p + u;
      ModUnique(v, p, -1, u);
    } else {
      ModUnique(v, p, 0, u);
    }
  }
}
