/**
  BinaryBuffer: a growable wrapper around a `java.nio.ByteBuffer`.

  The wrapped buffer is its backing array (whose length is both capacity and
  limit, since nothing here moves the limit), a position and a byte order.
  Reads advance the position and fail with an underflow when too few bytes
  remain; `put` writes at the position and, when the bytes do not fit,
  replaces the buffer with a larger one.
 */
module Buffers {
  import opened JavaLang
  import opened Bytes

  datatype Buffer = Buffer(data: seq<Byte>, pos: nat, order: ByteOrder)
  {
    predicate Valid()
    {
      pos <= |data|
    }

    /** `remaining()`: bytes between the position and the limit. */
    function Remaining(): nat
      requires Valid()
    {
      |data| - pos
    }
  }

  type BinaryBuffer = b: Buffer | b.Valid() witness Buffer([], 0, BigEndian)

  /** What a read returns: the value and the buffer with its advanced position. */
  datatype Read<+T> = Read(value: T, rest: BinaryBuffer)

  /** `wrapBytes`: a buffer over the given array, at position zero. */
  function WrapBytes(bytes: seq<Byte>, order: ByteOrder): (b: BinaryBuffer)
    ensures b.data == bytes && b.pos == 0 && b.order == order
  {
    Buffer(bytes, 0, order)
  }

  /** `newInstance`: `ByteBuffer.allocate` gives a zero-filled array and rejects a negative size. */
  function NewInstance(initialSize: int, order: ByteOrder): (r: Result<BinaryBuffer>)
    ensures r.Thrown? <==> initialSize < 0
    ensures r.Thrown? ==> r.ex == IllegalArgument
    ensures r.Ok? ==> |r.value.data| == initialSize && r.value.pos == 0 && r.value.order == order
    ensures r.Ok? ==> forall k :: 0 <= k < initialSize ==> r.value.data[k] == 0
  {
    if initialSize < 0 then Thrown(IllegalArgument) else Ok(Buffer(Zeros(initialSize), 0, order))
  }

  /** `setPosition`: `ByteBuffer.position` rejects a position outside [0, limit]. */
  function SetPosition(b: BinaryBuffer, position: int): (r: Result<BinaryBuffer>)
    ensures r.Ok? <==> 0 <= position <= |b.data|
    ensures r.Thrown? ==> r.ex == IllegalArgument
    ensures r.Ok? ==> r.value.pos == position && r.value.data == b.data && r.value.order == b.order
  {
    if 0 <= position <= |b.data| then Ok(b.(pos := position)) else Thrown(IllegalArgument)
  }

  /** `skip`: move the position by the given (possibly negative) amount. */
  function Skip(b: BinaryBuffer, bytes: int): (r: Result<BinaryBuffer>)
    ensures r.Ok? <==> 0 <= b.pos + bytes <= |b.data|
    ensures r.Thrown? ==> r.ex == IllegalArgument
    ensures r.Ok? ==> r.value.pos == b.pos + bytes && r.value.data == b.data && r.value.order == b.order
  {
    SetPosition(b, b.pos + bytes)
  }

  /** `get(len)`: `new byte[len]` rejects a negative length; `ByteBuffer.get` needs len bytes left. */
  function Get(b: BinaryBuffer, len: int): (r: Result<Read<seq<Byte>>>)
    ensures r.Ok? <==> 0 <= len <= b.Remaining()
    ensures len < 0 ==> r == Thrown(NegativeArraySize)
    ensures 0 <= len && b.Remaining() < len ==> r == Thrown(BufferUnderflow)
    ensures r.Ok? ==> |r.value.value| == len && r.value.value == b.data[b.pos .. b.pos + len]
    ensures r.Ok? ==> r.value.rest == b.(pos := b.pos + len)
  {
    if len < 0 then Thrown(NegativeArraySize)
    else if b.Remaining() < len then Thrown(BufferUnderflow)
    else Ok(Read(b.data[b.pos .. b.pos + len], b.(pos := b.pos + len)))
  }

  /**
    `put`, as written. When the bytes fit they overwrite the array at the
    position. Otherwise the catch branch rewinds, reads back the WHOLE old
    array, allocates a new buffer of old capacity + n (big-endian, since the
    order is not re-applied) and puts the old array and then the bytes.
   */
  function Put(b: BinaryBuffer, bytes: seq<Byte>): (r: BinaryBuffer)
    ensures |bytes| <= r.pos && r.data[r.pos - |bytes| .. r.pos] == bytes
    ensures |bytes| <= b.Remaining() ==>
      && |r.data| == |b.data| && r.pos == b.pos + |bytes| && r.order == b.order
      && r.data[..b.pos] == b.data[..b.pos] && r.data[r.pos..] == b.data[r.pos..]
    ensures b.Remaining() < |bytes| ==>
      && |r.data| == |b.data| + |bytes| && r.pos == |r.data| && r.order == BigEndian
      && r.data[..|b.data|] == b.data
  {
    if |bytes| <= b.Remaining() then
      Buffer(b.data[..b.pos] + bytes + b.data[b.pos + |bytes|..], b.pos + |bytes|, b.order)
    else
      var all := b.data;
      Buffer(all + bytes, |all| + |bytes|, BigEndian)
  }

  /** `getByte`, `getShort`, `getInt`, `getLong`: an n-byte signed value in the buffer's order. */
  function GetSigned(b: BinaryBuffer, n: nat): (r: Result<Read<int>>)
    requires n >= 1
    ensures r.Ok? <==> n <= b.Remaining()
    ensures r.Thrown? ==> r.ex == BufferUnderflow
    ensures r.Ok? ==> SignedFits(r.value.value, n) && r.value.rest == b.(pos := b.pos + n)
    ensures r.Ok? ==> EncodeSigned(r.value.value, n, b.order) == b.data[b.pos .. b.pos + n]
  {
    match Get(b, n)
    case Thrown(e) => Thrown(e)
    case Ok(rd) =>
      EncodeDecodeSigned(rd.value, b.order);
      Ok(Read(DecodeSigned(rd.value, b.order), rd.rest))
  }

  function GetByte(b: BinaryBuffer): (r: Result<Read<int>>)
    ensures r.Ok? <==> 1 <= b.Remaining()
    ensures r.Ok? ==> r.value.value == b.data[b.pos] && r.value.rest == b.(pos := b.pos + 1)
  {
    var r := GetSigned(b, 1);
    assert r.Ok? ==> [r.value.value] == EncodeSigned(r.value.value, 1, b.order) by {
      if r.Ok? { DecodeEncodeBE(ToUnsignedBits(r.value.value, 1), 1); }
    }
    r
  }

  function GetShort(b: BinaryBuffer): (r: Result<Read<int>>)
    ensures r.Ok? <==> 2 <= b.Remaining()
    ensures r.Ok? ==> -32768 <= r.value.value < 32768
    ensures r.Ok? ==> EncodeSigned(r.value.value, 2, b.order) == b.data[b.pos .. b.pos + 2]
    ensures r.Ok? ==> r.value.rest == b.(pos := b.pos + 2)
  {
    GetSigned(b, 2)
  }

  function GetInt(b: BinaryBuffer): (r: Result<Read<int>>)
    ensures r.Ok? <==> 4 <= b.Remaining()
    ensures r.Ok? ==> SignedFits(r.value.value, 4)
    ensures r.Ok? ==> EncodeSigned(r.value.value, 4, b.order) == b.data[b.pos .. b.pos + 4]
    ensures r.Ok? ==> r.value.rest == b.(pos := b.pos + 4)
  {
    GetSigned(b, 4)
  }

  function GetLong(b: BinaryBuffer): (r: Result<Read<int>>)
    ensures r.Ok? <==> 8 <= b.Remaining()
    ensures r.Ok? ==> SignedFits(r.value.value, 8)
    ensures r.Ok? ==> EncodeSigned(r.value.value, 8, b.order) == b.data[b.pos .. b.pos + 8]
    ensures r.Ok? ==> r.value.rest == b.(pos := b.pos + 8)
  {
    GetSigned(b, 8)
  }

  /** `getUnsignedByte`: the signed byte masked with 0xFF. */
  function GetUnsignedByte(b: BinaryBuffer): (r: Result<Read<int>>)
    ensures r.Ok? <==> 1 <= b.Remaining()
    ensures r.Thrown? ==> r.ex == BufferUnderflow
    ensures r.Ok? ==> 0 <= r.value.value < 256 && r.value.value == Unsigned(b.data[b.pos])
    ensures r.Ok? ==> r.value.rest == b.(pos := b.pos + 1)
  {
    match GetSigned(b, 1)
    case Thrown(e) => Thrown(e)
    case Ok(rd) =>
      ByteMask(b.data[b.pos .. b.pos + 1], rd.value, b.order);
      Ok(Read(rd.value % 256, rd.rest))
  }

  /** Masking a byte with 0xFF gives its unsigned value. */
  lemma ByteMask(bs: seq<Byte>, v: int, order: ByteOrder)
    requires |bs| == 1 && SignedFits(v, 1) && EncodeSigned(v, 1, order) == bs
    ensures v % 256 == Unsigned(bs[0])
  {
    DecodeEncodeSigned(v, 1, order);
    UnsignedIsSignedModulo(bs, order);
    assert Pow256(1) == 256;
    assert DecodeUnsigned(bs, order) == Unsigned(bs[0]);
  }

  /** `getUnsignedShort`: the signed short masked with 0xFFFF. */
  function GetUnsignedShort(b: BinaryBuffer): (r: Result<Read<int>>)
    ensures r.Ok? <==> 2 <= b.Remaining()
    ensures r.Thrown? ==> r.ex == BufferUnderflow
    ensures r.Ok? ==> 0 <= r.value.value < 65536
    ensures r.Ok? ==> r.value.value == DecodeUnsigned(b.data[b.pos .. b.pos + 2], b.order)
    ensures r.Ok? ==> r.value.rest == b.(pos := b.pos + 2)
  {
    match GetSigned(b, 2)
    case Thrown(e) => Thrown(e)
    case Ok(rd) =>
      ShortMask(b.data[b.pos .. b.pos + 2], rd.value, b.order);
      Ok(Read(rd.value % 65536, rd.rest))
  }

  /** Masking a short that two bytes encode with 0xFFFF gives the bytes' unsigned value. */
  lemma ShortMask(bs: seq<Byte>, v: int, order: ByteOrder)
    requires |bs| == 2 && SignedFits(v, 2) && EncodeSigned(v, 2, order) == bs
    ensures v % 65536 == DecodeUnsigned(bs, order)
  {
    DecodeEncodeSigned(v, 2, order);
    UnsignedIsSignedModulo(bs, order);
    assert Pow256(2) == 65536 by { assert Pow256(1) == 256; }
  }

  /** `putShort`, `putInt`, `putLong`: the n-byte encoding of v, in the buffer's current order. */
  function PutSigned(b: BinaryBuffer, v: int, n: nat): (r: BinaryBuffer)
    requires SignedFits(v, n)
    ensures n <= r.pos && r.data[r.pos - n .. r.pos] == EncodeSigned(v, n, b.order)
  {
    var bytes := EncodeSigned(v, n, b.order);
    assert |bytes| == n;
    Put(b, bytes)
  }

  function PutByte(b: BinaryBuffer, v: Byte): (r: BinaryBuffer)
    ensures 1 <= r.pos && r.data[r.pos - 1] == v
  {
    var r := Put(b, [v]);
    assert r.data[r.pos - 1 .. r.pos] == [v];
    r
  }

  function PutShort(b: BinaryBuffer, v: int): (r: BinaryBuffer)
    requires -32768 <= v < 32768
    ensures 2 <= r.pos && r.data[r.pos - 2 .. r.pos] == EncodeSigned(v, 2, b.order)
  {
    PutSigned(b, v, 2)
  }

  function PutInt(b: BinaryBuffer, v: int): (r: BinaryBuffer)
    requires SignedFits(v, 4)
    ensures 4 <= r.pos && r.data[r.pos - 4 .. r.pos] == EncodeSigned(v, 4, b.order)
  {
    PutSigned(b, v, 4)
  }

  function PutLong(b: BinaryBuffer, v: int): (r: BinaryBuffer)
    requires SignedFits(v, 8)
    ensures 8 <= r.pos && r.data[r.pos - 8 .. r.pos] == EncodeSigned(v, 8, b.order)
  {
    PutSigned(b, v, 8)
  }

  /** `getString`: an unsigned 16-bit length, then that many bytes (the string's encoded bytes). */
  function GetString(b: BinaryBuffer): (r: Result<Read<seq<Byte>>>)
    ensures r.Ok? <==>
      2 <= b.Remaining() && DecodeUnsigned(b.data[b.pos .. b.pos + 2], b.order) <= b.Remaining() - 2
    ensures r.Thrown? ==> r.ex == BufferUnderflow
    ensures r.Ok? ==>
      var len := DecodeUnsigned(b.data[b.pos .. b.pos + 2], b.order);
      r.value.value == b.data[b.pos + 2 .. b.pos + 2 + len] && r.value.rest == b.(pos := b.pos + 2 + len)
  {
    match GetUnsignedShort(b)
    case Thrown(e) => Thrown(e)
    case Ok(rd) => Get(rd.rest, rd.value)
  }

  /**
    `putString`: the length cast to `short`, then the bytes. The bytes always
    end at the new position. The length prefix sits right before them when
    both fit from the position, or when the position was at the end of the
    array; a growth from inside the array separates the two (see the
    findings in the README).
   */
  function PutString(b: BinaryBuffer, s: seq<Byte>): (r: BinaryBuffer)
    ensures 2 + |s| <= r.pos && r.data[r.pos - |s| .. r.pos] == s
    ensures b.pos + 2 + |s| <= |b.data| || b.pos == |b.data| ==>
      && r.pos == b.pos + 2 + |s|
      && r.data[b.pos .. b.pos + 2] == EncodeSigned(Narrow(|s|, 2), 2, b.order)
      && r.data[b.pos + 2 .. r.pos] == s
  {
    var prefix := EncodeSigned(Narrow(|s|, 2), 2, b.order);
    var r1 := PutShort(b, Narrow(|s|, 2));
    assert r1 == Put(b, prefix);
    var r := Put(r1, s);
    if b.pos + 2 + |s| <= |b.data| || b.pos == |b.data| then
      TwoPutsAtPosition(b, prefix, s, r1, r);
      r
    else
      r
  }

  /** A `put` that lands exactly at the old position: either the bytes fit, or the position was already at the end. */
  lemma PutAtPosition(b: BinaryBuffer, bytes: seq<Byte>)
    requires |bytes| <= b.Remaining() || b.pos == |b.data|
    ensures
      var r := Put(b, bytes);
      && r.pos == b.pos + |bytes| && r.data[..b.pos] == b.data[..b.pos]
      && r.data[b.pos .. r.pos] == bytes
  {
  }

  /** Two `put`s that each land at the position leave their bytes side by side from the old position. */
  lemma TwoPutsAtPosition(b: BinaryBuffer, x: seq<Byte>, y: seq<Byte>, r1: BinaryBuffer, r: BinaryBuffer)
    requires b.pos + |x| + |y| <= |b.data| || b.pos == |b.data|
    requires r1 == Put(b, x) && r == Put(r1, y)
    ensures r.pos == b.pos + |x| + |y|
    ensures r.data[b.pos .. b.pos + |x|] == x && r.data[b.pos + |x| .. r.pos] == y
  {
    PutAtPosition(b, x);
    PutAtPosition(r1, y);
    assert r.data[b.pos .. b.pos + |x|] == r.data[..r1.pos][b.pos .. b.pos + |x|];
    assert r1.data[b.pos .. b.pos + |x|] == r1.data[..r1.pos][b.pos .. b.pos + |x|];
  }

  /** `singleLineHexDump`'s digits: `%02X` writes upper-case hex. */
  function HexDigit(d: nat): char
    requires d < 16
  {
    if d < 10 then ('0' as int + d) as char else ('A' as int + d - 10) as char
  }

  /** The value of an upper-case hex digit; nothing for any other character. */
  function HexValue(c: char): Option<nat>
  {
    if '0' <= c <= '9' then Some(c as int - '0' as int)
    else if 'A' <= c <= 'F' then Some(c as int - 'A' as int + 10)
    else None
  }

  /** One byte of the dump: two upper-case hex digits whose value is the unsigned byte, and a space. */
  function HexByte(b: Byte): (h: string)
    ensures |h| == 3 && h[2] == ' '
    ensures HexValue(h[0]).Some? && HexValue(h[1]).Some?
    ensures HexValue(h[0]).value * 16 + HexValue(h[1]).value == Unsigned(b)
  {
    var u := Unsigned(b);
    var hi, lo := u / 16, u % 16;
    assert hi * 16 + lo == u && hi < 16;
    [HexDigit(hi), HexDigit(lo), ' ']
  }

  /**
    `singleLineHexDump`: every byte of the backing array (not only those
    before the position), as two upper-case hex digits and a space.
   */
  function HexDump(data: seq<Byte>): (s: string)
    ensures |s| == 3 * |data|
    ensures forall k :: 0 <= k < |data| ==> s[3 * k .. 3 * k + 3] == HexByte(data[k])
  {
    if data == [] then ""
    else
      var rest := HexDump(data[1..]);
      var s := HexByte(data[0]) + rest;
      assert forall k :: 1 <= k < |data| ==>
        data[k] == data[1..][k - 1] && s[3 * k .. 3 * k + 3] == rest[3 * (k - 1) .. 3 * (k - 1) + 3];
      s
  }

  function SingleLineHexDump(b: BinaryBuffer): (s: string)
    ensures |s| == 3 * |b.data|
    ensures forall k :: 0 <= k < |b.data| ==> s[3 * k .. 3 * k + 3] == HexByte(b.data[k])
  {
    HexDump(b.data)
  }
}
