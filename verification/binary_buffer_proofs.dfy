/**
  Properties of BinaryBuffer: what is written can be read back, the
  unsigned readers agree with the signed ones, and the hex dump can be
  parsed back. Also the two ways the growth branch of `put` departs from
  the behaviour its documentation promises, each with a corrected `put`.
 */
module BufferProofs {
  import opened JavaLang
  import opened Arith
  import opened Bytes
  import opened Buffers

  /** The unsigned reading of an encoded value is its two's-complement bit pattern. */
  lemma DecodeUnsignedOfEncodeSigned(v: int, n: nat, order: ByteOrder)
    requires SignedFits(v, n)
    ensures DecodeUnsigned(EncodeSigned(v, n, order), order) == ToUnsignedBits(v, n)
  {
    AsBigEndianInvolution(EncodeBE(ToUnsignedBits(v, n), n), order);
    DecodeEncodeBE(ToUnsignedBits(v, n), n);
  }

  /** Two values with the same encoding are equal. */
  lemma EncodeSignedInjective(v: int, w: int, n: nat, order: ByteOrder)
    requires SignedFits(v, n) && SignedFits(w, n)
    requires EncodeSigned(v, n, order) == EncodeSigned(w, n, order)
    ensures v == w
  {
    DecodeEncodeSigned(v, n, order);
    DecodeEncodeSigned(w, n, order);
  }

  /** `wrapBytes` then `get` of every byte returns the wrapped array. */
  lemma WrapThenGetAll(bytes: seq<Byte>, order: ByteOrder)
    ensures Get(WrapBytes(bytes, order), |bytes|) == Ok(Read(bytes, Buffer(bytes, |bytes|, order)))
  {
    assert bytes[0 .. |bytes|] == bytes;
  }

  /**
    `putShort`/`putInt`/`putLong` then reading the n bytes before the new
    position, in the order the buffer had when writing, gives the value back.
   */
  lemma PutSignedReadBack(b: BinaryBuffer, v: int, n: nat, r: BinaryBuffer)
    requires SignedFits(v, n) && r == PutSigned(b, v, n)
    ensures GetSigned(Buffer(r.data, r.pos - n, b.order), n) == Ok(Read(v, Buffer(r.data, r.pos, b.order)))
  {
    ReadBackBefore(r, v, n, b.order);
  }

  /** If the n bytes before the position encode v in the given order, reading them from there gives v. */
  lemma ReadBackBefore(r: BinaryBuffer, v: int, n: nat, order: ByteOrder)
    requires SignedFits(v, n) && n <= r.pos
    requires r.data[r.pos - n .. r.pos] == EncodeSigned(v, n, order)
    ensures GetSigned(Buffer(r.data, r.pos - n, order), n) == Ok(Read(v, Buffer(r.data, r.pos, order)))
  {
    var c: BinaryBuffer := Buffer(r.data, r.pos - n, order);
    var g := GetSigned(c, n);
    EncodeSignedInjective(g.value.value, v, n, order);
  }

  /** When the value fits, the order is kept and `setPosition` back then reading gives the value. */
  lemma PutSignedReadBackInPlace(b: BinaryBuffer, v: int, n: nat)
    requires SignedFits(v, n) && n <= b.Remaining()
    ensures
      var r := PutSigned(b, v, n);
      && r.pos == b.pos + n && r.order == b.order
      && SetPosition(r, b.pos).Ok?
      && GetSigned(SetPosition(r, b.pos).value, n) == Ok(Read(v, r))
  {
    PutSignedReadBack(b, v, n, PutSigned(b, v, n));
  }

  /** `getUnsignedByte` is the signed `getByte` taken modulo 2^8. */
  lemma UnsignedByteIsSignedModulo(b: BinaryBuffer)
    ensures GetUnsignedByte(b).Ok? <==> GetByte(b).Ok?
    ensures GetUnsignedByte(b).Ok? ==>
      GetUnsignedByte(b).value.value == GetByte(b).value.value % 256
  {
  }

  /** `getUnsignedShort` is the signed `getShort` taken modulo 2^16. */
  lemma UnsignedShortIsSignedModulo(b: BinaryBuffer)
    ensures GetUnsignedShort(b).Ok? <==> GetShort(b).Ok?
    ensures GetUnsignedShort(b).Ok? ==>
      GetUnsignedShort(b).value.value == GetShort(b).value.value % 65536
  {
    if GetShort(b).Ok? {
      var bs := b.data[b.pos .. b.pos + 2];
      DecodeEncodeSigned(GetShort(b).value.value, 2, b.order);
      UnsignedIsSignedModulo(bs, b.order);
    }
  }

  /** The length prefix `putString` writes reads back, unsigned, as the length. */
  lemma LengthPrefixReadsBack(len: nat, order: ByteOrder)
    requires len < 65536
    ensures DecodeUnsigned(EncodeSigned(Narrow(len, 2), 2, order), order) == len
  {
    var p := Pow256(2);
    assert p == 65536 by { assert Pow256(1) == 256; }
    var v := Narrow(len, 2);
    var u := ToUnsignedBits(v, 2);
    DecodeUnsignedOfEncodeSigned(v, 2, order);
    ModUnique(len, p, 0, len);
    if u == v {
      ModUnique(v, p, 0, v);
    } else {
      ModUnique(v, p, -1, u);
    }
  }

  /** `getString` at a length prefix followed by that many bytes returns those bytes. */
  lemma GetStringAt(c: BinaryBuffer, s: seq<Byte>)
    requires |s| < 65536 && c.pos + 2 + |s| <= |c.data|
    requires c.data[c.pos .. c.pos + 2] == EncodeSigned(Narrow(|s|, 2), 2, c.order)
    requires c.data[c.pos + 2 .. c.pos + 2 + |s|] == s
    ensures GetString(c) == Ok(Read(s, c.(pos := c.pos + 2 + |s|)))
  {
    LengthPrefixReadsBack(|s|, c.order);
    var g := GetString(c);
    assert DecodeUnsigned(c.data[c.pos .. c.pos + 2], c.order) == |s|;
    assert g.Ok? && g.value.value == s && g.value.rest == c.(pos := c.pos + 2 + |s|);
  }

  /**
    `putString` then `getString` from where the string began returns the
    string, for strings shorter than 65536 bytes, provided the write does not
    grow the buffer from a position before its end (see the findings below).
   */
  lemma PutStringGetString(b: BinaryBuffer, s: seq<Byte>, r: BinaryBuffer)
    requires |s| < 65536
    requires b.pos + 2 + |s| <= |b.data| || b.pos == |b.data|
    requires r == PutString(b, s)
    ensures 2 + |s| <= r.pos
    ensures GetString(Buffer(r.data, r.pos - 2 - |s|, b.order)) == Ok(Read(s, Buffer(r.data, r.pos, b.order)))
  {
    var c: BinaryBuffer := Buffer(r.data, b.pos, b.order);
    GetStringAt(c, s);
    assert Buffer(r.data, r.pos - 2 - |s|, b.order) == c;
    assert c.(pos := c.pos + 2 + |s|) == Buffer(r.data, r.pos, b.order);
  }

  /**
    `putString`, `setPosition` back to where it began, then `getString` on
    the buffer the write produced: the string comes back and the position
    ends where the write ended. Growth from the end makes the buffer
    big-endian, so a buffer written at its end must already be big-endian
    (PutStringAtEndTurnsBigEndian shows the little-endian case failing).
   */
  lemma PutStringGetStringInPlace(b: BinaryBuffer, s: seq<Byte>, r: BinaryBuffer)
    requires |s| < 65536
    requires b.pos + 2 + |s| <= |b.data| || (b.pos == |b.data| && b.order == BigEndian)
    requires r == PutString(b, s)
    ensures r.order == b.order
    ensures SetPosition(r, b.pos).Ok?
    ensures GetString(SetPosition(r, b.pos).value) == Ok(Read(s, r))
  {
    var r1 := PutShort(b, Narrow(|s|, 2));
    assert r1 == Put(b, EncodeSigned(Narrow(|s|, 2), 2, b.order));
    assert r == Put(r1, s);
    assert r1.order == b.order;
    PutStringGetString(b, s, r);
    assert r == Buffer(r.data, r.pos, b.order);
  }

  /**
    Finding, as written: on an empty little-endian buffer `putString("abc")`
    writes the length little-endian (03 00) and then grows, which leaves the
    buffer big-endian; `setPosition(0)` and `getString` read the length as
    768 and underflow.
   */
  lemma PutStringAtEndTurnsBigEndian()
    ensures PutString(Buffer([], 0, LittleEndian), [97, 98, 99])
      == Buffer([3, 0, 97, 98, 99], 5, BigEndian)
    ensures SetPosition(Buffer([3, 0, 97, 98, 99], 5, BigEndian), 0)
      == Ok(Buffer([3, 0, 97, 98, 99], 0, BigEndian))
    ensures GetString(Buffer([3, 0, 97, 98, 99], 0, BigEndian)) == Thrown(BufferUnderflow)
  {
    var b0: BinaryBuffer := Buffer([], 0, LittleEndian);
    assert Narrow(3, 2) == 3;
    assert EncodeSigned(3, 2, LittleEndian) == [3, 0];
    var r1 := PutShort(b0, 3);
    assert r1 == Put(b0, [3, 0]);
    assert r1 == Buffer([3, 0], 2, BigEndian);
    var r := Put(r1, [97, 98, 99]);
    assert r.data == [3, 0] + [97, 98, 99];
    var c: BinaryBuffer := Buffer([3, 0, 97, 98, 99], 0, BigEndian);
    assert c.data[0 .. 2] == [3, 0];
    assert DecodeUnsigned([3, 0], BigEndian) == 768;
  }

  /**
    Finding, as written: growing keeps the whole old array, so on a fresh
    4-byte buffer `putString("abc")` stores the length at bytes 0-1, then
    appends the string after the two untouched zero bytes 2-3; reading the
    string back from position 0 yields 00 00 61 instead of 61 62 63.
   */
  lemma PutStringLosesBytesOnGrowth()
    ensures NewInstance(4, BigEndian) == Ok(Buffer([0, 0, 0, 0], 0, BigEndian))
    ensures PutString(Buffer([0, 0, 0, 0], 0, BigEndian), [97, 98, 99])
      == Buffer([0, 3, 0, 0, 97, 98, 99], 7, BigEndian)
    ensures GetString(Buffer([0, 3, 0, 0, 97, 98, 99], 0, BigEndian))
      == Ok(Read([0, 0, 97], Buffer([0, 3, 0, 0, 97, 98, 99], 5, BigEndian)))
  {
    FreshFourByteBuffer();
    PutStringAbcGrows();
    GetStringAfterGrowth();
  }

  lemma FreshFourByteBuffer()
    ensures NewInstance(4, BigEndian) == Ok(Buffer([0, 0, 0, 0], 0, BigEndian))
  {
    assert Zeros(2) == [0, 0] by { assert Zeros(1) == [0]; }
    assert Zeros(4) == [0, 0, 0, 0] by { assert Zeros(3) == [0, 0, 0]; }
  }

  lemma PutStringAbcGrows()
    ensures PutString(Buffer([0, 0, 0, 0], 0, BigEndian), [97, 98, 99])
      == Buffer([0, 3, 0, 0, 97, 98, 99], 7, BigEndian)
  {
    var b0: BinaryBuffer := Buffer([0, 0, 0, 0], 0, BigEndian);
    ShortThreeBigEndian();
    var r1 := PutShort(b0, 3);
    assert r1 == Put(b0, [0, 3]);
    assert r1.data == [0, 3] + [0, 0];
    assert r1 == Buffer([0, 3, 0, 0], 2, BigEndian);
    var r2 := Put(r1, [97, 98, 99]);
    assert r2.data == [0, 3, 0, 0] + [97, 98, 99];
  }

  lemma GetStringAfterGrowth()
    ensures GetString(Buffer([0, 3, 0, 0, 97, 98, 99], 0, BigEndian))
      == Ok(Read([0, 0, 97], Buffer([0, 3, 0, 0, 97, 98, 99], 5, BigEndian)))
  {
    var c: BinaryBuffer := Buffer([0, 3, 0, 0, 97, 98, 99], 0, BigEndian);
    assert c.data[0 .. 2] == [0, 3];
    assert DecodeUnsigned([0, 3], BigEndian) == 3 by {
      assert DecodeBE([0]) == 0;
    }
    assert c.data[2 .. 5] == [0, 0, 97];
  }

  /** The short 3, its `(short)` cast, and its big-endian bytes 00 03. */
  lemma ShortThreeBigEndian()
    ensures Pow256(2) == 65536
    ensures Narrow(3, 2) == 3
    ensures EncodeSigned(3, 2, BigEndian) == [0, 3]
  {
    assert Pow256(1) == 256;
    assert SignedFits(3, 2);
    assert EncodeBE(0, 1) == [0];
    assert EncodeBE(3, 2) == [0, 3];
  }

  /**
    Finding, as written: the grown buffer is big-endian whatever the old
    order was. Two `putShort(1)` calls on an empty little-endian buffer
    store 01 00 00 01, so the second value reads back little-endian as 256.
   */
  lemma GrowthResetsOrder()
    ensures
      var r1 := PutShort(Buffer([], 0, LittleEndian), 1);
      var r2 := PutShort(r1, 1);
      && r1.order == BigEndian
      && r2.data == [1, 0, 0, 1]
      && GetShort(Buffer(r2.data, 2, LittleEndian)).Ok?
      && GetShort(Buffer(r2.data, 2, LittleEndian)).value.value == 256
  {
    assert EncodeSigned(1, 2, LittleEndian) == [1, 0];
    assert EncodeSigned(1, 2, BigEndian) == [0, 1];
    var r1 := PutShort(Buffer([], 0, LittleEndian), 1);
    assert r1 == Put(Buffer([], 0, LittleEndian), [1, 0]);
    assert r1 == Buffer([1, 0], 2, BigEndian);
    var r2 := PutShort(r1, 1);
    assert r2 == Put(r1, [0, 1]);
    assert r2.data == [1, 0] + [0, 1];
    assert r2.data[2 .. 4] == [0, 1];
    assert DecodeUnsigned([0, 1], LittleEndian) == 256;
  }

  /**
    The growing `put` the documentation describes: the bytes land at the
    position, the buffer grows only as far as needed, and the order is kept.
   */
  function PutIntended(b: BinaryBuffer, bytes: seq<Byte>): (r: BinaryBuffer)
    ensures r.order == b.order && r.pos == b.pos + |bytes|
    ensures r.data[..b.pos] == b.data[..b.pos] && r.data[b.pos .. r.pos] == bytes
    ensures r.pos <= |b.data| ==> |r.data| == |b.data| && r.data[r.pos..] == b.data[r.pos..]
    ensures |b.data| < r.pos ==> |r.data| == r.pos
  {
    var tail := if b.pos + |bytes| <= |b.data| then b.data[b.pos + |bytes|..] else [];
    Buffer(b.data[..b.pos] + bytes + tail, b.pos + |bytes|, b.order)
  }

  function PutStringIntended(b: BinaryBuffer, s: seq<Byte>): (r: BinaryBuffer)
  {
    PutIntended(PutIntended(b, EncodeSigned(Narrow(|s|, 2), 2, b.order)), s)
  }

  /** With the intended `put`, a written value reads back in the buffer's own order. */
  lemma PutIntendedReadBack(b: BinaryBuffer, v: int, n: nat)
    requires SignedFits(v, n)
    ensures
      var r := PutIntended(b, EncodeSigned(v, n, b.order));
      && SetPosition(r, b.pos).Ok?
      && GetSigned(SetPosition(r, b.pos).value, n) == Ok(Read(v, r))
  {
    var r := PutIntended(b, EncodeSigned(v, n, b.order));
    var g := GetSigned(r.(pos := b.pos), n);
    EncodeSignedInjective(g.value.value, v, n, b.order);
  }

  /** With the intended `put`, every string shorter than 65536 bytes round-trips. */
  lemma PutStringGetStringIntended(b: BinaryBuffer, s: seq<Byte>, r: BinaryBuffer)
    requires |s| < 65536
    requires r == PutStringIntended(b, s)
    ensures SetPosition(r, b.pos).Ok?
    ensures GetString(SetPosition(r, b.pos).value) == Ok(Read(s, r))
  {
    var prefix := EncodeSigned(Narrow(|s|, 2), 2, b.order);
    var r1 := PutIntended(b, prefix);
    assert r.data[b.pos .. r1.pos] == r1.data[..r1.pos][b.pos .. r1.pos] == prefix;
    var c := r.(pos := b.pos);
    GetStringAt(c, s);
    assert SetPosition(r, b.pos) == Ok(c);
    assert c.(pos := c.pos + 2 + |s|) == r;
  }

  /** Reads a dump back: groups of two hex digits and a space. */
  function ParseHexDump(s: string): Option<seq<Byte>>
    decreases |s|
  {
    if s == [] then Some([])
    else if |s| < 3 || s[2] != ' ' then None
    else match (HexValue(s[0]), HexValue(s[1]), ParseHexDump(s[3..]))
      case (Some(hi), Some(lo), Some(rest)) =>
        if hi * 16 + lo < 256 then Some([FromUnsigned(hi * 16 + lo)] + rest) else None
      case _ => None
  }

  /** The dump determines the array: parsing it gives every byte back. */
  lemma {:induction false} HexDumpRoundTrip(data: seq<Byte>)
    ensures ParseHexDump(HexDump(data)) == Some(data)
  {
    if data != [] {
      var s := HexDump(data);
      var h := HexByte(data[0]);
      assert s[..3] == h;
      assert s[3..] == HexDump(data[1..]);
      HexDumpRoundTrip(data[1..]);
      FromUnsignedOfUnsigned(data[0]);
      assert data == [data[0]] + data[1..];
    }
  }
}
