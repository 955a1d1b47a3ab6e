/**
  The RakNet "open connection request 2" packet and its "reply 2".

  The request is read with a big-endian `ByteBuffer` at fixed offsets; the
  reply is a fixed 30-byte layout. The two packet IDs belong to a class that
  is not part of this model, so they are parameters here.
 */
module RakNet {
  import opened JavaLang
  import opened Bytes

  /** The datagram's source address, as the network layer reports it. */
  type Address = seq<Byte>

  /**
    A JoinPacket's fields. The `serverID` field is never assigned (the
    constructor's argument of that name is dropped), so it is always zero
    and is not stored here.
   */
  datatype JoinPacket = JoinPacket(
    magic: seq<Byte>,
    cookie: seq<Byte>,
    mtuSize: int,
    clientPort: int,
    clientAddress: Option<Address>)
  {
    predicate Valid()
    {
      |magic| == 16 && |cookie| == 4 && SignedFits(mtuSize, 2) && SignedFits(clientPort, 2)
    }
  }

  /** Byte offsets of the request fields. */
  const MagicStart := 1
  const CookieStart := 17
  const MtuStart := 22
  const RequestLength := 24

  /** Offsets of the reply fields and its total length. */
  const ReplyServerIdStart := 17
  const ReplyPortStart := 25
  const ReplyMtuStart := 27
  const ReplyLength := 30

  /** The field values a JoinPacket has before the constructor assigns anything. */
  function Unset(): (j: JoinPacket)
    ensures j.Valid()
  {
    JoinPacket(Zeros(16), Zeros(4), 0, 0, None)
  }

  /**
    The constructor. It reads byte 0; a packet of another kind stops parsing
    and leaves every field unset. Otherwise magic is bytes 1-16, the cookie
    bytes 17-20, byte 21 is skipped and the MTU is the big-endian short at
    bytes 22-23; the client address and port come from the datagram, the port
    cast to `short`. The serverID, clientAddress and clientPort arguments are
    not used.
   */
  function Parse(data: seq<Byte>, requestId: int, source: Address, sourcePort: int, serverId: int,
                 clientAddressArg: Address, clientPortArg: int): (r: Result<JoinPacket>)
    ensures r.Ok? ==> r.value.Valid()
    ensures r.Thrown? <==> |data| == 0 || (data[0] == requestId && |data| < RequestLength)
    ensures r.Thrown? ==> r.ex == BufferUnderflow
    ensures r.Ok? && data[0] != requestId ==> r.value == Unset()
    ensures r.Ok? && data[0] == requestId ==>
      && r.value.magic == data[MagicStart .. CookieStart]
      && r.value.cookie == data[CookieStart .. CookieStart + 4]
      && EncodeSigned(r.value.mtuSize, 2, BigEndian) == data[MtuStart .. RequestLength]
      && r.value.clientAddress == Some(source)
      && r.value.clientPort == Narrow(sourcePort, 2)
  {
    if |data| == 0 then Thrown(BufferUnderflow)
    else if data[0] != requestId then Ok(Unset())
    else if |data| < RequestLength then Thrown(BufferUnderflow)
    else
      var mtuBytes := data[MtuStart .. RequestLength];
      EncodeDecodeSigned(mtuBytes, BigEndian);
      Ok(JoinPacket(
        data[MagicStart .. CookieStart],
        data[CookieStart .. CookieStart + 4],
        DecodeSigned(mtuBytes, BigEndian),
        Narrow(sourcePort, 2),
        Some(source)))
  }

  /**
    `getPacket`: the reply-2 ID cast to a byte, the magic, the eight-byte
    server ID (always zero), the client port, the MTU and a zero byte, all
    big-endian, filling the 30-byte buffer exactly.
   */
  function Reply(j: JoinPacket, replyId: int): (r: seq<Byte>)
    requires j.Valid()
    ensures |r| == ReplyLength
    ensures r[0] == Narrow(replyId, 1)
    ensures r[MagicStart .. ReplyServerIdStart] == j.magic
    ensures forall k :: ReplyServerIdStart <= k < ReplyPortStart ==> r[k] == 0
    ensures r[ReplyPortStart .. ReplyMtuStart] == EncodeSigned(j.clientPort, 2, BigEndian)
    ensures r[ReplyMtuStart .. ReplyLength - 1] == EncodeSigned(j.mtuSize, 2, BigEndian)
    ensures r[ReplyLength - 1] == 0
  {
    var serverId := 0;
    ZeroEncodesAsZeros(8);
    [Narrow(replyId, 1)]
      + j.magic
      + EncodeSigned(serverId, 8, BigEndian)
      + EncodeSigned(j.clientPort, 2, BigEndian)
      + EncodeSigned(j.mtuSize, 2, BigEndian)
      + [0]
  }

  /** Zero encodes as n zero bytes. */
  lemma {:induction false} ZeroEncodesAsZeros(n: nat)
    requires n >= 1
    ensures SignedFits(0, n)
    ensures forall k :: 0 <= k < n ==> EncodeSigned(0, n, BigEndian)[k] == 0
  {
    assert SignedFits(0, n);
    ZeroBigEndian(n);
  }

  lemma {:induction false} ZeroBigEndian(n: nat)
    ensures EncodeBE(0, n) == Zeros(n)
  {
    if n > 0 {
      ZeroBigEndian(n - 1);
    }
  }

  /** The reply echoes the request's magic and MTU bytes unchanged. */
  lemma ReplyEchoesRequest(data: seq<Byte>, requestId: int, source: Address, sourcePort: int, serverId: int,
                           clientAddressArg: Address, clientPortArg: int, replyId: int)
    requires |data| >= RequestLength && data[0] == requestId
    ensures
      var p := Parse(data, requestId, source, sourcePort, serverId, clientAddressArg, clientPortArg);
      && p.Ok?
      && Reply(p.value, replyId)[MagicStart .. ReplyServerIdStart] == data[MagicStart .. CookieStart]
      && Reply(p.value, replyId)[ReplyMtuStart .. ReplyLength - 1] == data[MtuStart .. RequestLength]
      && Reply(p.value, replyId)[ReplyPortStart .. ReplyMtuStart] == EncodeSigned(Narrow(sourcePort, 2), 2, BigEndian)
  {
  }

  /**
    The serverID and the address and port passed to the constructor make no
    difference: the reply's server-ID field is zero whatever they are.
   */
  lemma ServerIdIgnored(data: seq<Byte>, requestId: int, source: Address, sourcePort: int,
                        serverId1: int, serverId2: int, address1: Address, address2: Address,
                        port1: int, port2: int, replyId: int)
    ensures Parse(data, requestId, source, sourcePort, serverId1, address1, port1)
         == Parse(data, requestId, source, sourcePort, serverId2, address2, port2)
    ensures
      var p := Parse(data, requestId, source, sourcePort, serverId1, address1, port1);
      p.Ok? ==> forall k :: ReplyServerIdStart <= k < ReplyPortStart ==> Reply(p.value, replyId)[k] == 0
  {
  }

  /** A packet of another kind still yields a reply: the ID, sixteen zero bytes of magic and zero fields. */
  lemma OtherPacketRepliesWithZeros(data: seq<Byte>, requestId: int, source: Address, sourcePort: int,
                                    serverId: int, address: Address, port: int, replyId: int)
    requires |data| >= 1 && data[0] != requestId
    ensures
      var p := Parse(data, requestId, source, sourcePort, serverId, address, port);
      && p.Ok?
      && forall k :: 1 <= k < ReplyLength ==> Reply(p.value, replyId)[k] == 0
  {
    var r := Reply(Unset(), replyId);
    ZeroEncodesAsZeros(2);
    assert forall k :: 1 <= k < 17 ==> r[k] == r[MagicStart .. ReplyServerIdStart][k - 1] == 0;
    assert forall k :: 25 <= k < 27 ==> r[k] == r[ReplyPortStart .. ReplyMtuStart][k - 25] == 0;
    assert forall k :: 27 <= k < 29 ==> r[k] == r[ReplyMtuStart .. ReplyLength - 1][k - 27] == 0;
  }
}
