/** The datagram layer of the stream ciphers. */
module StreamDatagram {
  import opened Bytes
  import opened Io
  import opened StreamCipher
  import opened ShadowStream
  import opened Datagram

  function StreamPack<S>(c: Cipher<S>, room: nat, iv: Option<bytes>, plain: bytes): Result<bytes> {
    if room < c.ivSize + |plain| then Err(ShortBuffer)
    else if iv.None? then Err(Other(0))
    else Ok(iv.value + c.Encrypt(iv.value, plain))
  }

  function StreamUnpack<S>(c: Cipher<S>, room: nat, packet: bytes): Result<bytes> {
    if |packet| < c.ivSize then Err(ShortPacket)
    else if room < |packet| - c.ivSize then Err(ShortBuffer)
    else Ok(c.Decrypt(packet[..c.ivSize], packet[c.ivSize..]))
  }

  lemma StreamPackRoundTrip<S(!new)>(c: Cipher<S>, room: nat, room': nat, iv: Option<bytes>, plain: bytes)
    requires Undoes(c.enc, c.dec) && (iv.Some? ==> |iv.value| == c.ivSize)
    requires StreamPack(c, room, iv, plain).Ok? && |plain| <= room'
    ensures StreamUnpack(c, room', StreamPack(c, room, iv, plain).value) == Ok(plain)
  {
    hide Run, Undoes;
    var sealed := c.Encrypt(iv.value, plain);
    DecryptsEncrypted(c, iv.value, plain);
    assert (iv.value + sealed)[..c.ivSize] == iv.value && (iv.value + sealed)[c.ivSize..] == sealed;
  }

  /** Packing fails for want of room exactly if vector and payload exceed it, and else only without a
      vector; a packet is the vector and as many bytes as the payload has. */
  lemma StreamPackExact<S>(c: Cipher<S>, room: nat, iv: Option<bytes>, plain: bytes)
    requires iv.Some? ==> |iv.value| == c.ivSize
    ensures var r := StreamPack(c, room, iv, plain);
            && (r == Err(ShortBuffer) <==> c.ivSize + |plain| > room)
            && (r.Ok? <==> c.ivSize + |plain| <= room && iv.Some?)
            && (r.Ok? ==> |r.value| == c.ivSize + |plain| && r.value[..c.ivSize] == iv.value)
            && (r.Err? && c.ivSize + |plain| <= room ==> r == Err(Other(0)))
  {
  }

  /** Any packet with a whole vector that fits is delivered, authentic or not. */
  lemma StreamUnpackExact<S>(c: Cipher<S>, room: nat, packet: bytes)
    ensures var r := StreamUnpack(c, room, packet);
            && (r == Err(ShortPacket) <==> |packet| < c.ivSize)
            && (r == Err(ShortBuffer) <==> |packet| >= c.ivSize && |packet| - c.ivSize > room)
            && (r.Ok? <==> 0 <= |packet| - c.ivSize <= room)
            && (r.Ok? ==> |r.value| == |packet| - c.ivSize)
  {
  }

  /** What one side packs, StreamReadFrom of the other side delivers, whenever the packet fits both. */
  lemma StreamDelivered<S(!new)>(c: Cipher<S>, room: nat, room': nat, iv: Option<bytes>, plain: bytes)
    requires Undoes(c.enc, c.dec) && (iv.Some? ==> |iv.value| == c.ivSize)
    requires StreamPack(c, room, iv, plain).Ok? && |StreamPack(c, room, iv, plain).value| <= room'
    ensures c.ivSize <= room'
    ensures StreamUnpack(c, room' - c.ivSize, StreamPack(c, room, iv, plain).value) == Ok(plain)
  {
    hide Undoes;
    StreamPackExact(c, room, iv, plain);
    StreamPackRoundTrip(c, room, room' - c.ivSize, iv, plain);
  }

  /** The vector into the front of dst, the encrypted payload behind it. */
  method StreamPackInto<S>(dst: array<byte>, plain: bytes, c: Cipher<S>, iv: Option<bytes>) returns (r: Result<nat>)
    requires iv.Some? ==> |iv.value| == c.ivSize
    modifies dst
    ensures match StreamPack(c, dst.Length, iv, plain)
            case Err(e) => r == Err(e)
            case Ok(packet) => r == Ok(|packet|) && |packet| <= dst.Length && dst[..|packet|] == packet
  {
    hide Run;
    if dst.Length < c.ivSize + |plain| {
      return Err(ShortBuffer);
    }
    if iv.None? {
      return Err(Other(0));
    }
    var end := c.ivSize + |plain|;
    forall i | 0 <= i < c.ivSize { dst[i] := iv.value[i]; }
    forall i | 0 <= i < |plain| { dst[c.ivSize + i] := plain[i]; }
    assert dst[..c.ivSize] == iv.value && dst[c.ivSize..end] == plain;
    var stream := new Stream(c.enc, c.start(dst[..c.ivSize]));
    stream.XORKeyStream(dst, c.ivSize, end);
    assert dst[..c.ivSize] == iv.value;
    assert dst[..end] == dst[..c.ivSize] + dst[c.ivSize..end];
    r := Ok(end);
  }

  /** The datagram lands in b, is decrypted behind the vector and copied down over itself. */
  method StreamReadFrom<S>(b: array<byte>, arrived: bytes, c: Cipher<S>) returns (r: Result<nat>)
    requires c.ivSize <= b.Length
    modifies b
    ensures var packet := if |arrived| <= b.Length then arrived else arrived[..b.Length];
            match StreamUnpack(c, b.Length - c.ivSize, packet)
            case Err(e) => r == Err(e) && e != ShortBuffer
            case Ok(plain) => r == Ok(|plain|) && |plain| <= b.Length && b[..|plain|] == plain
  {
    hide Run;
    var n := if |arrived| <= b.Length then |arrived| else b.Length;
    forall i | 0 <= i < n { b[i] := arrived[i]; }
    ghost var packet := b[..n];
    assert packet == if |arrived| <= b.Length then arrived else arrived[..b.Length];
    var off := c.ivSize;
    if n < off {
      return Err(ShortPacket);
    }
    if b.Length - off < n - off {
      return Err(ShortBuffer);
    }
    assert b[..off] == packet[..off] && b[off..n] == packet[off..];
    var stream := new Stream(c.dec, c.start(b[..off]));
    stream.XORKeyStream(b, off, n);
    CopyWithin(b, 0, off, n - off);
    r := Ok(n - off);
  }
}
