/** The datagram layer of the AEAD ciphers: packing, and unpacking in place. */
module Datagram {
  import opened Bytes
  import opened Aead
  import opened Io

  datatype Result<+T> = Ok(value: T) | Err(error: IOErr)

  /** Every packet uses the zero nonce of its own session. */
  function ZeroNonce(a: AEAD): bytes {
    Zeros(a.nonceSize)
  }

  /** Pack into a buffer of `room` bytes with the salt that was drawn, if any. */
  function Pack(c: Cipher, room: nat, salt: Option<bytes>, plain: bytes): Result<bytes> {
    if salt.None? then Err(Other(0))
    else
      match c.Session(salt.value)
      case None => Err(CipherFailed)
      case Some(a) =>
        if room < c.saltSize + |plain| + a.overhead then Err(ShortBuffer)
        else Ok(salt.value + a.Seal(ZeroNonce(a), plain))
  }

  /** Unpack into a buffer of `room` bytes. */
  function Unpack(c: Cipher, room: nat, packet: bytes): Result<bytes> {
    if |packet| < c.saltSize then Err(ShortPacket)
    else
      match c.Session(packet[..c.saltSize])
      case None => Err(CipherFailed)
      case Some(a) =>
        if |packet| < c.saltSize + a.overhead then Err(ShortPacket)
        else if c.saltSize + room + a.overhead < |packet| then Err(ShortBuffer)
        else
          match a.Open(ZeroNonce(a), packet[c.saltSize..])
          case None => Err(AuthFailed)
          case Some(plain) => Ok(plain)
  }

  /** The buffer is too short exactly when salt, payload and tag do not fit, whatever the salt. */
  lemma PackShort(c: Cipher, room: nat, salt: bytes, plain: bytes)
    requires c.Lawful() && |salt| == c.saltSize && c.Session(salt).Some?
    ensures var p := Pack(c, room, Some(salt), plain);
            var size := c.saltSize + |plain| + c.Session(salt).value.overhead;
            && (p == Err(ShortBuffer) <==> size > room)
            && (p.Ok? <==> size <= room)
            && (p.Ok? ==> |p.value| == size)
  {
    var a := c.Session(salt).value;
    a.SealLaw(ZeroNonce(a), plain);
  }

  /** Unpacking what was packed gives the payload, in any buffer that holds it. */
  lemma PackRoundTrip(c: Cipher, room: nat, room': nat, salt: Option<bytes>, plain: bytes)
    requires c.Lawful() && (salt.Some? ==> |salt.value| == c.saltSize)
    requires Pack(c, room, salt, plain).Ok? && |plain| <= room'
    ensures Unpack(c, room', Pack(c, room, salt, plain).value) == Ok(plain)
  {
    var a := c.Session(salt.value).value;
    a.SealLaw(ZeroNonce(a), plain);
    var sealed := a.Seal(ZeroNonce(a), plain);
    assert (salt.value + sealed)[..c.saltSize] == salt.value && (salt.value + sealed)[c.saltSize..] == sealed;
  }

  /** A packet is the salt, and then the payload sealed under a nonce of zeros. */
  lemma PacketFormat(c: Cipher, room: nat, salt: bytes, plain: bytes, zeros: bytes)
    requires |salt| == c.saltSize && Pack(c, room, Some(salt), plain).Ok?
    requires |zeros| == c.Session(salt).value.nonceSize && forall i | 0 <= i < |zeros| :: zeros[i] == 0
    ensures Pack(c, room, Some(salt), plain).value == salt + c.Session(salt).value.Seal(zeros, plain)
  {
    assert zeros == ZeroNonce(c.Session(salt).value);
  }

  /** Without a salt or a session nothing is packed, whatever the room. */
  lemma PackFails(c: Cipher, room: nat, salt: Option<bytes>, plain: bytes)
    ensures Pack(c, room, salt, plain) == Err(Other(0)) <==> salt.None?
    ensures Pack(c, room, salt, plain) == Err(CipherFailed) <==> salt.Some? && c.Session(salt.value).None?
  {
  }

  /** What becomes of any packet: which error, and when it is delivered; in particular one that is long
      enough, fits, and does not open is reported as not authentic. */
  lemma UnpackExact(c: Cipher, room: nat, packet: bytes)
    ensures var r := Unpack(c, room, packet);
            if |packet| < c.saltSize then r == Err(ShortPacket)
            else
              var sealed := packet[c.saltSize..];
              match c.Session(packet[..c.saltSize])
              case None => r == Err(CipherFailed)
              case Some(a) =>
                && (r == Err(ShortPacket) <==> |sealed| < a.overhead)
                && (r == Err(ShortBuffer) <==> |sealed| >= a.overhead && |sealed| - a.overhead > room)
                && (0 <= |sealed| - a.overhead <= room ==>
                      r == match a.Open(ZeroNonce(a), sealed)
                           case None => Err(AuthFailed)
                           case Some(plain) => Ok(plain))
  {
  }

  // ---------------------------------------------------------------- authenticity

  /** A payload that was packed, with the salt that was drawn for it. */
  datatype Packing = Packing(salt: bytes, plain: bytes)

  ghost predicate Packs(c: Cipher, k: Packing, packet: bytes) {
    |k.salt| == c.saltSize && Pack(c, |packet|, Some(k.salt), k.plain) == Ok(packet)
  }

  /** The ideal-AEAD hypothesis for one packet: if it opens, its sealed part had been sealed by one of the
      packings under the same salt. */
  ghost predicate Unforged(c: Cipher, log: seq<Packing>, packet: bytes) {
    |packet| >= c.saltSize ==>
      var salt, sealed := packet[..c.saltSize], packet[c.saltSize..];
      match c.Session(salt)
      case None => true
      case Some(a) =>
        a.Open(ZeroNonce(a), sealed).Some? ==> exists k :: k in log && SealedBy(a, salt, sealed, k)
  }

  predicate SealedBy(a: AEAD, salt: bytes, sealed: bytes, k: Packing) {
    k.salt == salt && sealed == a.Seal(ZeroNonce(a), k.plain)
  }

  /** Whatever arrives, what is delivered is the payload of a packing, and what arrived is its packet. */
  lemma OnlyPacked(c: Cipher, log: seq<Packing>, room: nat, packet: bytes) returns (k: Packing)
    requires c.Lawful() && Unforged(c, log, packet) && Unpack(c, room, packet).Ok?
    ensures k in log && k.plain == Unpack(c, room, packet).value && Packs(c, k, packet)
  {
    var salt, sealed := packet[..c.saltSize], packet[c.saltSize..];
    var a := c.Session(salt).value;
    k :| k in log && SealedBy(a, salt, sealed, k);
    a.SealLaw(ZeroNonce(a), k.plain);
    assert packet == salt + sealed;
  }

  /** The hypothesis holds of every packet that was packed. */
  lemma PackedIsUnforged(c: Cipher, log: seq<Packing>, packet: bytes, k: Packing)
    requires c.Lawful() && k in log && Packs(c, k, packet)
    ensures Unforged(c, log, packet)
  {
    var a := c.Session(k.salt).value;
    a.SealLaw(ZeroNonce(a), k.plain);
    var sealed := a.Seal(ZeroNonce(a), k.plain);
    assert (k.salt + sealed)[..c.saltSize] == k.salt && (k.salt + sealed)[c.saltSize..] == sealed;
    assert SealedBy(a, packet[..c.saltSize], packet[c.saltSize..], k);
  }

  // ---------------------------------------------------------------- in place

  /** Pack as the code does it: the salt into the front of dst, the sealed payload behind it. */
  method PackInto(dst: array<byte>, plain: bytes, c: Cipher, salt: Option<bytes>) returns (r: Result<nat>)
    requires c.Lawful() && c.saltSize <= dst.Length
    requires salt.Some? ==> |salt.value| == c.saltSize
    modifies dst
    ensures match Pack(c, dst.Length, salt, plain)
            case Err(e) => r == Err(e)
            case Ok(packet) => r == Ok(|packet|) && |packet| <= dst.Length && dst[..|packet|] == packet
  {
    hide AEAD.Lawful;
    if salt.None? {
      return Err(Other(0));
    }
    forall i | 0 <= i < c.saltSize { dst[i] := salt.value[i]; }
    assert dst[..c.saltSize] == salt.value;
    match c.Session(dst[..c.saltSize])
    case None =>
      r := Err(CipherFailed);
    case Some(a) =>
      if dst.Length < c.saltSize + |plain| + a.overhead {
        return Err(ShortBuffer);
      }
      a.SealLaw(ZeroNonce(a), plain);
      var sealed := a.Seal(Zeros(a.nonceSize), plain);
      forall i | 0 <= i < |sealed| { dst[c.saltSize + i] := sealed[i]; }
      r := Ok(c.saltSize + |sealed|);
      assert dst[..c.saltSize + |sealed|] == salt.value + sealed;
  }

  /** ReadFrom: the datagram lands in b, cut off if it does not fit; it is decrypted at the offset
      behind the salt and then copied down over itself. */
  method ReadFrom(b: array<byte>, arrived: bytes, c: Cipher) returns (r: Result<nat>)
    requires c.Lawful() && c.saltSize <= b.Length
    modifies b
    ensures var packet := if |arrived| <= b.Length then arrived else arrived[..b.Length];
            match Unpack(c, b.Length - c.saltSize, packet)
            case Err(e) => r == Err(e) && e != ShortBuffer
            case Ok(plain) => r == Ok(|plain|) && |plain| <= b.Length && b[..|plain|] == plain
  {
    hide AEAD.Lawful;
    var n := if |arrived| <= b.Length then |arrived| else b.Length;
    forall i | 0 <= i < n { b[i] := arrived[i]; }
    ghost var packet := b[..n];
    assert packet == if |arrived| <= b.Length then arrived else arrived[..b.Length];
    var off := c.saltSize;
    if n < off {
      return Err(ShortPacket);
    }
    assert b[..off] == packet[..off];
    match c.Session(b[..off])
    case None =>
      r := Err(CipherFailed);
    case Some(a) =>
      if n < off + a.overhead {
        return Err(ShortPacket);
      }
      if off + (b.Length - off) + a.overhead < n {
        return Err(ShortBuffer);
      }
      assert b[off..n] == packet[off..];
      r := OpenAt(a, b, off, n);
      if r.Ok? {
        CopyWithin(b, 0, off, r.value);
      }
  }

  /** AEAD.Open of b[off..n] onto itself. */
  method OpenAt(a: AEAD, b: array<byte>, off: nat, n: nat) returns (r: Result<nat>)
    requires a.Lawful() && off <= n <= b.Length
    modifies b
    ensures match a.Open(ZeroNonce(a), old(b[off..n]))
            case None => r == Err(AuthFailed)
            case Some(plain) =>
              r == Ok(|plain|) && off + |plain| <= n && b[off..off + |plain|] == plain
  {
    var plain' := a.Open(Zeros(a.nonceSize), b[off..n]);
    if plain'.None? {
      return Err(AuthFailed);
    }
    var plain := plain'.value;
    a.OpenLaw(Zeros(a.nonceSize), b[off..n]);
    forall i | 0 <= i < |plain| { b[off + i] := plain[i]; }
    assert b[off..off + |plain|] == plain;
    r := Ok(|plain|);
  }

  /** Go's copy between overlapping parts of one slice. */
  method CopyWithin(b: array<byte>, dst: nat, src: nat, n: nat)
    requires dst + n <= b.Length && src + n <= b.Length
    modifies b
    ensures b[dst..dst + n] == old(b[src..src + n])
    ensures forall i | 0 <= i < dst || dst + n <= i < b.Length :: b[i] == old(b[i])
  {
    if dst <= src {
      CopyDown(b, dst, src, n);
    } else {
      CopyUp(b, dst, src, n);
    }
  }

  method CopyDown(b: array<byte>, dst: nat, src: nat, n: nat)
    requires dst <= src && src + n <= b.Length
    modifies b
    ensures b[dst..dst + n] == old(b[src..src + n])
    ensures forall i | 0 <= i < dst || dst + n <= i < b.Length :: b[i] == old(b[i])
  {
    ghost var was := b[..];
    for i := 0 to n
      invariant forall k | dst <= k < dst + i :: b[k] == was[k - dst + src]
      invariant forall k | 0 <= k < dst || dst + i <= k < b.Length :: b[k] == was[k]
    {
      b[dst + i] := b[src + i];
    }
  }

  method CopyUp(b: array<byte>, dst: nat, src: nat, n: nat)
    requires src < dst && dst + n <= b.Length
    modifies b
    ensures b[dst..dst + n] == old(b[src..src + n])
    ensures forall i | 0 <= i < dst || dst + n <= i < b.Length :: b[i] == old(b[i])
  {
    ghost var was := b[..];
    for i := n downto 0
      invariant forall k | dst + i <= k < dst + n :: b[k] == was[k - dst + src]
      invariant forall k | 0 <= k < dst + i || dst + n <= k < b.Length :: b[k] == was[k]
    {
      b[dst + i] := b[src + i];
    }
  }

  /** What one side packs, ReadFrom of the other side delivers, whenever the packet fits both buffers. */
  lemma Delivered(c: Cipher, room: nat, room': nat, salt: Option<bytes>, plain: bytes)
    requires c.Lawful() && (salt.Some? ==> |salt.value| == c.saltSize)
    requires Pack(c, room, salt, plain).Ok? && |Pack(c, room, salt, plain).value| <= room'
    ensures Unpack(c, room' - c.saltSize, Pack(c, room, salt, plain).value) == Ok(plain)
  {
    PackShort(c, room, salt.value, plain);
    PackRoundTrip(c, room, room' - c.saltSize, salt, plain);
  }
}
