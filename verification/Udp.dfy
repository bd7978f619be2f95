/** UDP end to end: what the listeners and the copiers put in front of a payload, and take off again. */
module Udp {
  import opened Bytes
  import opened Aead
  import opened Io
  import opened Socks
  import opened Datagram

  /** Of every listener, copier and packet connection. */
  const BUF_SIZE: nat := 64 * 1024

  const SOCKS_HEAD: bytes := [0, 0, 0]

  function Cut(b: bytes, room: nat): bytes {
    if |b| <= room then b else b[..room]
  }

  // ---------------------------------------------------------------- the copiers

  datatype Mode = RemoteServer | RelayClient | SocksClient

  /** A datagram read from a copier's socket, and the address it came from. */
  datatype Arrival = Arrival(from: bytes, data: bytes)

  /** What a copier passes on; None where slicing the buffer would panic. */
  function Frame(mode: Mode, a: Arrival): Option<bytes> {
    match mode
    case RemoteServer => if |a.from| + |a.data| <= BUF_SIZE then Some(a.from + a.data) else None
    case RelayClient =>
      (match SplitAddr(a.data)
       case None => Some(a.data)
       case Some(from) => Some(a.data[|from|..]))
    case SocksClient => Some(SOCKS_HEAD + a.data)
  }

  /** Put `head` in front of the first n bytes of buf, which move up over themselves. */
  method Insert(buf: array<byte>, n: nat, head: bytes)
    requires |head| + n <= buf.Length
    modifies buf
    ensures buf[..|head| + n] == head + old(buf[..n])
  {
    CopyWithin(buf, |head|, 0, n);
    ghost var tail := buf[|head|..|head| + n];
    forall i | 0 <= i < |head| { buf[i] := head[i]; }
    assert buf[|head|..|head| + n] == tail;
    assert buf[..|head| + n] == buf[..|head|] + buf[|head|..|head| + n];
  }

  /** One round of a copier on the n bytes it has read into its buffer. */
  method FrameInPlace(mode: Mode, buf: array<byte>, n: nat, from: bytes) returns (r: Option<bytes>)
    requires n <= buf.Length == BUF_SIZE
    modifies buf
    ensures r == Frame(mode, Arrival(from, old(buf[..n])))
  {
    match mode
    case RemoteServer =>
      if |from| + n > buf.Length {
        return None;
      }
      Insert(buf, n, from);
      r := Some(buf[..|from| + n]);
    case RelayClient =>
      var addr := SplitAddr(buf[..n]);
      var at := if addr.None? then 0 else |addr.value|;
      r := Some(buf[at..n]);
      assert buf[..n][at..] == buf[at..n];
    case SocksClient =>
      r := Some(SOCKS_HEAD + buf[..n]);
  }

  /** The reply does not fit the buffer behind its source address. */
  predicate Overflows(mode: Mode, a: Arrival) {
    mode.RemoteServer? && |a.from| + |a.data| > BUF_SIZE
  }

  predicate Passes(mode: Mode, a: Arrival, accepts: bytes -> bool) {
    !Overflows(mode, a) && accepts(Frame(mode, a).value)
  }

  /** Of a reply, a copier of the server makes a packet exactly if its source leaves room for it: 65529
      bytes behind an IPv4 source, which UDP never exceeds, but 65517 behind an IPv6 source. */
  lemma ReplyRoom(from: bytes, body: bytes)
    requires WellFormed(from) && from[0] != ATYP_DOMAIN
    ensures Frame(RemoteServer, Arrival(from, body)).Some?
            <==> |body| <= if from[0] == ATYP_IPV4 then 65529 else 65517
  {
    SplitIsPrefix(from);
  }

  /** The largest reply that UDP over IPv6 carries overflows the buffer. */
  lemma LargestReplyOverflows(ip: bytes, port: nat, body: bytes)
    requires |ip| == 16 && port < 65536 && |body| == 65535 - 8
    ensures var from := Encode(IPv6(ip), port).value;
            WellFormed(from) && Overflows(RemoteServer, Arrival(from, body))
  {
    EncodeRoundTrip(IPv6(ip), port, []);
  }

  datatype End = TimedOut | Refused | Panicked

  /** A copier over everything that arrives before its timeout; `accepts` tells which packets the
      other side can be sent. The one buffer is reused for every datagram. It panics exactly if a reply
      overflows the buffer before any packet was refused, and is refused exactly the other way round. */
  method TimedCopy(mode: Mode, arrivals: seq<Arrival>, accepts: bytes -> bool) returns (sent: seq<bytes>, end: End)
    requires forall i | 0 <= i < |arrivals| :: |arrivals[i].data| <= BUF_SIZE
    ensures |sent| <= |arrivals|
    ensures forall i | 0 <= i < |sent| :: Frame(mode, arrivals[i]) == Some(sent[i])
    ensures forall i | 0 <= i < |sent| :: accepts(sent[i]) <==> end != Refused || i < |sent| - 1
    ensures end == TimedOut <==> forall i | 0 <= i < |arrivals| :: Passes(mode, arrivals[i], accepts)
    ensures end == TimedOut ==> |sent| == |arrivals|
    ensures end == Refused ==> |sent| > 0
    ensures end == Panicked <==> exists k :: 0 <= k < |arrivals| && Overflows(mode, arrivals[k])
                                             && forall i | 0 <= i < k :: Passes(mode, arrivals[i], accepts)
  {
    hide Frame;
    var buf := new byte[BUF_SIZE](_ => 0);
    sent, end := [], TimedOut;
    for i := 0 to |arrivals|
      invariant |sent| == i && end == TimedOut
      invariant forall j | 0 <= j < i :: Frame(mode, arrivals[j]) == Some(sent[j])
      invariant forall j | 0 <= j < i :: accepts(sent[j]) && Passes(mode, arrivals[j], accepts)
    {
      var data := arrivals[i].data;
      forall j | 0 <= j < |data| { buf[j] := data[j]; }
      assert buf[..|data|] == data;
      FrameFails(mode, arrivals[i]);
      var packet := FrameInPlace(mode, buf, |data|, arrivals[i].from);
      if packet.None? {
        assert !Passes(mode, arrivals[i], accepts);
        return sent, Panicked;
      }
      sent := sent + [packet.value];
      if !accepts(packet.value) {
        assert !Passes(mode, arrivals[i], accepts);
        return sent, Refused;
      }
    }
  }

  lemma FrameFails(mode: Mode, a: Arrival)
    ensures Frame(mode, a).None? <==> Overflows(mode, a)
  {
  }

  // ---------------------------------------------------------------- the listeners

  /** The tunnel client writes the target into the front of its buffer once; whatever it reads
      behind it, the target stays. */
  method TunnelListener(target: bytes, arrivals: seq<bytes>) returns (sent: seq<bytes>)
    requires |target| <= BUF_SIZE
    ensures |sent| == |arrivals|
    ensures forall i | 0 <= i < |sent| :: sent[i] == target + Cut(arrivals[i], BUF_SIZE - |target|)
  {
    var buf := new byte[BUF_SIZE](_ => 0);
    forall j | 0 <= j < |target| { buf[j] := target[j]; }
    sent := [];
    for i := 0 to |arrivals|
      invariant |sent| == i && buf[..|target|] == target
      invariant forall j | 0 <= j < i :: sent[j] == target + Cut(arrivals[j], BUF_SIZE - |target|)
    {
      var data := Cut(arrivals[i], BUF_SIZE - |target|);
      forall j | 0 <= j < |data| { buf[|target| + j] := data[j]; }
      assert buf[..|target| + |data|] == target + data;
      sent := sent + [buf[..|target| + |data|]];
    }
  }

  /** What the SOCKS listener encrypts of a datagram: all but the first three bytes, FRAG included.
      None where slicing the buffer would panic. */
  function SocksPayload(user: bytes): Option<bytes> {
    if |user| < 3 then None else Some(Cut(user, BUF_SIZE)[3..])
  }

  /** A round of the SOCKS listener on the n bytes it has read into its buffer. */
  method SocksRound(buf: array<byte>, n: nat) returns (r: Option<bytes>)
    requires n <= buf.Length
    ensures r.None? <==> n < 3
    ensures r.Some? ==> |r.value| == n - 3 && buf[..n] == buf[..3] + r.value
  {
    if n < 3 {
      return None;
    }
    r := Some(buf[3..n]);
  }

  /** The SOCKS listener over what its programs send, in its one buffer: it panics exactly if one of
      them sends fewer than three bytes, and until then passes on what is behind the first three. */
  method SocksListener(arrivals: seq<bytes>) returns (sent: seq<bytes>, panicked: bool)
    ensures panicked <==> exists i :: 0 <= i < |arrivals| && |arrivals[i]| < 3
    ensures panicked ==> |sent| < |arrivals| && |arrivals[|sent|]| < 3
    ensures !panicked ==> |sent| == |arrivals|
    ensures forall i | 0 <= i < |sent| :: SocksPayload(arrivals[i]) == Some(sent[i])
  {
    var buf := new byte[BUF_SIZE](_ => 0);
    sent, panicked := [], false;
    for i := 0 to |arrivals|
      invariant |sent| == i
      invariant forall j | 0 <= j < i :: |arrivals[j]| >= 3 && SocksPayload(arrivals[j]) == Some(sent[j])
    {
      var data := Cut(arrivals[i], BUF_SIZE);
      forall j | 0 <= j < |data| { buf[j] := data[j]; }
      assert buf[..|data|] == data;
      var payload := SocksRound(buf, |data|);
      if payload.None? {
        return sent, true;
      }
      assert data[3..] == payload.value;
      sent := sent + [payload.value];
    }
  }

  /** What the server sends to which target for an encrypted datagram. */
  function Forwarded(c: Cipher, arrived: bytes): Option<(bytes, bytes)>
    requires c.saltSize <= BUF_SIZE
  {
    match Unpack(c, BUF_SIZE - c.saltSize, Cut(arrived, BUF_SIZE))
    case Err(_) => None
    case Ok(plain) =>
      match SplitAddr(plain)
      case None => None
      case Some(target) => Some((target, plain[|target|..]))
  }

  /** A round of the server's listener: decrypt in place, split the target off the front. */
  method ServerRound(c: Cipher, buf: array<byte>, arrived: bytes) returns (r: Option<(bytes, bytes)>)
    requires c.Lawful() && c.saltSize <= buf.Length == BUF_SIZE
    modifies buf
    ensures r == Forwarded(c, arrived)
  {
    hide Unpack, SplitAddr;
    var n := ReadFrom(buf, arrived, c);
    if n.Err? {
      return None;
    }
    var target := SplitAddr(buf[..n.value]);
    if target.None? {
      return None;
    }
    SplitIsPrefix(buf[..n.value]);
    r := Some((target.value, buf[|target.value|..n.value]));
    assert buf[..n.value][|target.value|..] == buf[|target.value|..n.value];
  }

  // ---------------------------------------------------------------- both ends together

  /** A payload of this size goes into a buffer of `room` bytes with its salt and tag. */
  predicate Fits(c: Cipher, salt: bytes, size: nat, room: nat) {
    c.Session(salt).Some? && c.saltSize + size + c.Session(salt).value.overhead <= room
  }

  /** Any payload: it is sent exactly if it fits the sender's buffer, and if it also fits the server's,
      the server forwards exactly what is behind the address at its front, or drops it without one. */
  lemma Forward(c: Cipher, salt: bytes, room: nat, plain: bytes)
    requires c.Lawful() && |salt| == c.saltSize <= BUF_SIZE && c.Session(salt).Some?
    ensures var packet := Pack(c, room, Some(salt), plain);
            && (packet.Ok? <==> Fits(c, salt, |plain|, room))
            && (packet.Err? ==> packet == Err(ShortBuffer))
            && (packet.Ok? && Fits(c, salt, |plain|, BUF_SIZE) ==>
                  forall target, payload :: Forwarded(c, packet.value) == Some((target, payload))
                                            <==> WellFormed(target) && plain == target + payload)
  {
    hide Pack, Unpack, SplitAddr;
    PackShort(c, room, salt, plain);
    if Fits(c, salt, |plain|, room) && Fits(c, salt, |plain|, BUF_SIZE) {
      Delivered(c, room, BUF_SIZE, Some(salt), plain);
      var packet := Pack(c, room, Some(salt), plain).value;
      assert Unpack(c, BUF_SIZE - c.saltSize, Cut(packet, BUF_SIZE)) == Ok(plain);
      forall target, payload
        ensures Forwarded(c, packet) == Some((target, payload)) <==> WellFormed(target) && plain == target + payload
      {
        SplitExact(plain, target, payload);
        if SplitAddr(plain).Some? {
          SplitIsPrefix(plain);
        }
      }
    }
  }

  lemma SplitExact(plain: bytes, target: bytes, payload: bytes)
    ensures SplitAddr(plain) == Some(target) && |target| <= |plain| && plain[|target|..] == payload
            <==> WellFormed(target) && plain == target + payload
  {
    hide SplitAddr;
    if SplitAddr(plain).Some? {
      SplitIsPrefix(plain);
    }
    if WellFormed(target) && plain == target + payload {
      SplitOfJoined(target, payload);
    }
  }

  /** Whatever arrives, what the server forwards was packed by a client, as target and payload, if
      nothing was forged. */
  lemma ForwardAuthentic(c: Cipher, log: seq<Packing>, arrived: bytes, target: bytes, payload: bytes)
    requires c.Lawful() && c.saltSize <= BUF_SIZE && Unforged(c, log, Cut(arrived, BUF_SIZE))
    requires Forwarded(c, arrived) == Some((target, payload))
    ensures WellFormed(target)
    ensures exists k :: k in log && k.plain == target + payload && Packs(c, k, Cut(arrived, BUF_SIZE))
  {
    hide Unpack, Unforged, Packs, SplitAddr, Cipher.Lawful;
    var k := OnlyPacked(c, log, BUF_SIZE - c.saltSize, Cut(arrived, BUF_SIZE));
    SplitIsPrefix(k.plain);
    SplitExact(k.plain, target, payload);
  }

  /** Nothing is forwarded of a datagram that does not open. */
  lemma ForgedNotForwarded(c: Cipher, arrived: bytes)
    requires c.saltSize <= |arrived| <= BUF_SIZE && c.Session(arrived[..c.saltSize]).Some?
    requires var a := c.Session(arrived[..c.saltSize]).value;
             a.Open(ZeroNonce(a), arrived[c.saltSize..]).None?
    ensures Forwarded(c, arrived).None?
  {
    UnpackExact(c, BUF_SIZE - c.saltSize, arrived);
  }

  /** The way there through a tunnel: the server sends exactly the user's payload to exactly the target. */
  lemma TunnelForward(c: Cipher, salt: bytes, room: nat, target: bytes, user: bytes)
    requires c.Lawful() && |salt| == c.saltSize <= BUF_SIZE && WellFormed(target)
    requires Fits(c, salt, |target| + |user|, room) && Fits(c, salt, |target| + |user|, BUF_SIZE)
    ensures var packet := Pack(c, room, Some(salt), target + Cut(user, BUF_SIZE - |target|));
            packet.Ok? && Forwarded(c, packet.value) == Some((target, user))
  {
    hide Pack, Forwarded, WellFormed;
    Forward(c, salt, room, target + user);
  }

  /** The way there from a SOCKS program: what the server sends and where is read off the datagram
      behind its first three bytes, whatever those are, and nothing else is ever sent. */
  lemma SocksForward(c: Cipher, salt: bytes, room: nat, user: bytes)
    requires c.Lawful() && |salt| == c.saltSize <= BUF_SIZE
    requires 3 <= |user| <= BUF_SIZE
    requires Fits(c, salt, |user| - 3, room) && Fits(c, salt, |user| - 3, BUF_SIZE)
    ensures var packet := Pack(c, room, Some(salt), SocksPayload(user).value);
            && packet.Ok?
            && forall target, payload :: Forwarded(c, packet.value) == Some((target, payload))
                                         <==> WellFormed(target) && user == user[..3] + target + payload
  {
    hide Pack, Forwarded, WellFormed;
    Forward(c, salt, room, user[3..]);
    forall target, payload
      ensures user[3..] == target + payload <==> user == user[..3] + target + payload
    {
      assert user == user[..3] + user[3..];
      assert user[..3] + target + payload == user[..3] + (target + payload);
      assert (user[..3] + (target + payload))[3..] == target + payload;
    }
  }

  /** What a copier of the client passes on for an encrypted datagram. */
  function Returned(c: Cipher, mode: Mode, server: bytes, arrived: bytes): Option<bytes>
    requires c.saltSize <= BUF_SIZE
  {
    match Unpack(c, BUF_SIZE - c.saltSize, Cut(arrived, BUF_SIZE))
    case Err(_) => None
    case Ok(plain) => Frame(mode, Arrival(server, plain))
  }

  /** Whatever arrives, what the client passes on is the frame of something the server packed, if nothing
      was forged. */
  lemma ReturnAuthentic(c: Cipher, mode: Mode, server: bytes, log: seq<Packing>, arrived: bytes)
    requires c.Lawful() && c.saltSize <= BUF_SIZE && Unforged(c, log, Cut(arrived, BUF_SIZE))
    requires Returned(c, mode, server, arrived).Some?
    ensures exists k :: k in log && Returned(c, mode, server, arrived) == Frame(mode, Arrival(server, k.plain))
  {
    hide Unpack, Unforged, Packs, Frame, Cipher.Lawful;
    var k := OnlyPacked(c, log, BUF_SIZE - c.saltSize, Cut(arrived, BUF_SIZE));
  }

  /** A reply without an address at its front is passed on whole through a tunnel. */
  lemma UnaddressedReply(a: Arrival)
    requires SplitAddr(a.data).None?
    ensures Frame(RelayClient, a) == Some(a.data)
  {
  }

  /** The header of section 7 of RFC 1928: reserved and fragment bytes zero, the address, the data. */
  predicate IsSocksReply(d: bytes, from: bytes, body: bytes) {
    |d| >= 3 && d[..3] == [0, 0, 0] && SplitAddr(d[3..]) == Some(from) && |from| <= |d| - 3 && d[3 + |from|..] == body
  }

  /** The way back: the reply body arrives as it was sent, bare for a tunnel, and for a SOCKS program
      behind a header that names where it came from. */
  lemma ReplyPath(c: Cipher, salt: bytes, room: nat, from: bytes, body: bytes, server: bytes)
    requires c.Lawful() && |salt| == c.saltSize <= BUF_SIZE && WellFormed(from)
    requires Fits(c, salt, |from| + |body|, room) && Fits(c, salt, |from| + |body|, BUF_SIZE)
    ensures var framed := Frame(RemoteServer, Arrival(from, body));
            && framed.Some?
            && var packet := Pack(c, room, Some(salt), framed.value);
            && packet.Ok?
            && Returned(c, RelayClient, server, packet.value) == Some(body)
            && var toSocks := Returned(c, SocksClient, server, packet.value);
            && toSocks.Some? && IsSocksReply(toSocks.value, from, body)
  {
    hide Pack, Unpack, SplitAddr;
    var plain := from + body;
    PackShort(c, room, salt, plain);
    Delivered(c, room, BUF_SIZE, Some(salt), plain);
    SplitOfJoined(from, body);
    assert plain[|from|..] == body;
    var d := SOCKS_HEAD + plain;
    assert d[3..] == plain && d[3 + |from|..] == body && d[..3] == SOCKS_HEAD;
  }
}
