/** SOCKS addresses and the server side of the handshake, after RFC 1928. */
module Socks {
  import opened Bytes
  import opened Io

  const CMD_CONNECT: byte := 1
  const CMD_UDP_ASSOCIATE: byte := 3
  const ATYP_IPV4: byte := 1
  const ATYP_DOMAIN: byte := 3
  const ATYP_IPV6: byte := 4

  const ERR_COMMAND_NOT_SUPPORTED: IOErr := IOErr.Socks(7)
  const ERR_ADDRESS_NOT_SUPPORTED: IOErr := IOErr.Socks(8)
  const INFO_UDP_ASSOCIATE: IOErr := IOErr.Socks(9)

  const MAX_ADDR_LEN: nat := 1 + 1 + 255 + 2

  // ---------------------------------------------------------------- the address code

  /** The address at the start of b, if there is a whole one. */
  function SplitAddr(b: bytes): (a: Option<bytes>) {
    if |b| < 1 then None
    else if b[0] == ATYP_DOMAIN then
      if |b| < 2 || |b| < 1 + 1 + b[1] as nat + 2 then None else Some(b[..1 + 1 + b[1] as nat + 2])
    else if b[0] == ATYP_IPV4 then
      if |b| < 1 + 4 + 2 then None else Some(b[..1 + 4 + 2])
    else if b[0] == ATYP_IPV6 then
      if |b| < 1 + 16 + 2 then None else Some(b[..1 + 16 + 2])
    else None
  }

  predicate WellFormed(a: bytes) {
    SplitAddr(a) == Some(a)
  }

  /** The three forms of section 5 of RFC 1928, with their type, length and two bytes of port. */
  lemma AddressForms(a: bytes)
    ensures WellFormed(a)
            <==> || (|a| == 1 + 4 + 2 && a[0] == 1)
                 || (|a| == 1 + 16 + 2 && a[0] == 4)
                 || (|a| >= 4 && a[0] == 3 && |a| == 1 + 1 + a[1] as nat + 2)
    ensures MAX_ADDR_LEN == 259
  {
    assert a[..|a|] == a;
  }

  /** What is split off is a well-formed address, and what follows it does not matter. */
  lemma SplitIsPrefix(b: bytes)
    requires SplitAddr(b).Some?
    ensures var a := SplitAddr(b).value;
            WellFormed(a) && a <= b && |a| <= MAX_ADDR_LEN
  {
    var a := SplitAddr(b).value;
    assert a == b[..|a|] && a[..|a|] == a;
  }

  lemma SplitOfJoined(a: bytes, t: bytes)
    requires WellFormed(a)
    ensures SplitAddr(a + t) == Some(a)
  {
    assert (a + t)[..|a|] == a;
  }

  /** No address is a proper prefix of another. */
  lemma PrefixFree(a: bytes, b: bytes)
    requires WellFormed(a) && WellFormed(b) && a <= b
    ensures a == b
  {
    SplitOfJoined(a, b[|a|..]);
    assert b == a + b[|a|..];
  }

  // ---------------------------------------------------------------- reading an address

  datatype AddrRead = AddrRead(addr: bytes, err: Option<IOErr>, rest: bytes)

  /** `want` bytes after the first `at`. */
  function Await(b: bytes, at: nat, want: nat, fin: IOErr): AddrRead
    requires at <= |b|
  {
    if |b| - at < want then AddrRead([], Some(Short(|b| - at, fin)), [])
    else AddrRead(b[..at + want], None, b[at + want..])
  }

  /** What readAddr makes of a source that still has the bytes b. */
  function AddrOf(b: bytes, fin: IOErr): AddrRead {
    if |b| < 1 then AddrRead([], Some(Short(0, fin)), [])
    else if b[0] == ATYP_DOMAIN then
      if |b| < 2 then AddrRead([], Some(Short(0, fin)), []) else Await(b, 2, b[1] as nat + 2, fin)
    else if b[0] == ATYP_IPV4 then Await(b, 1, 4 + 2, fin)
    else if b[0] == ATYP_IPV6 then Await(b, 1, 16 + 2, fin)
    else AddrRead([], Some(ERR_ADDRESS_NOT_SUPPORTED), b[1..])
  }

  lemma AwaitSplits(b: bytes, at: nat, want: nat, fin: IOErr)
    requires at <= |b|
    ensures var r := Await(b, at, want, fin);
            && (r.err.None? <==> at + want <= |b|)
            && (r.err.None? ==> r.addr == b[..at + want] && r.addr + r.rest == b)
  {
  }

  /** The two decoders agree: reading succeeds with a exactly if splitting gives a, and then
      precisely the suffix is left unread. */
  lemma DecodersAgree(b: bytes, fin: IOErr)
    ensures AddrOf(b, fin).err.None? <==> SplitAddr(b).Some?
    ensures SplitAddr(b).Some? ==>
              AddrOf(b, fin).addr == SplitAddr(b).value && SplitAddr(b).value + AddrOf(b, fin).rest == b
  {
    hide Await;
    if |b| >= 1 {
      AwaitSplits(b, 1, 4 + 2, fin);
      AwaitSplits(b, 1, 16 + 2, fin);
    }
    if |b| >= 2 {
      AwaitSplits(b, 2, b[1] as nat + 2, fin);
    }
  }

  /** How reading fails: an unknown type is reported as such, and only that byte is taken; else all is
      taken, and the end of file is unexpected unless it comes between two of the reads. */
  lemma AddrFails(b: bytes)
    requires AddrOf(b, EOF).err.Some?
    ensures var r := AddrOf(b, EOF);
            if |b| >= 1 && b[0] !in {1, 3, 4} then r.err == Some(IOErr.Socks(8)) && r.rest == b[1..]
            else
              && r.rest == []
              && r.err == if |b| <= 1 || (|b| == 2 && b[0] == 3) then Some(EOF) else Some(UnexpectedEOF)
  {
  }

  /** The bytes of the address are collected in b step by step. */
  method ReadAddr(src: Source, b: array<byte>) returns (n: nat, err: Option<IOErr>)
    modifies src, b
    ensures b.Length < MAX_ADDR_LEN ==> err == Some(ShortBuffer) && src.frags == old(src.frags)
    ensures b.Length >= MAX_ADDR_LEN ==>
              var r := AddrOf(old(src.Rest()), src.fin);
              && err == r.err && src.Rest() == r.rest
              && (err.None? ==> n == |r.addr| <= b.Length && b[..n] == r.addr)
  {
    hide Concat, Skip, Await;
    if b.Length < MAX_ADDR_LEN {
      return 0, Some(ShortBuffer);
    }
    ghost var all := src.Rest();
    n := 0;
    err := ReadFull(src, b, 0, 1);
    if err.Some? {
      return;
    }
    assert b[0..1] == all[..1] && b[0] == all[0];
    var at := 1;
    if b[0] == ATYP_DOMAIN {
      err := ReadFull(src, b, 1, 2);
      if err.Some? {
        return;
      }
      assert b[0..1] == all[..1] && b[1..2] == all[1..2] && b[..2] == all[..2] && src.Rest() == all[2..];
      at := 2;
      n := 2 + b[1] as nat + 2;
    } else if b[0] == ATYP_IPV4 {
      n := 1 + 4 + 2;
    } else if b[0] == ATYP_IPV6 {
      n := 1 + 16 + 2;
    } else {
      return 0, Some(ERR_ADDRESS_NOT_SUPPORTED);
    }
    assert b[..at] == all[..at] && src.Rest() == all[at..];
    err := ReadRest(src, b, at, n, all);
  }

  /** The rest of the address, behind the first `at` bytes of it. */
  method ReadRest(src: Source, b: array<byte>, at: nat, n: nat, ghost all: bytes) returns (err: Option<IOErr>)
    requires at <= n <= b.Length && at <= |all| && b[..at] == all[..at] && src.Rest() == all[at..]
    modifies src, b
    ensures var r := Await(all, at, n - at, src.fin);
            && err == r.err && src.Rest() == r.rest
            && (err.None? ==> n == |r.addr| && b[..n] == r.addr)
  {
    hide Concat, Skip;
    err := ReadFull(src, b, at, n);
    if err.None? {
      assert b[..n] == b[..at] + b[at..n];
      assert all == all[..at] + all[at..];
    }
  }

  // ---------------------------------------------------------------- building an address

  /** A host as the library parsers classify it. */
  datatype Host = IPv4(ip: bytes) | IPv6(ip: bytes) | Domain(name: bytes) {
    predicate Ok() {
      match this
      case IPv4(ip) => |ip| == 4
      case IPv6(ip) => |ip| == 16
      case Domain(_) => true
    }
  }

  /** The layout of an address; a name of more than 255 bytes has none. */
  function Encode(h: Host, port: nat): Option<bytes> {
    match h
    case IPv4(ip) => Some([ATYP_IPV4] + ip + Header(port))
    case IPv6(ip) => Some([ATYP_IPV6] + ip + Header(port))
    case Domain(name) =>
      if |name| > 255 then None else Some([ATYP_DOMAIN, |name| as byte] + name + Header(port))
  }

  /** The host and port that Addr.String shows. */
  function Decode(a: bytes): Option<(Host, nat)> {
    if !WellFormed(a) then None
    else
      var n := |a| - 2;
      var port := a[n] as nat * 256 + a[n + 1] as nat;
      if a[0] == ATYP_DOMAIN then Some((Domain(a[2..n]), port))
      else if a[0] == ATYP_IPV4 then Some((IPv4(a[1..n]), port))
      else Some((IPv6(a[1..n]), port))
  }

  /** What is built for a host and port is a well-formed address that is split off whatever follows
      it, and it shows the same host and port again. */
  lemma EncodeRoundTrip(h: Host, port: nat, t: bytes)
    requires h.Ok() && port < 65536 && Encode(h, port).Some?
    ensures var a := Encode(h, port).value;
            WellFormed(a) && SplitAddr(a + t) == Some(a) && Decode(a) == Some((h, port))
  {
    var a := Encode(h, port).value;
    HeaderValue(port);
    assert a[..|a|] == a;
    SplitOfJoined(a, t);
    var n := |a| - 2;
    assert [a[n], a[n + 1]] == Header(port);
    match h
    case Domain(name) => assert a[2..n] == name;
    case IPv4(ip) => assert a[1..n] == ip;
    case IPv6(ip) => assert a[1..n] == ip;
  }

  /** The layout of section 5 of RFC 1928; only a name of more than 255 bytes has none. */
  lemma EncodeLayout(h: Host, port: nat)
    requires port < 65536
    ensures var end := [(port / 256) as byte, (port % 256) as byte];
            Encode(h, port) == match h
                               case IPv4(ip) => Some([1] + ip + end)
                               case IPv6(ip) => Some([4] + ip + end)
                               case Domain(name) =>
                                 if |name| > 255 then None else Some([3, |name| as byte] + name + end)
  {
    HeaderValue(port);
  }

  /** Every well-formed address is the encoding of what it shows. */
  lemma DecodeRoundTrip(a: bytes)
    requires WellFormed(a)
    ensures Decode(a).Some? && Decode(a).value.0.Ok() && Decode(a).value.1 < 65536
    ensures Encode(Decode(a).value.0, Decode(a).value.1) == Some(a)
  {
    var n := |a| - 2;
    assert a[..|a|] == a;
    var x, y := a[n], a[n + 1];
    PortBytes(x, y);
    assert a[n..] == [x, y];
    if a[0] == ATYP_DOMAIN {
      assert a == [a[0], a[1]] + a[2..n] + a[n..];
    } else {
      assert a == [a[0]] + a[1..n] + a[n..];
    }
  }

  lemma PortBytes(x: byte, y: byte)
    ensures Header(x as nat * 256 + y as nat) == [x, y]
  {
    var v := x as nat * 256 + y as nat;
    ModOf(v, x as nat, 256, y as nat);
    ModOf(x as nat, 0, 256, x as nat);
  }

  /** ParseAddr once the library has split and classified the string: nothing comes of a string
      that does not split, of a name that is too long, or of a port that is not a number below 65536. */
  method ParseAddr(host: Option<Host>, port: Option<nat>) returns (r: Option<bytes>)
    requires host.Some? ==> host.value.Ok()
    requires port.Some? ==> port.value < 65536
    ensures r == if host.None? || port.None? then None else Encode(host.value, port.value)
  {
    hide Header;
    if host.None? {
      return None;
    }
    var addr: array<byte>;
    match host.value {
      case IPv4(ip) =>
        addr := new byte[1 + 4 + 2](_ => 0);
        addr[0] := ATYP_IPV4;
        forall i | 0 <= i < 4 { addr[1 + i] := ip[i]; }
        assert addr[..addr.Length - 2] == [ATYP_IPV4] + ip;
      case IPv6(ip) =>
        addr := new byte[1 + 16 + 2](_ => 0);
        addr[0] := ATYP_IPV6;
        forall i | 0 <= i < 16 { addr[1 + i] := ip[i]; }
        assert addr[..addr.Length - 2] == [ATYP_IPV6] + ip;
      case Domain(name) =>
        if |name| > 255 {
          return None;
        }
        addr := new byte[1 + 1 + |name| + 2](_ => 0);
        addr[0] := ATYP_DOMAIN;
        addr[1] := |name| as byte;
        forall i | 0 <= i < |name| { addr[2 + i] := name[i]; }
        assert addr[..addr.Length - 2] == [ATYP_DOMAIN, |name| as byte] + name;
    }
    if port.None? {
      return None;
    }
    PutPort(addr, port.value);
    r := Some(addr[..]);
  }

  method PutPort(addr: array<byte>, port: nat)
    requires addr.Length >= 2
    modifies addr
    ensures addr[..] == old(addr[..addr.Length - 2]) + Header(port)
  {
    ghost var front := addr[..addr.Length - 2];
    addr[addr.Length - 2], addr[addr.Length - 1] := (port / 256 % 256) as byte, (port % 256) as byte;
    assert addr[..] == front + Header(port);
  }

  // ---------------------------------------------------------------- handshake

  const METHOD_REPLY: bytes := [5, 0]
  const CONNECT_REPLY: bytes := [5, 0, 0, 1, 0, 0, 0, 0, 0, 0]
  const ASSOCIATE_HEAD: bytes := [5, 0, 0]

  /** What a handshake ends with: the address, the error, the bytes left, the bytes written. */
  datatype Shaken = Shaken(addr: Option<bytes>, err: Option<IOErr>, rest: bytes, written: bytes)

  function Greeted(b: bytes, fin: IOErr, udp: bool, listen: bytes): Shaken {
    if |b| < 3 then Shaken(None, Some(Short(|b|, fin)), [], METHOD_REPLY)
    else
      var cmd := b[1];
      var r := AddrOf(b[3..], fin);
      if r.err.Some? then Shaken(None, r.err, r.rest, METHOD_REPLY)
      else if cmd == CMD_CONNECT then Shaken(Some(r.addr), None, r.rest, METHOD_REPLY + CONNECT_REPLY)
      else if cmd == CMD_UDP_ASSOCIATE && udp then
        Shaken(Some(r.addr), Some(INFO_UDP_ASSOCIATE), r.rest, METHOD_REPLY + (ASSOCIATE_HEAD + listen))
      else Shaken(None, Some(ERR_COMMAND_NOT_SUPPORTED), r.rest, METHOD_REPLY)
  }

  /** The handshake over a client that sends b and reads everything it is sent. */
  function HandshakeOf(b: bytes, fin: IOErr, udp: bool, listen: bytes): Shaken {
    if |b| < 2 then Shaken(None, Some(Short(|b|, fin)), [], [])
    else if |b| - 2 < b[1] as nat then Shaken(None, Some(Short(|b| - 2, fin)), [], [])
    else Greeted(b[2 + b[1] as nat..], fin, udp, listen)
  }

  /** A client's side of the handshake: greeting with its methods, then the request. */
  function Request(ver: byte, methods: bytes, ver': byte, cmd: byte, rsv: byte, addr: bytes): bytes
    requires |methods| <= 255
  {
    ([ver, |methods| as byte] + methods) + ([ver', cmd, rsv] + addr)
  }

  predicate Answered(cmd: byte, udp: bool) {
    cmd == CMD_CONNECT || (cmd == CMD_UDP_ASSOCIATE && udp)
  }

  /** Every well-formed request for a supported command is answered: exactly its bytes are consumed,
      the method reply comes before the request reply, and the address is the client's. */
  lemma RequestAnswered(ver: byte, methods: bytes, ver': byte, cmd: byte, rsv: byte, addr: bytes, extra: bytes,
                        fin: IOErr, udp: bool, listen: bytes)
    requires |methods| <= 255 && WellFormed(addr) && Answered(cmd, udp)
    ensures HandshakeOf(Request(ver, methods, ver', cmd, rsv, addr) + extra, fin, udp, listen)
         == Shaken(Some(addr), if cmd == CMD_CONNECT then None else Some(INFO_UDP_ASSOCIATE), extra,
                   METHOD_REPLY + if cmd == CMD_CONNECT then CONNECT_REPLY else ASSOCIATE_HEAD + listen)
  {
    hide AddrOf, SplitAddr;
    RequestParts(ver, methods, ver', cmd, rsv, addr, extra);
    SplitOfJoined(addr, extra);
    DecodersAgree(addr + extra, fin);
    assert AddrOf(addr + extra, fin).rest == extra by {
      var rest := AddrOf(addr + extra, fin).rest;
      assert rest == (addr + rest)[|addr|..] && extra == (addr + extra)[|addr|..];
    }
  }

  /** A well-formed request for any other command is read to its end, and then refused with nothing
      written but the method reply. */
  lemma RequestRefused(ver: byte, methods: bytes, ver': byte, cmd: byte, rsv: byte, addr: bytes, extra: bytes,
                       fin: IOErr, udp: bool, listen: bytes)
    requires |methods| <= 255 && WellFormed(addr) && !Answered(cmd, udp)
    ensures HandshakeOf(Request(ver, methods, ver', cmd, rsv, addr) + extra, fin, udp, listen)
         == Shaken(None, Some(ERR_COMMAND_NOT_SUPPORTED), extra, METHOD_REPLY)
  {
    hide AddrOf, SplitAddr;
    RequestParts(ver, methods, ver', cmd, rsv, addr, extra);
    SplitOfJoined(addr, extra);
    DecodersAgree(addr + extra, fin);
    assert AddrOf(addr + extra, fin).rest == extra by {
      var rest := AddrOf(addr + extra, fin).rest;
      assert rest == (addr + rest)[|addr|..] && extra == (addr + extra)[|addr|..];
    }
  }

  lemma RequestParts(ver: byte, methods: bytes, ver': byte, cmd: byte, rsv: byte, addr: bytes, extra: bytes)
    requires |methods| <= 255
    ensures var b := Request(ver, methods, ver', cmd, rsv, addr) + extra;
            && |b| >= 2 + |methods| + 3 && b[1] as nat == |methods|
            && b[2 + |methods|..][1] == cmd && b[2 + |methods|..][3..] == addr + extra
  {
    var b := Request(ver, methods, ver', cmd, rsv, addr) + extra;
    var request := [ver', cmd, rsv] + (addr + extra);
    assert b == ([ver, |methods| as byte] + methods) + request;
    assert b[2 + |methods|..] == request && request[3..] == addr + extra;
  }

  /** Conversely, an address comes out of nothing but such a request, and then it is well formed. */
  lemma OnlyRequestsAnswered(b: bytes, fin: IOErr, udp: bool, listen: bytes)
    returns (methods: bytes, cmd: byte, addr: bytes)
    requires HandshakeOf(b, fin, udp, listen).addr.Some?
    ensures |methods| <= 255 && WellFormed(addr) && Answered(cmd, udp)
    ensures var s := HandshakeOf(b, fin, udp, listen);
            && s.addr == Some(addr)
            && exists ver, ver', rsv :: b == Request(ver, methods, ver', cmd, rsv, addr) + s.rest
  {
    hide AddrOf, SplitAddr;
    var n := b[1] as nat;
    methods := b[2..2 + n];
    var request := b[2 + n..];
    cmd := request[1];
    var r := AddrOf(request[3..], fin);
    DecodersAgree(request[3..], fin);
    addr := r.addr;
    SplitIsPrefix(request[3..]);
    assert request == [request[0], cmd, request[2]] + (addr + r.rest);
    assert b == ([b[0], n as byte] + methods) + request;
    assert b == Request(b[0], methods, request[0], cmd, request[2], addr) + r.rest;
  }

  /** A client that stops before the end of its request gets no address out of the server, which is
      told how its bytes end and has answered no more than the greeting. */
  lemma CutRequestFails(ver: byte, methods: bytes, ver': byte, cmd: byte, rsv: byte, addr: bytes, b: bytes,
                        fin: IOErr, udp: bool, listen: bytes)
    requires |methods| <= 255 && WellFormed(addr)
    requires b < Request(ver, methods, ver', cmd, rsv, addr)
    ensures var s := HandshakeOf(b, fin, udp, listen);
            && s.addr.None? && (s.err == Some(fin) || (fin == EOF && s.err == Some(UnexpectedEOF)))
            && s.written == (if |b| < 2 + |methods| then [] else METHOD_REPLY)
            && (fin == EOF ==> (s.err == Some(EOF) <==> BetweenReads(2 + |methods|, addr[0], |b|)))
  {
    hide AddrOf;
    var whole := Request(ver, methods, ver', cmd, rsv, addr);
    RequestParts(ver, methods, ver', cmd, rsv, addr, []);
    assert whole + [] == whole && addr + [] == addr;
    var n := 2 + |methods|;
    if |b| >= n + 3 {
      var part := b[n..][3..];
      assert part == addr[..|part|] && |part| < |addr|;
      CutAddress(addr, part, fin);
      assert b[1] == whole[1];
      assert part != [] ==> part[0] == addr[0];
    } else if |b| >= 2 {
      assert b[1] == whole[1];
    }
  }

  lemma CutAddress(addr: bytes, part: bytes, fin: IOErr)
    requires WellFormed(addr) && part < addr
    ensures var err := AddrOf(part, fin).err;
            && (err == Some(fin) || (fin == EOF && err == Some(UnexpectedEOF)))
            && (fin == EOF ==> (err == Some(EOF) <==> |part| <= 1 || (|part| == 2 && addr[0] == 3)))
  {
  }

  /** Where a client can stop so that the server has read all of what it wanted so far: before anything,
      behind the number of methods, the greeting, the command, the address type or the length of a name. */
  predicate BetweenReads(greeting: nat, atyp: byte, n: nat) {
    || n == 0 || n == 2 || n == greeting || n == greeting + 3 || n == greeting + 4
    || (atyp == 3 && n == greeting + 5)
  }

  /** A request with an unknown address type is refused once that byte is read. */
  lemma UnknownAddressType(ver: byte, methods: bytes, ver': byte, cmd: byte, rsv: byte, atyp: byte, extra: bytes,
                           fin: IOErr, udp: bool, listen: bytes)
    requires |methods| <= 255 && atyp !in {1, 3, 4}
    ensures HandshakeOf(Request(ver, methods, ver', cmd, rsv, [atyp]) + extra, fin, udp, listen)
         == Shaken(None, Some(IOErr.Socks(8)), extra, METHOD_REPLY)
  {
    RequestParts(ver, methods, ver', cmd, rsv, [atyp], extra);
    assert ([atyp] + extra)[1..] == extra;
  }

  // ---------------------------------------------------------------- the client's view

  /** What a client reads of the two replies, by sections 3 and 6 of RFC 1928: the server's choice of no
      authentication, success, and the address it is bound to. */
  function ClientReads(written: bytes): Option<bytes> {
    if |written| >= 5 && written[..2] == [5, 0] && written[2] == 5 && written[3] == 0 then SplitAddr(written[5..])
    else None
  }

  /** The commands of section 4 of RFC 1928 that are supported, and how their replies read: a CONNECT is
      bound to nothing in particular, and a UDP ASSOCIATE to where the server listens. */
  lemma ClientUnderstands(ver: byte, methods: bytes, ver': byte, cmd: byte, rsv: byte, addr: bytes, extra: bytes,
                          fin: IOErr, udp: bool, listen: bytes)
    requires |methods| <= 255 && WellFormed(addr) && WellFormed(listen)
    ensures var s := HandshakeOf(Request(ver, methods, ver', cmd, rsv, addr) + extra, fin, udp, listen);
            && s.written[..2] == [5, 0]
            && (if cmd == 1 then
                  s.addr == Some(addr) && s.err == None && ClientReads(s.written) == Some([1, 0, 0, 0, 0, 0, 0])
                else if cmd == 3 && udp then
                  s.addr == Some(addr) && s.err == Some(IOErr.Socks(9)) && ClientReads(s.written) == Some(listen)
                else s.addr == None && s.err == Some(IOErr.Socks(7)) && s.written == [5, 0])
  {
    hide HandshakeOf, Request;
    if Answered(cmd, udp) {
      RequestAnswered(ver, methods, ver', cmd, rsv, addr, extra, fin, udp, listen);
    } else {
      RequestRefused(ver, methods, ver', cmd, rsv, addr, extra, fin, udp, listen);
    }
    assert (METHOD_REPLY + CONNECT_REPLY)[5..] == [1, 0, 0, 0, 0, 0, 0];
    assert CONNECT_REPLY[3..][..7] == [1, 0, 0, 0, 0, 0, 0];
    assert (METHOD_REPLY + (ASSOCIATE_HEAD + listen))[5..] == listen;
  }

  /** The server's handshake over one buffer, which the address overwrites after the command was saved. */
  method Handshake(src: Source, to: Sink, udp: bool, listen: bytes) returns (addr: Option<bytes>, err: Option<IOErr>)
    modifies src, to
    ensures to.failures == old(to.failures) ==>
              var s := HandshakeOf(old(src.Rest()), src.fin, udp, listen);
              addr == s.addr && err == s.err && src.Rest() == s.rest && to.out == old(to.out) + s.written
    ensures to.failures != old(to.failures) ==>
              var s := HandshakeOf(old(src.Rest()), src.fin, udp, listen);
              && old(to.out) <= to.out <= old(to.out) + s.written
              && (err == Some(WriteFailed)
                  || (err == Some(ERR_COMMAND_NOT_SUPPORTED) && s.err == Some(INFO_UDP_ASSOCIATE)))
  {
    hide Concat, AddrOf, Greeted;
    ghost var all, out0 := src.Rest(), to.out;
    assert out0 + [] == out0;
    var buf := new byte[MAX_ADDR_LEN](_ => 0);
    err := ReadFull(src, buf, 0, 2);
    if err.Some? {
      return None, err;
    }
    assert buf[0..2] == all[..2] && buf[1] == all[1];
    var nmethods := buf[1] as nat;
    err := ReadFull(src, buf, 0, nmethods);
    if err.Some? {
      return None, err;
    }
    ghost var request := all[2 + nmethods..];
    assert src.Rest() == request;
    var n, ok := to.Write(METHOD_REPLY);
    GreetedWrites(out0, request, src.fin, udp, listen);
    if !ok {
      assert METHOD_REPLY[..n] <= METHOD_REPLY;
      return None, Some(WriteFailed);
    }
    assert METHOD_REPLY[..n] == METHOD_REPLY;
    addr, err := HandshakeRequest(src, to, buf, udp, listen);
  }

  lemma GreetedWrites(out: bytes, b: bytes, fin: IOErr, udp: bool, listen: bytes)
    ensures var s := Greeted(b, fin, udp, listen);
            |METHOD_REPLY| <= |s.written|
            && out + METHOD_REPLY <= out + s.written
            && (out + METHOD_REPLY) + s.written[|METHOD_REPLY|..] == out + s.written
  {
    hide AddrOf;
    var s := Greeted(b, fin, udp, listen);
    assert s.written == METHOD_REPLY + s.written[|METHOD_REPLY|..];
    AppendAssociates(out, METHOD_REPLY, s.written[|METHOD_REPLY|..]);
  }

  method HandshakeRequest(src: Source, to: Sink, buf: array<byte>, udp: bool, listen: bytes)
    returns (addr: Option<bytes>, err: Option<IOErr>)
    requires buf.Length == MAX_ADDR_LEN
    modifies src, to, buf
    ensures to.failures == old(to.failures) ==>
              var s := Greeted(old(src.Rest()), src.fin, udp, listen);
              && addr == s.addr && err == s.err && src.Rest() == s.rest
              && to.out == old(to.out) + s.written[|METHOD_REPLY|..]
    ensures to.failures != old(to.failures) ==>
              var s := Greeted(old(src.Rest()), src.fin, udp, listen);
              && old(to.out) <= to.out <= old(to.out) + s.written[|METHOD_REPLY|..]
              && (err == Some(WriteFailed)
                  || (err == Some(ERR_COMMAND_NOT_SUPPORTED) && s.err == Some(INFO_UDP_ASSOCIATE)))
  {
    hide Concat, AddrOf;
    ghost var all, out0 := src.Rest(), to.out;
    assert METHOD_REPLY[|METHOD_REPLY|..] == [] && out0 + [] == out0;
    assert (METHOD_REPLY + CONNECT_REPLY)[|METHOD_REPLY|..] == CONNECT_REPLY;
    ghost var associate := ASSOCIATE_HEAD + listen;
    assert (METHOD_REPLY + associate)[|METHOD_REPLY|..] == associate;
    err := ReadFull(src, buf, 0, 3);
    if err.Some? {
      return None, err;
    }
    assert buf[0..3] == all[..3] && src.Rest() == all[3..];
    var cmd := buf[1];
    assert cmd == all[1];
    var n;
    n, err := ReadAddr(src, buf);
    if err.Some? {
      return None, err;
    }
    var nw, ok;
    if cmd == CMD_CONNECT {
      nw, ok := to.Write(CONNECT_REPLY);
      assert nw == |CONNECT_REPLY| ==> CONNECT_REPLY[..nw] == CONNECT_REPLY;
      return Some(buf[..n]), if ok then None else Some(WriteFailed);
    } else if cmd == CMD_UDP_ASSOCIATE {
      if !udp {
        return None, Some(ERR_COMMAND_NOT_SUPPORTED);
      }
      nw, ok := to.Write(ASSOCIATE_HEAD + listen);
      if !ok {
        return None, Some(ERR_COMMAND_NOT_SUPPORTED);
      }
      assert associate[..nw] == associate;
      return Some(buf[..n]), Some(INFO_UDP_ASSOCIATE);
    } else {
      return None, Some(ERR_COMMAND_NOT_SUPPORTED);
    }
  }
}
