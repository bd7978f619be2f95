/** A TCP tunnel end to end: the client sends the target address and then the payload, the server
    reads the address through the decrypting connection and then copies the rest. */
module Tunnel {
  import opened Bytes
  import opened Aead
  import opened Io
  import opened Records
  import opened Chunking
  import opened Socks
  import opened Reading
  import AeadConn

  // ---------------------------------------------------------------- the server's address

  datatype Target = Target(state: State, addr: bytes, err: Option<IOErr>)

  function Collected(front: bytes, o: Outcome): Target {
    Target(o.state, front + o.data, o.err)
  }

  /** readAddr over the decrypting reader: the address type, for a name its length, then the rest. */
  function ReadTarget(p: Params, fin: IOErr, s: State): Target {
    var o := Fill(p, fin, s, 1);
    if o.err.Some? || |o.data| != 1 then Collected([], o)
    else if o.data[0] == ATYP_DOMAIN then
      var l := Fill(p, fin, o.state, 1);
      if l.err.Some? || |l.data| != 1 then Collected(o.data, l)
      else Collected(o.data + l.data, Fill(p, fin, l.state, l.data[0] as nat + 2))
    else if o.data[0] == ATYP_IPV4 then Collected(o.data, Fill(p, fin, o.state, 4 + 2))
    else if o.data[0] == ATYP_IPV6 then Collected(o.data, Fill(p, fin, o.state, 16 + 2))
    else Target(o.state, [], Some(ERR_ADDRESS_NOT_SUPPORTED))
  }

  lemma FillThen(p: Params, fin: IOErr, s: State, b: bytes, at: nat, want: nat)
    requires at <= |b| && Available(p, fin, s) == b[at..]
    ensures var t, r := Collected(b[..at], Fill(p, fin, s, want)), Await(b, at, want, Ending(p, fin, s));
            && t.err == r.err
            && (t.err.None? ==> t.addr == r.addr && Available(p, fin, t.state) == r.rest
                                && Ending(p, fin, t.state) == Ending(p, fin, s))
  {
    hide Fill, Available, Ending;
    FillTakes(p, fin, s, want);
    if want <= |b| - at {
      assert b[at..][..want] == b[at..at + want] && b[at..][want..] == b[at + want..];
      assert b[..at] + b[at..at + want] == b[..at + want];
    }
  }

  /** Reading the address through the decrypting reader does with the plaintext what reading it from a
      plain source does that ends as the stream ends: it takes exactly the address, the rest staying
      available, or fails with the same error. */
  lemma TargetIsAddr(p: Params, fin: IOErr, s: State)
    ensures var t, r := ReadTarget(p, fin, s), AddrOf(Available(p, fin, s), Ending(p, fin, s));
            && t.err == r.err
            && (t.err.None? ==> t.addr == r.addr && Available(p, fin, t.state) == r.rest
                                && Ending(p, fin, t.state) == Ending(p, fin, s))
  {
    hide Fill, Available, Ending;
    var b := Available(p, fin, s);
    FillTakes(p, fin, s, 1);
    if |b| >= 1 {
      var o := Fill(p, fin, s, 1);
      assert o.data == b[..1] == [b[0]];
      if b[0] == ATYP_DOMAIN {
        FillTakes(p, fin, o.state, 1);
        if |b| >= 2 {
          var l := Fill(p, fin, o.state, 1);
          SecondByte(b, l.data);
          hide Await;
          FillThen(p, fin, l.state, b, 2, b[1] as nat + 2);
        }
      } else if b[0] == ATYP_IPV4 {
        hide Await;
        FillThen(p, fin, o.state, b, 1, 4 + 2);
      } else if b[0] == ATYP_IPV6 {
        hide Await;
        FillThen(p, fin, o.state, b, 1, 16 + 2);
      }
    }
  }

  lemma SecondByte(b: bytes, l: bytes)
    requires |b| >= 2 && l == b[1..][..1]
    ensures l == [b[1]] && b[..1] + l == b[..2] && b[1..][1..] == b[2..]
  {
  }

  // ---------------------------------------------------------------- end to end

  /** What the server does with a stream: the target it reads, what it then copies to it, and the error
      it is told of. */
  datatype Served = Served(target: Option<bytes>, copied: bytes, err: Option<IOErr>)

  function Serve(cipher: Cipher, mask: nat, fin: IOErr, wire: bytes): Served {
    var b := AeadConn.Begin(cipher, mask, fin, wire);
    if b.err.Some? || b.receiver.Fresh? then Served(None, [], b.err)
    else
      var t := ReadTarget(b.receiver.p, fin, b.receiver.s);
      if t.err.Some? then Served(None, [], t.err)
      else
        var o := WriteToCall(b.receiver.p, fin, t.state);
        Served(Some(t.addr), o.data, o.err)
  }

  lemma ServeStarted(cipher: Cipher, p: Params, fin: IOErr, salt: bytes, wire: bytes)
    requires |salt| == cipher.saltSize && cipher.Session(salt) == Some(p.aead)
    ensures var s := State(0, wire, []);
            var end := Ending(p, fin, s);
            var r := AddrOf(Available(p, fin, s), end);
            Serve(cipher, p.mask, fin, salt + wire)
            == if r.err.Some? then Served(None, [], r.err)
               else Served(Some(r.addr), r.rest, if end == EOF then None else Some(end))
  {
    hide ReadTarget, DecodeAll, AddrOf;
    assert (salt + wire)[..|salt|] == salt && (salt + wire)[|salt|..] == wire;
    TargetIsAddr(p, fin, State(0, wire, []));
  }

  /** The chunks of a client that writes the target first and then copies its source. */
  function ClientChunks(target: bytes, frags: seq<bytes>, mask: nat): seq<bytes>
    requires mask > 0
  {
    Chunks(Buffered(target), mask) + Chunks(frags, mask)
  }

  lemma ClientChunksCarry(target: bytes, frags: seq<bytes>, p: Params)
    requires p.Ok()
    ensures p.mask > 0 && Fit(p, ClientChunks(target, frags, p.mask))
    ensures Concat(ClientChunks(target, frags, p.mask)) == target + Concat(frags)
  {
    hide Chunks, Concat;
    BufferedChunks(target, p.mask);
    ChunksKeep(frags, p.mask);
    ConcatAppend(Chunks(Buffered(target), p.mask), Chunks(frags, p.mask));
  }

  /** However the client's source is cut and whatever the target, the server reads exactly the target
      and copies exactly the payload. */
  lemma TunnelCarries(cipher: Cipher, p: Params, salt: bytes, target: bytes, frags: seq<bytes>)
    requires |salt| == cipher.saltSize && cipher.Session(salt) == Some(p.aead)
    requires p.Ok() && WellFormed(target)
    ensures p.mask > 0
    ensures var wire := Wire(p, 0, ClientChunks(target, frags, p.mask));
            Serve(cipher, p.mask, EOF, salt + wire) == Served(Some(target), Concat(frags), None)
  {
    hide Serve, Wire, SplitAddr, AddrOf, Concat, Chunks;
    ClientChunksCarry(target, frags, p);
    var chunks := ClientChunks(target, frags, p.mask);
    WireDecodes(p, 0, chunks);
    ServeStarted(cipher, p, EOF, salt, Wire(p, 0, chunks));
    var all := target + Concat(frags);
    assert Available(p, EOF, State(0, Wire(p, 0, chunks), [])) == all;
    SplitOfJoined(target, Concat(frags));
    DecodersAgree(all, EOF);
    SameTail(target, AddrOf(all, EOF).rest, Concat(frags));
  }

  lemma SameTail(a: bytes, b: bytes, c: bytes)
    requires a + b == a + c
    ensures b == c
  {
    assert b == (a + b)[|a|..] && c == (a + c)[|a|..];
  }

  /** A client's stream that was cut: the server is told of it, unless the cut falls behind whole records
      or a whole sealed header, and so is the caller that waits for the target if it is not all there. */
  lemma TunnelCut(cipher: Cipher, p: Params, salt: bytes, target: bytes, frags: seq<bytes>, k: nat, extra: nat)
    requires |salt| == cipher.saltSize && cipher.Session(salt) == Some(p.aead)
    requires p.Ok() && WellFormed(target) && p.mask > 0
    requires var chunks := ClientChunks(target, frags, p.mask);
             k <= |chunks| && if k == |chunks| then extra == 0 else extra < p.RecordLen(chunks[k])
    ensures var chunks := ClientChunks(target, frags, p.mask);
            var cut, got := |Wire(p, 0, chunks[..k])| + extra, Concat(chunks[..k]);
            && cut <= |Wire(p, 0, chunks)|
            && var s := Serve(cipher, p.mask, EOF, salt + Wire(p, 0, chunks)[..cut]);
            if target <= got then
              && s.target == Some(target) && s.copied == got[|target|..]
              && s.err == (if extra == 0 || extra == 2 + p.aead.overhead then None else Some(UnexpectedEOF))
            else s.target == None && s.copied == [] && s.err.Some?
  {
    hide Serve, SplitAddr, AddrOf, Concat, Chunks, DecodeAll, Wire, Params.Ok;
    var chunks := ClientChunks(target, frags, p.mask);
    ClientChunksCarry(target, frags, p);
    CutStream(p, EOF, chunks, k, extra);
    var cut, got := |Wire(p, 0, chunks[..k])| + extra, Concat(chunks[..k]);
    var wire := Wire(p, 0, chunks)[..cut];
    var end := CutError(p, EOF, extra);
    ServeStarted(cipher, p, EOF, salt, wire);
    assert Available(p, EOF, State(0, wire, [])) == got;
    ConcatPrefix(chunks[..k], chunks);
    DecodersAgree(got, end);
    if target <= got {
      var rest := got[|target|..];
      assert got == target + rest;
      SplitOfJoined(target, rest);
      SameTail(target, AddrOf(got, end).rest, rest);
    } else if SplitAddr(got).Some? {
      SplitIsPrefix(got);
      var a := SplitAddr(got).value;
      var more := Concat(chunks)[|got|..];
      assert Concat(chunks) == got + more && got == a + got[|a|..];
      AppendAssociates(a, got[|a|..], more);
      SplitOfJoined(a, got[|a|..] + more);
      SplitOfJoined(target, Concat(frags));
    }
  }

  /** Whatever is done to the records on the way, if the server connects anywhere it is to the client's
      target, and what it copies there is a prefix of the client's payload. */
  lemma TunnelIsAuthentic(cipher: Cipher, p: Params, fin: IOErr, salt: bytes, target: bytes, frags: seq<bytes>,
                          wire: bytes)
    requires |salt| == cipher.saltSize && cipher.Session(salt) == Some(p.aead)
    requires p.Ok() && WellFormed(target) && p.mask > 0
    requires NoWrap(p, ClientChunks(target, frags, p.mask))
    requires Unforged(p, ClientChunks(target, frags, p.mask), Opened(p, 0, wire))
    ensures var s := Serve(cipher, p.mask, fin, salt + wire);
            s.target.Some? ==> s.target == Some(target) && s.copied <= Concat(frags)
  {
    hide Serve, SplitAddr, AddrOf, Concat, Chunks, Opened, Genuine, DecodeAll;
    var chunks := ClientChunks(target, frags, p.mask);
    ClientChunksCarry(target, frags, p);
    ServeStarted(cipher, p, fin, salt, wire);
    DecodedIsPrefix(p, fin, chunks, 0, wire);
    assert chunks[0..] == chunks;
    ConcatPrefix(DecodeAll(p, fin, 0, wire).payloads, chunks);
    var all, sent := Available(p, fin, State(0, wire, [])), target + Concat(frags);
    assert all <= sent by {
      assert all == Concat(DecodeAll(p, fin, 0, wire).payloads);
    }
    var end := Ending(p, fin, State(0, wire, []));
    var r := AddrOf(all, end);
    DecodersAgree(all, end);
    if r.err.None? {
      SplitIsPrefix(all);
      var a := r.addr;
      assert sent == all + sent[|all|..];
      AppendAssociates(a, r.rest, sent[|all|..]);
      SplitOfJoined(a, r.rest + sent[|all|..]);
      SplitOfJoined(target, Concat(frags));
      assert a == target;
      SameTail(target, r.rest + sent[|all|..], Concat(frags));
    }
  }
}
