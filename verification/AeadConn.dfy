/** The AEAD stream connection: each direction starts with a salt, sent or read at the first use. */
module AeadConn {
  import opened Bytes
  import opened Aead
  import opened Io
  import opened Records
  import opened Chunking
  import opened AeadStream
  import Reading

  /** The receiving side: the salt is still to be read, or a session is running. */
  datatype Receiver = Fresh(rest: bytes) | Started(p: Params, s: Reading.State)

  datatype Begun = Begun(receiver: Receiver, err: Option<IOErr>)

  /** The salt is read and the session derived from it; a short salt is lost. */
  function Begin(cipher: Cipher, mask: nat, fin: IOErr, rest: bytes): Begun {
    if |rest| < cipher.saltSize then Begun(Fresh([]), Some(Short(|rest|, fin)))
    else
      var salt, later := rest[..cipher.saltSize], rest[cipher.saltSize..];
      match cipher.Session(salt)
      case None => Begun(Fresh(later), Some(CipherFailed))
      case Some(a) => Begun(Started(Params(a, mask), Reading.State(0, later, [])), None)
  }

  function Ready(cipher: Cipher, mask: nat, fin: IOErr, r: Receiver): Begun {
    if r.Fresh? then Begin(cipher, mask, fin, r.rest) else Begun(r, None)
  }

  /** What a receiver delivers through a sequence of calls, up to the first error. */
  function Deliver(cipher: Cipher, mask: nat, fin: IOErr, r: Receiver, calls: seq<Reading.Call>): bytes {
    var b := Ready(cipher, mask, fin, r);
    if b.err.Some? || b.receiver.Fresh? then []
    else Reading.Run(b.receiver.p, fin, b.receiver.s, calls).1
  }

  /** What a sender with this salt puts on the wire for the chunks it was given. */
  function Stream(p: Params, salt: bytes, chunks: seq<bytes>): bytes {
    salt + Wire(p, 0, chunks)
  }

  /** What arrives of an undisturbed connection is delivered completely by every mix of calls
      that ends with WriteTo. */
  lemma ConnDelivers(cipher: Cipher, p: Params, salt: bytes, chunks: seq<bytes>, calls: seq<Reading.Call>)
    requires |salt| == cipher.saltSize && cipher.Session(salt) == Some(p.aead)
    requires p.Ok() && Fit(p, chunks)
    requires forall i | 0 <= i < |calls| :: calls[i].Read?
    ensures Deliver(cipher, p.mask, EOF, Fresh(Stream(p, salt, chunks)), calls + [Reading.WriteTo]) == Concat(chunks)
  {
    hide Reading.Run, Wire, Params.Ok;
    var wire := Wire(p, 0, chunks);
    assert (salt + wire)[..|salt|] == salt && (salt + wire)[|salt|..] == wire;
    Reading.HonestRunDeliversAll(p, chunks, calls + [Reading.WriteTo]);
    Reading.RunEnds(p, EOF, Reading.State(0, wire, []), calls);
  }

  /** A stream that was tampered with delivers no more than a prefix of what the sender was given. */
  lemma ConnDeliversPrefix(cipher: Cipher, p: Params, fin: IOErr, salt: bytes, chunks: seq<bytes>, wire: bytes,
                           calls: seq<Reading.Call>)
    requires |salt| == cipher.saltSize && cipher.Session(salt) == Some(p.aead)
    requires p.Ok() && Fit(p, chunks) && NoWrap(p, chunks) && Unforged(p, chunks, Opened(p, 0, wire))
    ensures Deliver(cipher, p.mask, fin, Fresh(salt + wire), calls) <= Concat(chunks)
  {
    hide Reading.Run, Wire, Params.Ok, Opened;
    assert (salt + wire)[..|salt|] == salt && (salt + wire)[|salt|..] == wire;
    Reading.DeliveredIsPrefix(p, fin, chunks, wire, calls);
  }

  /** A connection that was cut: inside the salt the first call reports it, the end of file if nothing
      came at all; behind it the session runs over what came of the records, and WriteTo returns
      without an error exactly at a record boundary or behind a whole sealed header. */
  lemma ConnCut(cipher: Cipher, p: Params, salt: bytes, chunks: seq<bytes>, cut: nat)
    requires |salt| == cipher.saltSize && cipher.Session(salt) == Some(p.aead)
    requires p.Ok() && Fit(p, chunks) && cut <= |Stream(p, salt, chunks)|
    ensures var b := Begin(cipher, p.mask, EOF, Stream(p, salt, chunks)[..cut]);
            if cut < |salt| then b == Begun(Fresh([]), Some(if cut == 0 then EOF else UnexpectedEOF))
            else
              var s := Reading.State(0, Wire(p, 0, chunks)[..cut - |salt|], []);
              && b == Begun(Started(p, s), None)
              && Reading.WriteToCall(p, EOF, s).err
                 == if Reading.CleanCut(p, chunks, cut - |salt|) then None else Some(UnexpectedEOF)
  {
    hide Wire, Params.Ok, Fit, Reading.WriteToCall, Reading.CleanCut;
    var wire := Wire(p, 0, chunks);
    if cut >= |salt| {
      var came := (salt + wire)[..cut];
      assert came[..|salt|] == salt && came[|salt|..] == wire[..cut - |salt|];
      Reading.WriteToEnds(p, chunks, cut - |salt|);
    }
  }

  /** No session comes of a salt that the cipher has none for: the first call reports that. */
  lemma NoSession(cipher: Cipher, mask: nat, fin: IOErr, rest: bytes)
    requires |rest| >= cipher.saltSize && cipher.Session(rest[..cipher.saltSize]).None?
    ensures Begin(cipher, mask, fin, rest) == Begun(Fresh(rest[cipher.saltSize..]), Some(CipherFailed))
  {
  }

  /** The sending side: why no writer can be had, or the session, what goes out before the next record,
      and the number of that record. */
  datatype Sender = NoSender(err: IOErr) | Sender(p: Params, head: bytes, i: nat)

  /** What a connection has sent: its salt, all it put on its sink, all the plaintext it was given; `broken`
      once a write failed. */
  datatype Sendings = Sendings(salt: bytes, put: bytes, given: bytes, broken: bool)

  /** `put` was put on the sink for `given` without a failure. */
  ghost predicate Logged(before: Sendings, after: Sendings, put: bytes, given: bytes) {
    after.put == before.put + put && after.given == before.given + given && after.broken == before.broken
  }

  lemma LoggedNothing(log: Sendings, out: bytes)
    ensures Logged(log, log, out[|out|..], [])
  {
    assert out[|out|..] == [] && log.put + [] == log.put && log.given + [] == log.given;
  }

  lemma LoggedTwice(log0: Sendings, log1: Sendings, log2: Sendings, out: bytes, head: bytes, now: bytes, given: bytes)
    requires out + head <= now
    requires Logged(log0, log1, head, []) && Logged(log1, log2, now[|out + head|..], given)
    ensures Logged(log0, log2, now[|out|..], given)
  {
    var more := now[|out + head|..];
    assert now == (out + head) + more && now[|out|..] == head + more;
    AppendAssociates(log0.put, head, more);
    assert log0.given + [] == log0.given;
  }

  lemma SessionOk(cipher: Cipher, mask: nat, salt: bytes, a: AEAD)
    requires cipher.Lawful() && IsMask(mask) && mask >= 2
    requires |salt| == cipher.saltSize && cipher.Session(salt) == Some(a)
    ensures Params(a, mask).Ok()
  {
  }

  lemma NoChunksYet(p: Params, salt: bytes)
    ensures salt == salt + Wire(p, 0, []) && Concat([]) == [] && [] + salt == salt
  {
  }

  lemma MoreSent(p: Params, salt: bytes, sent: seq<bytes>, chunks: seq<bytes>)
    ensures (salt + Wire(p, 0, sent)) + Wire(p, |sent|, chunks) == salt + Wire(p, 0, sent + chunks)
    ensures Concat(sent) + Concat(chunks) == Concat(sent + chunks)
  {
    hide Wire, Concat;
    WireAppend(p, 0, sent, chunks);
    AppendAssociates(salt, Wire(p, 0, sent), Wire(p, |sent|, chunks));
    ConcatAppend(sent, chunks);
  }

  lemma NothingDelivered(cipher: Cipher, mask: nat)
    ensures Deliver(cipher, mask, EOF, Fresh([]), [Reading.WriteTo]) == []
  {
    hide Params.At;
  }

  class StreamConn {
    const src: Source
    const sink: Sink
    const cipher: Cipher
    const mask: nat
    var r: Reader?
    var w: Writer?
    ghost var log: Sendings
    ghost var Repr: set<object>

    /** Unless a write has failed, the salt and the records of all that was given are out. */
    ghost predicate InStep()
      reads this, w
    {
      log.broken ||
      if w == null then log.put == log.given == []
      else
        && |log.salt| == cipher.saltSize && cipher.Session(log.salt) == Some(w.p.aead)
        && log.put == log.salt + Wire(w.p, 0, w.sent) && log.given == Concat(w.sent)
    }

    ghost predicate Valid()
      reads this, Repr
    {
      && this in Repr && src !in Repr && sink !in Repr
      && cipher.Lawful() && IsMask(mask) && mask >= 2
      && (r != null ==> r in Repr && r.nonce in Repr && r.buf in Repr
                        && r.src == src && r.p.mask == mask && r.Valid())
      && (w != null ==> w in Repr && w.nonce in Repr && w.buf in Repr
                        && w.sink == sink && w.p.mask == mask && w.Valid())
      && (r != null && w != null ==> {r.nonce, r.buf} !! {w.nonce, w.buf})
    }

    /** A receiver at the other end gets all of the plaintext out of what was put on the wire. */
    lemma InStepArrives()
      requires Valid() && InStep()
      ensures !log.broken ==> Deliver(cipher, mask, EOF, Fresh(log.put), [Reading.WriteTo]) == log.given
    {
      hide Params.At, IsMask, AEAD.Lawful, Wire, Concat, Reading.Run;
      if w == null {
        NothingDelivered(cipher, mask);
      } else if !log.broken {
        ConnDelivers(cipher, w.p, log.salt, w.sent, []);
        assert [] + [Reading.WriteTo] == [Reading.WriteTo];
      }
    }

    ghost function Receiving(): Receiver
      requires Valid()
      reads this, Repr, src
    {
      if r == null then Fresh(src.Rest()) else Started(r.p, r.State())
    }

    /** `random` is what the random generator gives: a salt, or nothing when it fails. */
    ghost function Sending(random: Option<bytes>): Sender
      reads this, w
    {
      if w != null then Sender(w.p, [], |w.sent|)
      else
        match random
        case None => NoSender(Other(0))
        case Some(salt) =>
          match cipher.Session(salt)
          case None => NoSender(CipherFailed)
          case Some(a) => Sender(Params(a, mask), salt, 0)
    }

    ghost function Sent(): seq<bytes>
      reads this, w
    {
      if w == null then [] else w.sent
    }

    constructor (src: Source, sink: Sink, cipher: Cipher, mask: nat)
      requires cipher.Lawful() && IsMask(mask) && mask >= 2
      ensures Valid() && InStep() && fresh(Repr) && r == null && w == null && log == Sendings([], [], [], false)
      ensures this.src == src && this.sink == sink && this.cipher == cipher && this.mask == mask
    {
      this.src, this.sink, this.cipher, this.mask := src, sink, cipher, mask;
      r, w, log, Repr := null, null, Sendings([], [], [], false), {this};
    }

    method InitReader() returns (err: Option<IOErr>)
      requires Valid() && r == null
      modifies this, src
      ensures Valid() && fresh(Repr - old(Repr)) && old(Repr) <= Repr && w == old(w) && log == old(log)
      ensures Sent() == old(Sent()) && InStep() == old(InStep())
      ensures Begun(Receiving(), err) == Begin(cipher, mask, src.fin, old(src.Rest()))
      ensures r == null <==> err.Some?
    {
      hide IsMask, Cipher.Lawful, AEAD.Lawful, Params.At, Params.Ok, Wire, Concat, Skip;
      var salt;
      salt, err := ReadBytes(src, cipher.saltSize);
      if err.Some? {
        return;
      }
      match cipher.Session(salt)
      case None => err := Some(CipherFailed);
      case Some(a) =>
        SessionOk(cipher, mask, salt, a);
        r := new Reader(src, Params(a, mask));
        Repr := Repr + {r, r.nonce, r.buf};
    }

    method Read(b: array<byte>) returns (n: nat, err: Option<IOErr>)
      requires Valid() && b !in Repr
      modifies Repr, src, b
      ensures Valid() && fresh(Repr - old(Repr)) && w == old(w) && log == old(log)
      ensures Sent() == old(Sent()) && InStep() == old(InStep())
      ensures var begun := Ready(cipher, mask, src.fin, old(Receiving()));
              if begun.err.Some? then
                Receiving() == begun.receiver && err == begun.err && n == 0 && b[..] == old(b[..])
              else
                var o := Reading.ReadCall(begun.receiver.p, src.fin, begun.receiver.s, b.Length);
                && Receiving() == Started(begun.receiver.p, o.state) && err == o.err
                && n == |o.data| && b[..] == o.data + old(b[n..])
    {
      hide IsMask, AEAD.Lawful, Params.At, Reading.ReadCall;
      if r == null {
        err := InitReader();
        if err.Some? {
          return 0, err;
        }
      }
      n, err := r.Read(b);
    }

    method WriteTo(to: Sink) returns (n: nat, err: Option<IOErr>, ghost lost: bytes)
      requires Valid() && to !in Repr && to != sink
      modifies Repr, src, to
      ensures Valid() && fresh(Repr - old(Repr)) && w == old(w) && log == old(log)
      ensures Sent() == old(Sent()) && InStep() == old(InStep())
      ensures var begun := Ready(cipher, mask, src.fin, old(Receiving()));
              if begun.err.Some? then
                Receiving() == begun.receiver && err == begun.err && to.out == old(to.out) && n == 0
              else if to.failures == old(to.failures) then
                var o := Reading.WriteToCall(begun.receiver.p, src.fin, begun.receiver.s);
                && Receiving() == Started(begun.receiver.p, o.state) && err == o.err
                && to.out == old(to.out) + o.data && n == |o.data|
              else
                && Receiving().Started? && Receiving().p == begun.receiver.p && err == Some(WriteFailed)
                && Reading.CutShort(begun.receiver.p, src.fin, begun.receiver.s, old(to.out),
                                    Receiving().s, to.out, lost)
    {
      hide IsMask, AEAD.Lawful, Params.At, Reading.WriteToCall, Reading.CutShort;
      if r == null {
        err := InitReader();
        if err.Some? {
          return 0, err, [];
        }
      }
      n, err, lost := r.WriteTo(to);
    }

    /** The salt is out, and the session that it gives begins. */
    method Attach(a: AEAD, salt: bytes)
      requires Valid() && InStep() && w == null
      requires |salt| == cipher.saltSize && cipher.Session(salt) == Some(a)
      modifies this
      ensures Valid() && InStep() && fresh(Repr - old(Repr)) && old(Repr) <= Repr && r == old(r)
      ensures w != null && w.p == Params(a, mask) && w.sent == []
      ensures log == old(log).(salt := salt, put := old(log).put + salt)
    {
      hide IsMask, Cipher.Lawful, AEAD.Lawful, Params.At, Params.Ok, Wire, Concat;
      SessionOk(cipher, mask, salt, a);
      w := new Writer(sink, Params(a, mask));
      NoChunksYet(w.p, salt);
      log := log.(salt := salt, put := log.put + salt);
      Repr := Repr + {w, w.nonce, w.buf};
    }

    /** A writer exists exactly if the salt is out and the session derived from it. */
    method InitWriter(random: Option<bytes>) returns (err: Option<IOErr>)
      requires Valid() && InStep() && w == null
      requires random.Some? ==> |random.value| == cipher.saltSize
      modifies this, sink
      ensures Valid() && InStep() && fresh(Repr - old(Repr)) && old(Repr) <= Repr && r == old(r)
      ensures match old(Sending(random))
              case NoSender(e) =>
                && err == Some(e) && w == null && sink.out == old(sink.out)
                && sink.failures == old(sink.failures) && log == old(log)
              case Sender(p, head, _) =>
                if sink.failures == old(sink.failures) then
                  && err == None && w != null && w.p == p && w.sent == [] && sink.out == old(sink.out) + head
                  && log == old(log).(salt := random.value, put := old(log).put + head)
                else
                  && err == Some(WriteFailed) && w == null && old(sink.out) <= sink.out <= old(sink.out) + head
                  && log == old(log).(broken := true)
    {
      hide IsMask, Cipher.Lawful, AEAD.Lawful, Params.At, Params.Ok, Wire, Concat;
      if random.None? {
        return Some(Other(0));
      }
      match cipher.Session(random.value)
      case None => err := Some(CipherFailed);
      case Some(a) =>
        var n, ok := sink.Write(random.value);
        if !ok {
          log := log.(broken := true);
          return Some(WriteFailed);
        }
        assert random.value[..n] == random.value;
        Attach(a, random.value);
        err := None;
    }

    /** The first step of Write and of ReadFrom. */
    method Prepare(random: Option<bytes>) returns (err: Option<IOErr>)
      requires Valid() && InStep()
      requires random.Some? ==> |random.value| == cipher.saltSize
      modifies this, sink
      ensures Valid() && InStep() && fresh(Repr - old(Repr)) && old(Repr) <= Repr
      ensures r == old(r) && (old(w) != null ==> w == old(w))
      ensures match old(Sending(random))
              case NoSender(e) =>
                && err == Some(e) && w == null && sink.out == old(sink.out)
                && sink.failures == old(sink.failures) && log == old(log)
              case Sender(p, head, i) =>
                if sink.failures == old(sink.failures) then
                  && err == None && w != null && w.p == p && w.sent == old(Sent()) && |w.sent| == i
                  && sink.out == old(sink.out) + head && Logged(old(log), log, head, [])
                else
                  && err == Some(WriteFailed) && old(sink.out) <= sink.out <= old(sink.out) + head
                  && log.broken
    {
      hide IsMask, AEAD.Lawful, Params.At, Params.Ok, Wire, Concat;
      assert sink.out + [] == sink.out && log.put + [] == log.put && log.given + [] == log.given;
      err := None;
      if w == null {
        err := InitWriter(random);
      }
    }

    /** A source over the writer that is there. */
    method Forward(from: Source) returns (n: nat, err: Option<IOErr>)
      requires Valid() && InStep() && w != null && from !in Repr && from != src
      modifies Repr, sink, from
      ensures Valid() && InStep() && Repr == old(Repr) && r == old(r) && w == old(w)
      ensures old(sink.out) <= sink.out
      ensures if sink.failures != old(sink.failures) then log.broken
              else Logged(old(log), log, sink.out[|old(sink.out)|..], old(from.Rest()))
      ensures var chunks, i := Chunks(old(from.frags), mask), |old(w.sent)|;
              if sink.failures == old(sink.failures) then
                && w.sent == old(w.sent) + chunks && sink.out == old(sink.out) + Wire(w.p, i, chunks)
                && n == |old(from.Rest())| && err == (if from.fin == EOF then None else Some(from.fin))
              else old(sink.out) <= sink.out <= old(sink.out) + Wire(w.p, i, chunks) && err == Some(WriteFailed)
    {
      hide IsMask, AEAD.Lawful, Params.At, Params.Ok, Wire, Chunks, Concat;
      ghost var out, sent, chunks := sink.out, w.sent, Chunks(from.frags, mask);
      ghost var failures := sink.failures;
      ChunksKeep(from.frags, mask);
      n, err := w.ReadFrom(from);
      WentOut(w.p, |sent|, w.sent[|sent|..], chunks, out, sink.out);
      assert w.sent == sent + w.sent[|sent|..];
      if sink.failures != failures {
        log := log.(broken := true);
      } else {
        log := log.(put := log.put + Wire(w.p, |sent|, chunks), given := log.given + Concat(chunks));
        MoreSent(w.p, log.salt, sent, chunks);
      }
    }

    /** Write sends the salt first if nothing was sent before, and then the records of `b`; if a write
        fails, a prefix of that is out. */
    method Write(b: bytes, random: Option<bytes>) returns (n: nat, err: Option<IOErr>)
      requires Valid() && InStep()
      requires random.Some? ==> |random.value| == cipher.saltSize
      modifies Repr, sink
      ensures Valid() && InStep() && fresh(Repr - old(Repr)) && r == old(r) && (old(w) != null ==> w == old(w))
      ensures !log.broken ==> Deliver(cipher, mask, EOF, Fresh(log.put), [Reading.WriteTo]) == log.given
      ensures old(sink.out) <= sink.out
      ensures if sink.failures != old(sink.failures) then log.broken
              else
                && log.broken == old(log).broken && log.put == old(log).put + sink.out[|old(sink.out)|..]
                && log.given == old(log).given + if w == null then [] else b
      ensures match old(Sending(random))
              case NoSender(e) => w == null && n == 0 && err == Some(e) && sink.out == old(sink.out)
              case Sender(p, head, i) =>
                var chunks := Chunks(Buffered(b), mask);
                var wire := head + Wire(p, i, chunks);
                if sink.failures == old(sink.failures) then
                  && w != null && w.p == p && Sent() == old(Sent()) + chunks
                  && n == |b| && err == None && sink.out == old(sink.out) + wire
                else old(sink.out) <= sink.out <= old(sink.out) + wire && err == Some(WriteFailed)
    {
      hide IsMask, AEAD.Lawful, Params.At, Params.Ok, Wire, Chunks, Concat;
      var buffer := new Source(Buffered(b), EOF, false);
      assert buffer.Rest() == b by { BufferedRest(b); }
      n, err := ReadFrom(buffer, random);
    }

    /** ReadFrom copies a whole source the same way. */
    method ReadFrom(from: Source, random: Option<bytes>) returns (n: nat, err: Option<IOErr>)
      requires Valid() && InStep() && from !in Repr && from != src
      requires random.Some? ==> |random.value| == cipher.saltSize
      modifies Repr, sink, from
      ensures Valid() && InStep() && fresh(Repr - old(Repr)) && r == old(r) && (old(w) != null ==> w == old(w))
      ensures !log.broken ==> Deliver(cipher, mask, EOF, Fresh(log.put), [Reading.WriteTo]) == log.given
      ensures old(sink.out) <= sink.out
      ensures if sink.failures != old(sink.failures) then log.broken
              else
                && log.broken == old(log).broken && log.put == old(log).put + sink.out[|old(sink.out)|..]
                && log.given == old(log).given + if w == null then [] else old(from.Rest())
      ensures match old(Sending(random))
              case NoSender(e) =>
                w == null && n == 0 && err == Some(e) && sink.out == old(sink.out) && from.frags == old(from.frags)
              case Sender(p, head, i) =>
                var chunks := Chunks(old(from.frags), mask);
                var wire := head + Wire(p, i, chunks);
                if sink.failures == old(sink.failures) then
                  && w != null && w.p == p && Sent() == old(Sent()) + chunks
                  && n == |old(from.Rest())| && err == (if from.fin == EOF then None else Some(from.fin))
                  && sink.out == old(sink.out) + wire
                else old(sink.out) <= sink.out <= old(sink.out) + wire && err == Some(WriteFailed)
    {
      hide IsMask, AEAD.Lawful, Params.At, Params.Ok, Wire, Chunks, Concat;
      ghost var out0, sender, chunks := sink.out, Sending(random), Chunks(from.frags, mask);
      ghost var log0 := log;
      err := Prepare(random);
      InStepArrives();
      if err.Some? {
        if sender.Sender? {
          FirstPart(out0, sender.head, sink.out, Wire(sender.p, sender.i, chunks));
        }
        LoggedNothing(log, out0);
        return 0, err;
      }
      ghost var log1 := log;
      n, err := Forward(from);
      InStepArrives();
      BothParts(out0, sender.head, sink.out, Wire(sender.p, sender.i, chunks));
      if !log.broken || sink.failures == old(sink.failures) {
        LoggedTwice(log0, log1, log, out0, sender.head, sink.out, old(from.Rest()));
      }
    }
  }

  lemma BufferedRest(b: bytes)
    ensures Concat(Buffered(b)) == b
  {
    ConcatOne(b);
  }

  lemma WirePart(p: Params, i: nat, part: seq<bytes>, all: seq<bytes>)
    requires part <= all
    ensures Wire(p, i, part) <= Wire(p, i, all)
  {
    hide Wire;
    WireAppend(p, i, part, all[|part|..]);
    assert all == part + all[|part|..];
  }

  /** The records of `part` went out, at most. */
  lemma WentOut(p: Params, i: nat, part: seq<bytes>, all: seq<bytes>, out: bytes, now: bytes)
    requires part <= all && out <= now <= out + Wire(p, i, part)
    ensures now <= out + Wire(p, i, all)
  {
    hide Wire;
    WirePart(p, i, part, all);
    var rest := Wire(p, i, all)[|Wire(p, i, part)|..];
    assert Wire(p, i, all) == Wire(p, i, part) + rest;
    FirstPart(out, Wire(p, i, part), now, rest);
  }
}
