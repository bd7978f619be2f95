/** The AEAD writer and reader over shared buffers, and the connection that starts them lazily. */
module AeadStream {
  import opened Bytes
  import opened Aead
  import opened Io
  import opened Records
  import opened Chunking
  import Reading

  /** AEAD.Seal with dst[:0] over its own plaintext: `len` bytes at `off` become `len` + overhead bytes. */
  method SealInPlace(a: AEAD, nonce: array<byte>, buf: array<byte>, off: nat, len: nat)
    requires a.Lawful() && nonce.Length == a.nonceSize && off + len + a.overhead <= buf.Length && nonce != buf
    modifies buf
    ensures buf[off..off + len + a.overhead] == a.Seal(nonce[..], old(buf[off..off + len]))
    ensures forall i | 0 <= i < off || off + len + a.overhead <= i < buf.Length :: buf[i] == old(buf[i])
  {
    ghost var n := nonce[..];
    var sealed := a.Seal(nonce[..], buf[off..off + len]);
    a.SealLaw(n, buf[off..off + len]);
    forall i | 0 <= i < |sealed| { buf[off + i] := sealed[i]; }
    assert nonce[..] == n;
    assert buf[off..off + len + a.overhead] == sealed;
  }

  /** AEAD.Open with dst[:0] over its own ciphertext, the first `len` bytes. */
  method OpenInPlace(a: AEAD, nonce: array<byte>, buf: array<byte>, len: nat) returns (ok: bool)
    requires a.Lawful() && nonce.Length == a.nonceSize && len <= buf.Length && nonce != buf
    modifies buf
    ensures var plain := a.Open(nonce[..], old(buf[..len]));
            && ok == plain.Some?
            && (ok ==> |plain.value| + a.overhead == len && buf[..|plain.value|] == plain.value)
  {
    ghost var n := nonce[..];
    var plain := a.Open(nonce[..], buf[..len]);
    ok := plain.Some?;
    if ok {
      a.OpenLaw(n, buf[..len]);
      forall i | 0 <= i < |plain.value| { buf[i] := plain.value[i]; }
      assert buf[..|plain.value|] == plain.value;
    }
    assert nonce[..] == n;
  }

  /** Length and payload, sealed one after the other by the operations c and c + 1. */
  method SealRecord(p: Params, nonce: array<byte>, buf: array<byte>, nr: nat, ghost c: nat)
    requires p.Ok() && nonce.Length == p.aead.nonceSize && nonce != buf && nonce[..] == p.At(c)
    requires p.HeadLen() + nr + p.aead.overhead <= buf.Length
    modifies nonce, buf
    ensures var chunk := old(buf[p.HeadLen()..p.HeadLen() + nr]);
            buf[..p.HeadLen() + nr + p.aead.overhead] == Record(p, c, chunk)
    ensures nonce[..] == p.At(c + 2)
  {
    hide Params.At, Bump, IsMask, AEAD.Lawful;
    var h := p.HeadLen();
    ghost var chunk := buf[h..h + nr];
    buf[0], buf[1] := (nr / 256 % 256) as byte, (nr % 256) as byte;
    assert buf[0..2] == Header(nr);
    SealInPlace(p.aead, nonce, buf, 0, 2);
    ghost var head := buf[..h];
    assert buf[h..h + nr] == chunk;
    Increment(nonce);
    AtNext(p, c);
    SealInPlace(p.aead, nonce, buf, h, nr);
    ghost var end := h + nr + p.aead.overhead;
    assert buf[..h] == head && buf[..end] == buf[..h] + buf[h..end];
    Increment(nonce);
    AtNext(p, c + 1);
  }

  class Writer {
    const p: Params
    const sink: Sink
    const nonce: array<byte>
    const buf: array<byte>
    ghost var sent: seq<bytes>  // the chunks sealed so far

    ghost predicate Valid()
      reads this, nonce
    {
      && p.Ok() && Fit(p, sent) && nonce != buf
      && nonce.Length == p.aead.nonceSize && nonce[..] == p.At(2 * |sent|)
      && buf.Length == 2 + p.aead.overhead + p.mask + p.aead.overhead
    }

    constructor (sink: Sink, p: Params)
      requires p.Ok()
      ensures Valid() && sent == [] && this.p == p && this.sink == sink && fresh(nonce) && fresh(buf)
    {
      this.p, this.sink, this.sent := p, sink, [];
      var n := new byte[p.aead.nonceSize](_ => 0);
      nonce := n;
      buf := new byte[2 + p.aead.overhead + p.mask + p.aead.overhead](_ => 0);
      new;
      assert nonce[..] == Zeros(p.aead.nonceSize);
    }

    /** The payload is in place; its length is stored and both are sealed, bumping the nonce twice. */
    method SealChunk(nr: nat)
      requires Valid() && nr <= p.mask
      modifies this`sent, nonce, buf
      ensures Valid()
      ensures var chunk := old(buf[p.HeadLen()..p.HeadLen() + nr]);
              && sent == old(sent) + [chunk] && |chunk| == nr
              && p.RecordLen(chunk) == 2 + p.aead.overhead + nr + p.aead.overhead
              && buf[..p.RecordLen(chunk)] == Record(p, 2 * |old(sent)|, chunk)
    {
      hide Params.At, IsMask, AEAD.Lawful, Record;
      ghost var chunk := buf[p.HeadLen()..p.HeadLen() + nr];
      SealRecord(p, nonce, buf, nr, 2 * |sent|);
      sent := sent + [chunk];
    }

    /** One record goes out, or part of it if the write fails. */
    method EmitChunk(nr: nat) returns (ok: bool)
      requires Valid() && nr <= p.mask
      modifies this`sent, nonce, buf, sink
      ensures Valid()
      ensures var chunk := old(buf[p.HeadLen()..p.HeadLen() + nr]);
              var whole := old(sink.out) + Record(p, 2 * |old(sent)|, chunk);
              && sent == old(sent) + [chunk] && |chunk| == nr
              && (if ok then sink.out == whole else old(sink.out) <= sink.out <= whole)
      ensures ok <==> sink.failures == old(sink.failures)
    {
      hide Params.Ok, Record, Params.At;
      ghost var c, chunk := 2 * |sent|, buf[p.HeadLen()..p.HeadLen() + nr];
      SealChunk(nr);
      var record := buf[..2 + p.aead.overhead + nr + p.aead.overhead];
      assert record == Record(p, c, chunk);
      var nw;
      nw, ok := sink.Write(record);
      assert record[..nw] <= record;
    }

    /** Chunks are read, sealed and written until the source ends or a write fails. When no write
        fails, the wire carries one record for every non-empty read; when one fails, everything
        before that record is out and nothing after it was sealed. */
    method ReadFrom(src: Source) returns (n: nat, err: Option<IOErr>)
      requires Valid()
      modifies this`sent, nonce, buf, sink, src
      ensures Valid() && old(sent) <= sent
      ensures var added, all := sent[|old(sent)|..], Chunks(old(src.frags), p.mask);
              var i := |old(sent)|;
              && n == |Concat(added)|
              && if sink.failures == old(sink.failures) then
                   && added == all && src.frags == []
                   && sink.out == old(sink.out) + Wire(p, i, all)
                   && err == (if src.fin == EOF then None else Some(src.fin))
                 else
                   && added <= all && added != [] && err == Some(WriteFailed)
                   && old(sink.out) + Wire(p, i, added[..|added| - 1]) <= sink.out <= old(sink.out) + Wire(p, i, added)
    {
      hide Params.Ok, Record, Wire, Chunks, Concat, Fetch;
      MaskPositive(p);
      ghost var base, out0, all := sent, sink.out, Chunks(src.frags, p.mask);
      ghost var done: seq<bytes> := [];
      ghost var failures0 := sink.failures;
      n, err := 0, None;
      NothingYet(p, |base|, out0);
      var er: Option<IOErr> := None;
      while er.None?
        invariant Valid() && sent == base + done
        invariant all == done + Chunks(src.frags, p.mask)
        invariant n == |Concat(done)|
        invariant sink.failures == failures0 && sink.out == out0 + Wire(p, |base|, done)
        invariant er == None || (er == Some(src.fin) && src.frags == [])
        invariant er.None? ==> err.None?
        decreases er.None?, Weight(src.frags)
      {
        ghost var frags := src.frags;
        var h := p.HeadLen();
        var nr;
        nr, er := src.Read(buf, h, h + p.mask);
        NextChunk(frags, p.mask);
        if nr > 0 {
          n := n + nr;
          ghost var chunk := buf[h..h + nr];
          var ok := EmitChunk(nr);
          Extend(p, |base|, out0, done, chunk);
          done := done + [chunk];
          if !ok {
            Partly(base, done, all, Chunks(src.frags, p.mask), sent);
            err := Some(WriteFailed);
            return;
          }
        }
      }
      NoChunks(p.mask);
      Partly(base, done, all, [], sent);
      err := if src.fin == EOF then None else er;
    }

    /** A slice is sent through a bytes.Buffer, so in ceil(n / mask) records. */
    method Write(b: bytes) returns (n: nat, err: Option<IOErr>)
      requires Valid()
      modifies this`sent, nonce, buf, sink
      ensures Valid() && old(sent) <= sent
      ensures var added, all := sent[|old(sent)|..], Chunks(Buffered(b), p.mask);
              var i := |old(sent)|;
              if sink.failures == old(sink.failures) then
                added == all && n == |b| && err == None && sink.out == old(sink.out) + Wire(p, i, all)
              else
                && added <= all && added != [] && n == |Concat(added)| && err == Some(WriteFailed)
                && old(sink.out) + Wire(p, i, added[..|added| - 1]) <= sink.out <= old(sink.out) + Wire(p, i, added)
    {
      hide Params.Ok, Record, Wire, Chunks, Concat, Fetch;
      MaskPositive(p);
      var src := new Source(Buffered(b), EOF, false);
      n, err := ReadFrom(src);
      BufferedChunks(b, p.mask);
    }
  }

  class Reader {
    const p: Params
    const src: Source
    const nonce: array<byte>
    const buf: array<byte>
    var lo: nat  // buf[lo..hi] is the leftover slice
    var hi: nat
    ghost var c: nat  // operations done

    ghost predicate Valid()
      reads this, nonce
    {
      && p.Ok() && nonce != buf
      && nonce.Length == p.aead.nonceSize && nonce[..] == p.At(c)
      && buf.Length == p.mask + p.aead.overhead && lo <= hi <= buf.Length
    }

    function Leftover(): bytes
      requires lo <= hi <= buf.Length
      reads this, buf
    {
      buf[lo..hi]
    }

    ghost function State(): Reading.State
      requires Valid()
      reads this, nonce, buf, src
    {
      Reading.State(c, src.Rest(), Leftover())
    }

    constructor (src: Source, p: Params)
      requires p.Ok()
      ensures Valid() && State() == Reading.State(0, src.Rest(), [])
      ensures this.p == p && this.src == src && fresh(nonce) && fresh(buf)
    {
      this.p, this.src, this.c, this.lo, this.hi := p, src, 0, 0, 0;
      nonce := new byte[p.aead.nonceSize](_ => 0);
      buf := new byte[p.mask + p.aead.overhead](_ => 0);
      new;
      assert nonce[..] == Zeros(p.aead.nonceSize);
    }

    /** ReadFull into the start of the buffer, then open in place and bump the nonce. */
    method OpenNext(len: nat) returns (err: Option<IOErr>)
      requires Valid() && len <= buf.Length && lo == hi
      modifies this`c, nonce, buf, src
      ensures Valid() && lo == hi
      ensures var wire := old(src.Rest());
              if |wire| < len then
                err == Some(Short(|wire|, src.fin)) && src.Rest() == [] && c == old(c)
              else
                var plain := p.aead.Open(p.At(old(c)), wire[..len]);
                && src.Rest() == wire[len..] && c == old(c) + 1
                && err == (if plain.Some? then None else Some(AuthFailed))
                && (plain.Some? ==> |plain.value| + p.aead.overhead == len && buf[..|plain.value|] == plain.value)
    {
      hide Params.At, IsMask, AEAD.Lawful;
      ghost var wire := src.Rest();
      err := ReadFull(src, buf, 0, len);
      if err.Some? {
        return;
      }
      assert wire[..len] == buf[..len] && wire[len..] == src.Rest();
      var ok := OpenInPlace(p.aead, nonce, buf, len);
      Increment(nonce);
      AtNext(p, c);
      c := c + 1;
      err := if ok then None else Some(AuthFailed);
    }

    /** One record is read into the buffer; this happens only when nothing is left over in it. */
    method ReadNext() returns (n: nat, err: Option<IOErr>)
      requires Valid() && lo == hi
      modifies this`c, nonce, buf, src
      ensures Valid() && lo == hi
      ensures var s := ReadRecord(p, src.fin, old(c), old(src.Rest()));
              && err == s.err && c == s.c && src.Rest() == s.rest
              && n == |s.payload| <= p.mask && buf[..n] == s.payload
              && (err.Some? ==> n == 0)
    {
      hide Params.At, MaskedLength, IsMask, AEAD.Lawful;
      MaskPositive(p);
      err := OpenNext(2 + p.aead.overhead);
      if err.Some? {
        return 0, err;
      }
      var size := MaskedLength(buf[..2], p.mask);
      err := OpenNext(size + p.aead.overhead);
      n := if err.None? then size else 0;
    }

    /** Decrypted bytes that did not fit before. */
    method ReadLeftover(b: array<byte>) returns (n: nat)
      requires Valid() && lo < hi && b != buf && b != nonce
      modifies this`lo, b
      ensures Valid() && hi == old(hi)
      ensures n == Reading.Min(b.Length, |old(Leftover())|)
      ensures Leftover() == old(Leftover())[n..] && b[..] == old(Leftover())[..n] + old(b[n..])
    {
      hide Params.Ok, Params.At;
      ghost var left, b0 := Leftover(), b[..];
      n := Reading.Min(b.Length, hi - lo);
      CopyOut(b, buf, lo, n);
      assert left == buf[lo..hi] && left[..n] == buf[lo..lo + n];
      assert b[..] == left[..n] + b0[n..];
      lo := lo + n;
    }

    /** Leftover bytes first; otherwise the next record, of which what does not fit is left over. */
    method Read(b: array<byte>) returns (n: nat, err: Option<IOErr>)
      requires Valid() && b != buf && b != nonce
      modifies this`c, this`lo, this`hi, nonce, buf, src, b
      ensures Valid()
      ensures var o := Reading.ReadCall(p, src.fin, old(State()), b.Length);
              && State() == o.state && err == o.err
              && n == |o.data| && b[..] == o.data + old(b[n..])
    {
      hide Params.Ok, Params.At, ReadRecord;
      if lo < hi {
        n := ReadLeftover(b);
        return n, None;
      }
      assert Leftover() == [];
      FailedIsEmpty(p, src.fin, c, src.Rest());
      n, err := ReadFresh(b);
    }

    /** The next record when nothing is left over. */
    method ReadFresh(b: array<byte>) returns (n: nat, err: Option<IOErr>)
      requires Valid() && lo == hi && b != buf && b != nonce
      modifies this`c, this`lo, this`hi, nonce, buf, src, b
      ensures Valid()
      ensures var s := ReadRecord(p, src.fin, old(c), old(src.Rest()));
              && err == s.err && c == s.c && src.Rest() == s.rest
              && n == Reading.Min(b.Length, |s.payload|)
              && b[..] == s.payload[..n] + old(b[n..]) && Leftover() == s.payload[n..]
    {
      hide Params.Ok, Params.At, ReadRecord;
      ghost var b0 := b[..];
      var got;
      got, err := ReadNext();
      n := Reading.Min(b.Length, got);
      ghost var payload := buf[..got];
      CopyOut(b, buf, 0, n);
      assert payload == buf[..got] && payload[..n] == buf[0..n];
      assert b[..] == payload[..n] + b0[n..];
      if n < got {
        lo, hi := n, got;
      }
      assert payload[n..] == Leftover();
    }

    /** Everything decrypted goes to the sink. If no write fails, all that was available is out and a
        clean end is no error; if one fails, what it did not take of the leftover stays there, and what
        it did not take of a record is lost. */
    method WriteTo(sink: Sink) returns (n: nat, err: Option<IOErr>, ghost lost: bytes)
      requires Valid()
      modifies this`c, this`lo, this`hi, nonce, buf, src, sink
      ensures Valid()
      ensures |sink.out| == |old(sink.out)| + n && old(sink.out) <= sink.out
      ensures var o := Reading.WriteToCall(p, src.fin, old(State()));
              if sink.failures == old(sink.failures) then
                sink.out == old(sink.out) + o.data && State() == o.state && err == o.err && lost == []
              else
                && err == Some(WriteFailed) && |lost| <= p.mask
                && Reading.CutShort(p, src.fin, old(State()), old(sink.out), State(), sink.out, lost)
    {
      hide Params.Ok, Params.At, ReadRecord, DecodeAll, Concat, Reading.LostAt;
      ghost var left, out0 := Leftover(), sink.out;
      ghost var payloads := DecodeAll(p, src.fin, c, src.Rest()).payloads;
      var ok;
      n, ok := WriteLeftover(sink);
      if !ok {
        return n, Some(WriteFailed), [];
      }
      AppendAssociates(out0, left, Concat(payloads));
      n, err, lost := WriteRecords(sink, n);
      assert Leftover() == [];
    }

    method WriteLeftover(sink: Sink) returns (n: nat, ok: bool)
      requires Valid()
      modifies this`lo, sink
      ensures Valid() && hi == old(hi)
      ensures |sink.out| == |old(sink.out)| + n && old(sink.out) <= sink.out
      ensures sink.out + Leftover() == old(sink.out) + old(Leftover())
      ensures ok <==> sink.failures == old(sink.failures)
      ensures ok ==> lo == hi && sink.out == old(sink.out) + old(Leftover())
    {
      hide Params.Ok, Params.At;
      ghost var out0, left0, failures0 := sink.out, Leftover(), sink.failures;
      n, ok := 0, true;
      while lo < hi
        invariant Valid() && ok
        invariant sink.failures == failures0 && |sink.out| == |out0| + n
        invariant out0 <= sink.out && sink.out + Leftover() == out0 + left0
        decreases hi - lo
      {
        ghost var out, left := sink.out, Leftover();
        var nw;
        nw, ok := sink.Write(buf[lo..hi]);
        Handed(out, left, nw);
        lo, n := lo + nw, n + nw;
        assert Leftover() == left[nw..];
        if !ok {
          return;
        }
      }
      assert Leftover() == [];
    }

    method WriteRecords(sink: Sink, n0: nat) returns (n: nat, err: Option<IOErr>, ghost lost: bytes)
      requires Valid() && lo == hi
      modifies this`c, nonce, buf, src, sink
      ensures Valid() && lo == hi
      ensures |sink.out| - |old(sink.out)| == n - n0 && old(sink.out) <= sink.out
      ensures var d := DecodeAll(p, src.fin, old(c), old(src.Rest()));
              if sink.failures == old(sink.failures) then
                && sink.out == old(sink.out) + Concat(d.payloads) && c == d.c && src.Rest() == d.rest
                && err == (if d.err == EOF then None else Some(d.err)) && lost == []
              else
                && err == Some(WriteFailed) && |lost| <= p.mask
                && exists k: nat ::
                     Reading.LostAt(d.payloads, k, DecodeAll(p, src.fin, c, src.Rest()).payloads,
                                    old(sink.out), sink.out, lost)
    {
      hide Params.Ok, Params.At, ReadRecord, DecodeAll, Concat, Reading.LostAt;
      ghost var all, out0, failures0 := DecodeAll(p, src.fin, c, src.Rest()), sink.out, sink.failures;
      ghost var done: seq<bytes> := [];
      n, err, lost := n0, None, [];
      PrependNothing(all);
      assert out0 + Concat([]) == out0 by { NothingYet(p, 0, out0); }
      var er: Option<IOErr> := None;
      while er.None?
        invariant Valid() && lo == hi
        invariant sink.failures == failures0 && sink.out == out0 + Concat(done) && n == n0 + |Concat(done)|
        invariant er.None? ==> all == Prepend(done, DecodeAll(p, src.fin, c, src.Rest()))
        invariant er.Some? ==> all == Decoded(done, er.value, src.Rest(), c)
        decreases er.None?, |src.Rest()|
      {
        ghost var c1, wire := c, src.Rest();
        var nr;
        nr, er := ReadNext();
        DecodeNext(p, src.fin, c1, wire, done);
        if nr > 0 {
          ghost var chunk := buf[..nr];
          var nw, ok := sink.Write(buf[..nr]);
          n := n + nw;
          ConcatMore(out0, done, chunk);
          if !ok {
            lost := chunk[nw..];
            TailLost(out0, done, chunk, nw, DecodeAll(p, src.fin, c, src.Rest()).payloads);
            assert Reading.LostAt(all.payloads, |done|, DecodeAll(p, src.fin, c, src.Rest()).payloads,
                                  out0, sink.out, lost);
            return n, Some(WriteFailed), lost;
          }
          done := done + [chunk];
        } else if er.None? {
          ConcatMore(out0, done, []);
          done := done + [[]];
        }
      }
      err := if er == Some(EOF) then None else er;
    }
  }

  lemma Handed(out: bytes, left: bytes, nw: nat)
    requires nw <= |left|
    ensures (out + left[..nw]) + left[nw..] == out + left
    ensures nw == |left| ==> left[..nw] == left && left[nw..] == []
  {
    AppendAssociates(out, left[..nw], left[nw..]);
    assert left[..nw] + left[nw..] == left;
  }

  lemma TailLost(out: bytes, done: seq<bytes>, chunk: bytes, nw: nat, later: seq<bytes>)
    requires nw <= |chunk|
    ensures Reading.LostAt(done + [chunk] + later, |done|, later, out, (out + Concat(done)) + chunk[..nw], chunk[nw..])
  {
    hide Concat;
    Middle(done, chunk, later);
    assert |chunk| - |chunk[nw..]| == nw;
  }

  lemma Middle(done: seq<bytes>, chunk: bytes, later: seq<bytes>)
    ensures var all := done + [chunk] + later;
            all[..|done|] == done && all[|done|] == chunk && all[|done| + 1..] == later
  {
  }

  lemma FailedIsEmpty(p: Params, fin: IOErr, c: nat, wire: bytes)
    ensures ReadRecord(p, fin, c, wire).err.Some? ==> ReadRecord(p, fin, c, wire).payload == []
  {
  }

  lemma PrependNothing(d: Decoded)
    ensures Prepend([], d) == d
  {
    assert [] + d.payloads == d.payloads;
  }

  lemma DecodeNext(p: Params, fin: IOErr, c: nat, wire: bytes, done: seq<bytes>)
    ensures var s := ReadRecord(p, fin, c, wire);
            && (s.err.None? ==> |s.rest| < |wire|)
            && (s.err.Some? ==> s.payload == [])
            && Prepend(done, DecodeAll(p, fin, c, wire))
               == match s.err
                  case Some(e) => Decoded(done, e, s.rest, s.c)
                  case None => Prepend(done + [s.payload], DecodeAll(p, fin, s.c, s.rest))
  {
    var s := ReadRecord(p, fin, c, wire);
    if s.err.None? {
      ReadRecordShrinks(p, fin, c, wire);
      PrependTwice(done, [s.payload], DecodeAll(p, fin, s.c, s.rest));
    } else {
      assert done + [] == done;
    }
  }

  lemma ConcatMore(out: bytes, done: seq<bytes>, chunk: bytes)
    ensures out + Concat(done + [chunk]) == (out + Concat(done)) + chunk
    ensures |Concat(done + [chunk])| == |Concat(done)| + |chunk|
  {
    ConcatAppend(done, [chunk]);
    ConcatOne(chunk);
  }

  /** Go's copy between two arrays. */
  method CopyOut(dst: array<byte>, src: array<byte>, lo: nat, n: nat)
    requires dst != src && n <= dst.Length && lo + n <= src.Length
    modifies dst
    ensures dst[..] == src[lo..lo + n] + old(dst[n..])
  {
    forall i | 0 <= i < n { dst[i] := src[lo + i]; }
  }

  lemma MaskPositive(p: Params)
    requires p.Ok()
    ensures p.mask >= 2
  {
  }

  lemma Partly(base: seq<bytes>, done: seq<bytes>, all: seq<bytes>, later: seq<bytes>, sent: seq<bytes>)
    requires sent == base + done && all == done + later
    ensures sent[|base|..] == done <= all && (later == [] ==> done == all)
  {
  }

  lemma NoChunks(m: nat)
    requires m > 0
    ensures Chunks([], m) == []
  {
  }

  lemma NextChunk(frags: seq<bytes>, m: nat)
    requires m > 0
    ensures var f := Fetch(frags, m);
            Chunks(frags, m) == (if f.data == [] then [] else [f.data]) + Chunks(f.frags, m)
  {
  }

  lemma Extend(p: Params, i: nat, out: bytes, done: seq<bytes>, chunk: bytes)
    ensures out + Wire(p, i, done + [chunk]) == (out + Wire(p, i, done)) + Record(p, 2 * (i + |done|), chunk)
    ensures Concat(done + [chunk]) == Concat(done) + chunk
  {
    hide Record, Wire, Concat;
    WireAppend(p, i, done, [chunk]);
    WireOne(p, i + |done|, chunk);
    ConcatAppend(done, [chunk]);
    ConcatOne(chunk);
  }

  lemma NothingYet(p: Params, i: nat, out: bytes)
    ensures out == out + Wire(p, i, []) && Concat([]) == []
  {
  }
}
