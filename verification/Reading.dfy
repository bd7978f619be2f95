/** The decrypting reader as its callers see it: any mix of Read and WriteTo over any bytes. */
module Reading {
  import opened Bytes
  import opened Aead
  import opened Io
  import opened Records

  /** Operations done, bytes still to come from the connection, decrypted bytes not yet delivered. */
  datatype State = State(c: nat, rest: bytes, leftover: bytes)

  datatype Outcome = Outcome(state: State, data: bytes, err: Option<IOErr>)

  function Min(a: nat, b: nat): nat {
    if a < b then a else b
  }

  /** One Read into a buffer of n bytes. */
  function ReadCall(p: Params, fin: IOErr, s: State, n: nat): Outcome {
    if s.leftover != [] then
      var k := Min(n, |s.leftover|);
      Outcome(s.(leftover := s.leftover[k..]), s.leftover[..k], None)
    else
      var r := ReadRecord(p, fin, s.c, s.rest);
      if r.err.Some? then Outcome(State(r.c, r.rest, []), [], r.err)
      else
        var k := Min(n, |r.payload|);
        Outcome(State(r.c, r.rest, r.payload[k..]), r.payload[..k], None)
  }

  /** One WriteTo into a sink that accepts everything; a clean end is not an error. */
  function WriteToCall(p: Params, fin: IOErr, s: State): Outcome {
    var d := DecodeAll(p, fin, s.c, s.rest);
    Outcome(State(d.c, d.rest, []), s.leftover + Concat(d.payloads), if d.err == EOF then None else Some(d.err))
  }

  /** All the plaintext a reader can still deliver. */
  function Available(p: Params, fin: IOErr, s: State): bytes {
    s.leftover + Concat(DecodeAll(p, fin, s.c, s.rest).payloads)
  }

  datatype Call = Read(n: nat) | WriteTo

  /** A caller that makes the given calls but stops at the first error or the end of the stream: what
      is left, what was delivered, and how it ended, if it did, where a WriteTo without an error
      counts as the end of file. */
  function Run(p: Params, fin: IOErr, s: State, calls: seq<Call>): (State, bytes, Option<IOErr>)
    decreases |calls|
  {
    if calls == [] then (s, [], None)
    else
      match calls[0]
      case WriteTo =>
        var o := WriteToCall(p, fin, s);
        (o.state, o.data, if o.err.None? then Some(EOF) else o.err)
      case Read(n) =>
        var o := ReadCall(p, fin, s, n);
        if o.err.Some? then (o.state, o.data, o.err)
        else
          var (s', data, end) := Run(p, fin, o.state, calls[1..]);
          (s', o.data + data, end)
  }

  /** How the stream that a reader is at ends. */
  function Ending(p: Params, fin: IOErr, s: State): IOErr {
    DecodeAll(p, fin, s.c, s.rest).err
  }

  lemma AvailableOpens(p: Params, fin: IOErr, s: State)
    requires s.leftover == []
    ensures var r := ReadRecord(p, fin, s.c, s.rest);
            if r.err.Some? then Available(p, fin, s) == [] && Ending(p, fin, s) == r.err.value
            else
              && Available(p, fin, s) == Available(p, fin, State(r.c, r.rest, r.payload))
              && Ending(p, fin, s) == Ending(p, fin, State(r.c, r.rest, r.payload))
  {
    hide ReadRecord;
    var r := ReadRecord(p, fin, s.c, s.rest);
    if r.err.None? {
      var d := DecodeAll(p, fin, r.c, r.rest);
      assert ([r.payload] + d.payloads)[1..] == d.payloads;
    }
  }

  /** A Read fails exactly at the end of what is available, and then reports how the stream ends;
      else it takes bytes from the front, as many as the buffer holds or all of a record's. */
  lemma ReadConserves(p: Params, fin: IOErr, s: State, n: nat)
    ensures var o := ReadCall(p, fin, s, n);
            if o.err.Some? then o.data == [] && Available(p, fin, s) == [] && o.err == Some(Ending(p, fin, s))
            else
              && Available(p, fin, s) == o.data + Available(p, fin, o.state)
              && Ending(p, fin, s) == Ending(p, fin, o.state)
              && |o.data| <= n && (|o.data| == n || o.state.leftover == [])
  {
    hide ReadRecord, DecodeAll;
    var o := ReadCall(p, fin, s, n);
    if s.leftover != [] {
      assert s.leftover == o.data + o.state.leftover;
    } else {
      AvailableOpens(p, fin, s);
      var r := ReadRecord(p, fin, s.c, s.rest);
      if r.err.None? {
        assert r.payload == o.data + o.state.leftover;
      }
    }
  }

  /** Nothing is lost, repeated or made up by any mix of calls, whatever the wire holds: delivered
      and still available bytes are together what was available; at the end everything is out, and the
      caller is told how the stream ends. */
  lemma {:induction false} RunConserves(p: Params, fin: IOErr, s: State, calls: seq<Call>)
    ensures var (s', data, end) := Run(p, fin, s, calls);
            && Available(p, fin, s) == (if end.Some? then data else data + Available(p, fin, s'))
            && Ending(p, fin, s) == (if end.Some? then end.value else Ending(p, fin, s'))
    decreases |calls|
  {
    hide ReadCall, DecodeAll;
    if calls != [] && calls[0].Read? {
      var o := ReadCall(p, fin, s, calls[0].n);
      ReadConserves(p, fin, s, calls[0].n);
      if o.err.None? {
        RunConserves(p, fin, o.state, calls[1..]);
      }
    }
  }

  /** A caller that reads and finally calls WriteTo always gets to the end. */
  lemma {:induction false} RunEnds(p: Params, fin: IOErr, s: State, calls: seq<Call>)
    requires forall i | 0 <= i < |calls| :: calls[i].Read?
    ensures Run(p, fin, s, calls + [WriteTo]).2.Some?
    decreases |calls|
  {
    hide ReadCall, WriteToCall;
    if calls != [] {
      assert (calls + [WriteTo])[1..] == calls[1..] + [WriteTo];
      RunEnds(p, fin, ReadCall(p, fin, s, calls[0].n).state, calls[1..]);
    }
  }

  lemma {:induction false} ConcatPrefix(a: seq<bytes>, b: seq<bytes>)
    requires a <= b
    ensures Concat(a) <= Concat(b)
  {
    hide Concat;
    ConcatAppend(a, b[|a|..]);
    assert b == a + b[|a|..];
  }

  /** The writer was given `chunks`; the connection delivers any bytes at all. Through any mix of
      calls up to the first error the caller gets a prefix of the writer's plaintext. */
  lemma DeliveredIsPrefix(p: Params, fin: IOErr, chunks: seq<bytes>, wire: bytes, calls: seq<Call>)
    requires p.Ok() && Fit(p, chunks) && NoWrap(p, chunks)
    requires Unforged(p, chunks, Opened(p, 0, wire))
    ensures Run(p, fin, State(0, wire, []), calls).1 <= Concat(chunks)
  {
    hide ReadCall, DecodeAll, Run, Opened, Params.Ok, Genuine, Concat;
    RunConserves(p, fin, State(0, wire, []), calls);
    DecodedIsPrefix(p, fin, chunks, 0, wire);
    assert chunks[0..] == chunks;
    ConcatPrefix(DecodeAll(p, fin, 0, wire).payloads, chunks);
    assert Available(p, fin, State(0, wire, [])) == Concat(DecodeAll(p, fin, 0, wire).payloads);
  }

  /** On an undisturbed stream every mix of calls that reaches the end delivers all of it. */
  lemma HonestRunDeliversAll(p: Params, chunks: seq<bytes>, calls: seq<Call>)
    requires p.Ok() && Fit(p, chunks)
    ensures var (s', data, end) := Run(p, EOF, State(0, Wire(p, 0, chunks), []), calls);
            && Concat(chunks) == (if end.Some? then data else data + Available(p, EOF, s'))
            && (end.Some? ==> end == Some(EOF))
  {
    hide ReadCall, DecodeAll, Run, Params.Ok, Concat, Wire;
    RunConserves(p, EOF, State(0, Wire(p, 0, chunks), []), calls);
    WireDecodes(p, 0, chunks);
  }

  // ---------------------------------------------------------------- how WriteTo ends

  /** A stream that is cut `extra` bytes into its k-th record: WriteTo delivers the records before the
      cut. It reports the source's own error; or else nothing exactly at a record boundary or behind a
      whole sealed header, and an unexpected end of file everywhere else. */
  lemma WriteToCut(p: Params, fin: IOErr, chunks: seq<bytes>, k: nat, extra: nat)
    requires p.Ok() && Fit(p, chunks) && k <= |chunks|
    requires if k == |chunks| then extra == 0 else extra < p.RecordLen(chunks[k])
    ensures var cut := |Wire(p, 0, chunks[..k])| + extra;
            && cut <= |Wire(p, 0, chunks)|
            && var o := WriteToCall(p, fin, State(0, Wire(p, 0, chunks)[..cut], []));
            && o.data == Concat(chunks[..k])
            && o.err == if fin != EOF then Some(fin)
                        else if extra == 0 || extra == 2 + p.aead.overhead then None
                        else Some(UnexpectedEOF)
  {
    hide Wire, DecodeAll, Concat, Params.Ok;
    CutStream(p, fin, chunks, k, extra);
  }

  ghost predicate CleanCut(p: Params, chunks: seq<bytes>, cut: nat) {
    exists k: nat :: k <= |chunks| && CleanAt(p, chunks, k, cut)
  }

  predicate CleanAt(p: Params, chunks: seq<bytes>, k: nat, cut: nat)
    requires k <= |chunks|
  {
    var before := |Wire(p, 0, chunks[..k])|;
    cut == before || (k < |chunks| && cut == before + (2 + p.aead.overhead))
  }

  lemma CleanCutEnds(p: Params, chunks: seq<bytes>, k: nat, cut: nat)
    requires p.Ok() && Fit(p, chunks) && k <= |chunks| && CleanAt(p, chunks, k, cut)
    ensures cut <= |Wire(p, 0, chunks)|
    ensures WriteToCall(p, EOF, State(0, Wire(p, 0, chunks)[..cut], [])).err == None
  {
    assert p.aead.overhead > 0;
    hide Wire, WriteToCall, Params.Ok, Fit;
    WriteToCut(p, EOF, chunks, k, cut - |Wire(p, 0, chunks[..k])|);
  }

  /** Over every cut of an undisturbed stream WriteTo returns without an error exactly if the cut is at
      a record boundary or behind a whole sealed header, and else reports the unexpected end. */
  lemma WriteToEnds(p: Params, chunks: seq<bytes>, cut: nat)
    requires p.Ok() && Fit(p, chunks) && cut <= |Wire(p, 0, chunks)|
    ensures WriteToCall(p, EOF, State(0, Wire(p, 0, chunks)[..cut], [])).err
         == if CleanCut(p, chunks, cut) then None else Some(UnexpectedEOF)
  {
    hide Wire, WriteToCall, Params.Ok, Fit;
    if CleanCut(p, chunks, cut) {
      hide CleanAt;
      var k: nat :| k <= |chunks| && CleanAt(p, chunks, k, cut);
      CleanCutEnds(p, chunks, k, cut);
    } else {
      var k, extra := EveryCut(p, 0, chunks, cut);
      assert !CleanAt(p, chunks, k, cut);
      hide CleanCut;
      WriteToCut(p, EOF, chunks, k, extra);
    }
  }

  /** The next header, or the payload behind a genuine one, is there and does not open. */
  ghost predicate NextForged(p: Params, c: nat, b: bytes) {
    var h := p.HeadLen();
    && |b| >= h
    && match p.aead.Open(p.At(c), b[..h])
       case None => true
       case Some(head) =>
         |head| >= 2
         && var t := MaskedLength(head, p.mask) + p.aead.overhead;
            |b| - h >= t && p.aead.Open(p.At(c + 1), b[h..][..t]).None?
  }

  /** Records, and then something that does not open: every mix of calls that gets to the end has
      delivered exactly the records, and the caller is told of the forgery. */
  lemma ForgeryReported(p: Params, fin: IOErr, chunks: seq<bytes>, forged: bytes, calls: seq<Call>)
    requires p.Ok() && Fit(p, chunks) && NextForged(p, 2 * |chunks|, forged)
    ensures var s := State(0, Wire(p, 0, chunks) + forged, []);
            var o, (s', data, end) := WriteToCall(p, fin, s), Run(p, fin, s, calls);
            && o.data == Concat(chunks) && o.err == Some(AuthFailed)
            && (end.Some? ==> data == Concat(chunks) && end == Some(AuthFailed))
  {
    hide Run, Concat, Wire, Params.Ok, NextForged;
    WireReads(p, fin, 0, chunks, forged);
    ForgedStops(p, fin, 2 * |chunks|, forged);
    assert chunks + [] == chunks;
    RunConserves(p, fin, State(0, Wire(p, 0, chunks) + forged, []), calls);
  }

  lemma ForgedStops(p: Params, fin: IOErr, c: nat, b: bytes)
    requires NextForged(p, c, b)
    ensures DecodeAll(p, fin, c, b).payloads == [] && DecodeAll(p, fin, c, b).err == AuthFailed
  {
  }

  // ---------------------------------------------------------------- a failing sink

  /** The sink failed on the k-th of the payloads and did not take `lost`, the tail of it. */
  ghost predicate LostAt(payloads: seq<bytes>, k: nat, later: seq<bytes>, out0: bytes, out: bytes, lost: bytes) {
    && k < |payloads| && |lost| <= |payloads[k]| && later == payloads[k + 1..]
    && var nw := |payloads[k]| - |lost|;
       out == out0 + Concat(payloads[..k]) + payloads[k][..nw] && lost == payloads[k][nw..]
  }

  /** A WriteTo whose sink failed: on the leftover, which keeps what was not taken, or on a record,
      whose tail is lost. */
  ghost predicate CutShort(p: Params, fin: IOErr, s: State, out0: bytes, s': State, out: bytes, lost: bytes) {
    || (lost == [] && s'.c == s.c && s'.rest == s.rest && out + s'.leftover == out0 + s.leftover)
    || (s'.leftover == [] && exists k: nat ::
          LostAt(DecodeAll(p, fin, s.c, s.rest).payloads, k, DecodeAll(p, fin, s'.c, s'.rest).payloads,
                 out0 + s.leftover, out, lost))
  }

  /** Such a WriteTo loses the tail of one record and nothing else. */
  lemma CutShortConserves(p: Params, fin: IOErr, s: State, out0: bytes, s': State, out: bytes, lost: bytes)
    requires CutShort(p, fin, s, out0, s', out, lost)
    ensures out0 + Available(p, fin, s) == out + lost + Available(p, fin, s')
  {
    hide Concat, DecodeAll, LostAt;
    var all, later := DecodeAll(p, fin, s.c, s.rest).payloads, DecodeAll(p, fin, s'.c, s'.rest).payloads;
    if k: nat :| LostAt(all, k, later, out0 + s.leftover, out, lost) && s'.leftover == [] {
      LostAtConserves(all, k, later, out0 + s.leftover, out, lost);
      AppendAssociates(out0, s.leftover, Concat(all));
      assert [] + Concat(later) == Concat(later);
    } else {
      AppendAssociates(out0, s.leftover, Concat(all));
      AppendAssociates(out, s'.leftover, Concat(later));
      assert out + [] == out;
    }
  }

  lemma LostAtConserves(payloads: seq<bytes>, k: nat, later: seq<bytes>, out0: bytes, out: bytes, lost: bytes)
    requires LostAt(payloads, k, later, out0, out, lost)
    ensures out0 + Concat(payloads) == out + lost + Concat(later)
  {
    hide Concat;
    var front, chunk := Concat(payloads[..k]), payloads[k];
    var nw := |chunk| - |lost|;
    assert payloads == payloads[..k] + ([chunk] + later);
    ConcatAppend(payloads[..k], [chunk] + later);
    ConcatAppend([chunk], later);
    ConcatOne(chunk);
    assert chunk == chunk[..nw] + lost;
    assert out0 + (front + ((chunk[..nw] + lost) + Concat(later)))
        == ((out0 + front) + chunk[..nw]) + lost + Concat(later);
  }

  // ---------------------------------------------------------------- filling a buffer

  /** io.ReadFull over the decrypting reader: Read again and again into what is left of n bytes. */
  function Fill(p: Params, fin: IOErr, s: State, n: nat): Outcome
    decreases |s.rest|, |s.leftover|
  {
    if n == 0 then Outcome(s, [], None)
    else
      var o := ReadCall(p, fin, s, n);
      if o.err.Some? then o
      else
        ReadRecordShrinks(p, fin, s.c, s.rest);
        var o' := Fill(p, fin, o.state, n - |o.data|);
        if o'.err.None? || o.data == [] then o'.(data := o.data + o'.data)
        else Outcome(o'.state, o.data + o'.data, if o'.err == Some(EOF) then Some(UnexpectedEOF) else o'.err)
  }

  lemma ReadDecreases(p: Params, fin: IOErr, s: State, n: nat)
    requires n > 0 && ReadCall(p, fin, s, n).err.None?
    ensures var s' := ReadCall(p, fin, s, n).state;
            |s'.rest| < |s.rest| || (s'.rest == s.rest && |s'.leftover| < |s.leftover|)
    ensures |ReadCall(p, fin, s, n).data| <= n
  {
    hide ReadRecord;
    ReadRecordShrinks(p, fin, s.c, s.rest);
  }

  /** To a caller of io.ReadFull the decrypting reader is a plain source of the plaintext. */
  lemma {:induction false} FillTakes(p: Params, fin: IOErr, s: State, n: nat)
    ensures var o, all := Fill(p, fin, s, n), Available(p, fin, s);
            if n <= |all| then
              && o.err == None && o.data == all[..n]
              && Available(p, fin, o.state) == all[n..] && Ending(p, fin, o.state) == Ending(p, fin, s)
            else o.err == Some(Short(|all|, Ending(p, fin, s))) && o.data == all
    decreases |s.rest|, |s.leftover|
  {
    hide ReadCall, DecodeAll, Available, Ending;
    if n != 0 {
      var o := ReadCall(p, fin, s, n);
      ReadConserves(p, fin, s, n);
      if o.err.None? {
        ReadDecreases(p, fin, s, n);
        FillTakes(p, fin, o.state, n - |o.data|);
        TakeJoined(o.data, Available(p, fin, o.state), n);
      }
    }
  }

  lemma TakeJoined(a: bytes, b: bytes, n: nat)
    requires |a| <= n
    ensures n <= |a + b| ==> (a + b)[..n] == a + b[..n - |a|] && (a + b)[n..] == b[n - |a|..]
  {
  }

  // ---------------------------------------------------------------- after an error

  ghost predicate GoodStream(p: Params, chunks: seq<bytes>, c: nat, wire: bytes) {
    && Fit(p, chunks) && NoWrap(p, chunks)
    && Unforged(p, chunks, OpenedOnce(p, c, wire))
    && ReadRecord(p, EOF, c, wire).err.None?
  }

  ghost predicate ReadsChunk(p: Params, chunks: seq<bytes>, c: nat, wire: bytes, r: nat) {
    r < |chunks| && ReadRecord(p, EOF, c, wire).payload == chunks[r]
  }

  /** Whatever the writer was given and whatever is on the wire, the next record to come out of a
      reader that has done c operations, if any does, is the writer's record r. */
  ghost predicate NextIsRecord(p: Params, c: nat, r: nat) {
    forall chunks, wire :: GoodStream(p, chunks, c, wire) ==> ReadsChunk(p, chunks, c, wire, r)
  }

  lemma SkippingStream(p: Params, q: nat, r: nat) returns (chunks: seq<bytes>, wire: bytes)
    requires p.Ok() && q != r
    requires 2 * q + 2 < Pow256(p.aead.nonceSize) && 2 * r + 2 < Pow256(p.aead.nonceSize)
    ensures GoodStream(p, chunks, 2 * q, wire) && !ReadsChunk(p, chunks, 2 * q, wire, r)
  {
    hide ReadRecord, OpenedOnce, Params.At, Pow256, Record, Genuine;
    chunks := seq((if q < r then r else q) + 1, i => if i == q then [1] else [0]);
    wire := Record(p, 2 * q, [1]);
    assert wire + [] == wire;
    RecordReads(p, EOF, 2 * q, [1], []);
    HonestOpenings(p, 2 * q, [1], []);
    assert chunks[q] == [1];
    SealedIsGenuine(p, chunks, q);
  }

  lemma SlippedStream(p: Params, q: nat, r: nat) returns (chunks: seq<bytes>, wire: bytes)
    requires p.Ok()
    requires 2 * q + 4 < Pow256(p.aead.nonceSize) && 2 * r + 4 < Pow256(p.aead.nonceSize)
    ensures GoodStream(p, chunks, 2 * q + 1, wire) && !ReadsChunk(p, chunks, 2 * q + 1, wire, r)
    ensures q + 1 < |chunks| && chunks[q] == Header(2) && |chunks[q + 1]| == 1
    ensures wire == Record(p, 2 * q + 1, Header(1))
  {
    hide ReadRecord, OpenedOnce, Params.At, Pow256, Record, Genuine;
    chunks := seq((if q < r then r else q) + 2, i => if i == q then Header(2) else [7]);
    wire := Record(p, 2 * q + 1, Header(1));
    assert wire + [] == wire;
    RecordReads(p, EOF, 2 * q + 1, Header(1), []);
    HonestOpenings(p, 2 * q + 1, Header(1), []);
    assert chunks[q] == Header(2) && |chunks[q + 1]| == 1;
    SealedIsGenuine(p, chunks, q);
    SealedIsGenuine(p, chunks, q + 1);
    assert 2 * q + 1 + 1 == 2 * (q + 1);
  }

  /** Only a reader whose operation count is twice the records it has read is in step with the
      writer: at another even count a record is skipped or repeated without anything having been
      forged, at an odd count a sealed length passes for a payload. */
  lemma InStepExact(p: Params, c: nat, r: nat)
    requires p.Ok()
    requires c + 4 < Pow256(p.aead.nonceSize) && 2 * r + 4 < Pow256(p.aead.nonceSize)
    ensures NextIsRecord(p, c, r) <==> c == 2 * r
  {
    hide GoodStream, ReadsChunk, Params.Ok, Pow256;
    if c == 2 * r {
      forall chunks, wire | GoodStream(p, chunks, c, wire)
        ensures ReadsChunk(p, chunks, c, wire, r)
      {
        InStepReads(p, chunks, r, wire);
      }
    } else if c % 2 == 0 {
      var chunks, wire := SkippingStream(p, c / 2, r);
    } else {
      var chunks, wire := SlippedStream(p, c / 2, r);
    }
  }

  lemma InStepReads(p: Params, chunks: seq<bytes>, r: nat, wire: bytes)
    requires p.Ok() && 2 * r < Pow256(p.aead.nonceSize) && GoodStream(p, chunks, 2 * r, wire)
    ensures ReadsChunk(p, chunks, 2 * r, wire, r)
  {
    NextIsInOrder(p, EOF, chunks, r, wire);
  }

  lemma ErrorMoves(p: Params, fin: IOErr, c: nat, wire: bytes)
    requires ReadRecord(p, fin, c, wire).err.Some?
    ensures c <= ReadRecord(p, fin, c, wire).c <= c + 2
    ensures ReadRecord(p, fin, c, wire).c == c <==> |wire| < p.HeadLen()
  {
  }

  /** A read that got a whole sealed header and failed leaves the reader out of step for good. */
  lemma FailedOpeningSlips(p: Params, fin: IOErr, r: nat, wire: bytes)
    requires p.Ok() && 2 * r + 6 < Pow256(p.aead.nonceSize)
    requires ReadRecord(p, fin, 2 * r, wire).err.Some? && |wire| >= p.HeadLen()
    ensures !NextIsRecord(p, ReadRecord(p, fin, 2 * r, wire).c, r)
  {
    hide ReadRecord, NextIsRecord, Pow256, Params.Ok;
    ErrorMoves(p, fin, 2 * r, wire);
    InStepExact(p, ReadRecord(p, fin, 2 * r, wire).c, r);
  }

  // ---------------------------------------------------------------- reading on after an interruption

  /** A read of a source that has only the bytes b for now fails for want of more. */
  predicate Starves(p: Params, c: nat, b: bytes) {
    || |b| < p.HeadLen()
    || (var head := p.aead.Open(p.At(c), b[..p.HeadLen()]);
        head.Some? && |head.value| >= 2 && |b| - p.HeadLen() < MaskedLength(head.value, p.mask) + p.aead.overhead)
  }

  /** Whatever a starved read took is gone, and the nonce has moved if it took a whole sealed header. */
  lemma StarvedStep(p: Params, fin: IOErr, c: nat, b: bytes)
    requires Starves(p, c, b)
    ensures var s := ReadRecord(p, fin, c, b);
            s.err.Some? && s.rest == [] && s.c == if |b| < p.HeadLen() then c else c + 1
  {
  }

  /** The read after one that found only the first k bytes of the stream and failed with `fin`. */
  function Retried(p: Params, fin: IOErr, c: nat, wire: bytes, k: nat): Step
    requires k <= |wire|
  {
    var s := ReadRecord(p, fin, c, wire[..k]);
    ReadRecord(p, fin, s.c, s.rest + wire[k..])
  }

  /** What was opened by both reads. */
  function RetryOpenings(p: Params, fin: IOErr, c: nat, wire: bytes, k: nat): seq<Opening>
    requires k <= |wire|
  {
    var s := ReadRecord(p, fin, c, wire[..k]);
    OpenedOnce(p, c, wire[..k]) + OpenedOnce(p, s.c, s.rest + wire[k..])
  }

  ghost predicate Interrupted(p: Params, fin: IOErr, chunks: seq<bytes>, r: nat, wire: bytes, k: nat) {
    && k <= |wire| && Fit(p, chunks) && NoWrap(p, chunks)
    && Starves(p, 2 * r, wire[..k])
    && Unforged(p, chunks, RetryOpenings(p, fin, 2 * r, wire, k))
    && Retried(p, fin, 2 * r, wire, k).err.None?
  }

  ghost predicate RetriesChunk(p: Params, fin: IOErr, chunks: seq<bytes>, r: nat, wire: bytes, k: nat) {
    k <= |wire| && r < |chunks| && Retried(p, fin, 2 * r, wire, k).payload == chunks[r]
  }

  /** If anything comes out of the read after one that was starved after k bytes of a stream, it is
      the record that was due. */
  ghost predicate RetrySafe(p: Params, fin: IOErr, r: nat, k: nat) {
    forall chunks, wire :: Interrupted(p, fin, chunks, r, wire, k) ==> RetriesChunk(p, fin, chunks, r, wire, k)
  }

  lemma RetryInHeader(p: Params, fin: IOErr, chunks: seq<bytes>, r: nat, wire: bytes, k: nat)
    requires p.Ok() && 2 * r < Pow256(p.aead.nonceSize)
    requires Interrupted(p, fin, chunks, r, wire, k) && k < p.HeadLen()
    ensures RetriesChunk(p, fin, chunks, r, wire, k)
  {
    hide ReadRecord, OpenedOnce, Genuine, Params.At, Params.Ok, Pow256;
    StarvedStep(p, fin, 2 * r, wire[..k]);
    assert [] + wire[k..] == wire[k..];
    assert Unforged(p, chunks, OpenedOnce(p, 2 * r, wire[k..]));
    NextIsInOrder(p, fin, chunks, r, wire[k..]);
  }

  /** Once the header is taken, the sealed payload of a record passes for a header if it is as long,
      and the read was starved before the end of it. */
  lemma RetryInPayload(p: Params, fin: IOErr, chunks: seq<bytes>, r: nat, wire: bytes, k: nat)
    requires p.Ok() && 2 * r + 1 < Pow256(p.aead.nonceSize)
    requires Interrupted(p, fin, chunks, r, wire, k) && k >= p.HeadLen()
    ensures k < 2 * p.HeadLen()
  {
    hide ReadRecord, OpenedOnce, Genuine, Params.At, Pow256, Params.Ok;
    var first := wire[..k];
    StarvedStep(p, fin, 2 * r, first);
    assert [] + wire[k..] == wire[k..];
    assert Unforged(p, chunks, OpenedOnce(p, 2 * r, first)) && Unforged(p, chunks, OpenedOnce(p, 2 * r + 1, wire[k..]));
    HeaderStarved(p, chunks, r, first);
    HeaderMistaken(p, fin, chunks, r, wire[k..]);
  }

  lemma HeaderStarved(p: Params, chunks: seq<bytes>, r: nat, first: bytes)
    requires p.Ok() && Fit(p, chunks) && NoWrap(p, chunks) && 2 * r < Pow256(p.aead.nonceSize)
    requires Starves(p, 2 * r, first) && |first| >= p.HeadLen()
    requires Unforged(p, chunks, OpenedOnce(p, 2 * r, first))
    ensures r < |chunks| && |first| < p.RecordLen(chunks[r])
  {
    hide Genuine, Params.At, Pow256, IsMask, MaskedLength;
    var head := first[..p.HeadLen()];
    assert OpenedOnce(p, 2 * r, first)[0] == Opening(p.At(2 * r), head);
    GenuineAt(p, chunks, 2 * r, head);
    p.aead.SealLaw(p.At(2 * r), Header(|chunks[r]|));
    MaskRoundTrip(p.mask, |chunks[r]|);
  }

  lemma HeaderMistaken(p: Params, fin: IOErr, chunks: seq<bytes>, r: nat, later: bytes)
    requires p.Ok() && NoWrap(p, chunks) && 2 * r + 1 < Pow256(p.aead.nonceSize)
    requires ReadRecord(p, fin, 2 * r + 1, later).err.None?
    requires Unforged(p, chunks, OpenedOnce(p, 2 * r + 1, later))
    ensures r < |chunks| && |chunks[r]| == 2
  {
    hide ReadRecord, OpenedOnce, Genuine, Params.At, Pow256, IsMask, MaskedLength;
    var head, body := ReadRecordParts(p, fin, 2 * r + 1, later);
    assert OpenedOnce(p, 2 * r + 1, later)[0] == Opening(p.At(2 * r + 1), head);
    GenuineAt(p, chunks, 2 * r + 1, head);
    p.aead.SealLaw(p.At(2 * r + 1), chunks[r]);
  }

  /** A record of two bytes is cut k bytes in, and its sealed payload follows as if it were a header.
      With k at the end of the header this is the writer's own undisturbed stream. */
  lemma RetrySlips(p: Params, fin: IOErr, r: nat, k: nat) returns (chunks: seq<bytes>, wire: bytes)
    requires p.Ok() && 2 * r + 4 < Pow256(p.aead.nonceSize)
    requires p.HeadLen() <= k < 2 * p.HeadLen()
    ensures Interrupted(p, fin, chunks, r, wire, k) && !RetriesChunk(p, fin, chunks, r, wire, k)
    ensures k == p.HeadLen() ==> r < |chunks| && wire <= Wire(p, r, chunks[r..])
  {
    hide ReadRecord, Params.At, Pow256, Record, Genuine, MaskedLength, IsMask, AEAD.Lawful, Wire;
    var h, later;
    h := p.HeadLen();
    chunks, later := SlippedStream(p, r, r);
    var record := Record(p, 2 * r, Header(2));
    RecordReads(p, fin, 2 * r, Header(2), []);
    HonestOpenings(p, 2 * r, Header(2), []);
    assert record + [] == record;
    var head, body := ReadRecordParts(p, fin, 2 * r, record);
    var first := record[..k];
    assert first[..h] == head == record[..h];
    p.aead.SealLaw(p.At(2 * r), Header(2));
    MaskRoundTrip(p.mask, 2);
    assert OpenedOnce(p, 2 * r, record)[0].sealed == head;
    assert Starves(p, 2 * r, first);
    StarvedStep(p, fin, 2 * r, first);
    wire := first + later;
    assert wire[..k] == first && [] + wire[k..] == later;
    SealedIsGenuine(p, chunks, r);
    assert OpenedOnce(p, 2 * r, first) == [Opening(p.At(2 * r), head)];
    FinOnlyInError(p, fin, 2 * r + 1, later);
    if k == h {
      SlipIsHonest(p, r, chunks);
      assert record[..h] == head;
    }
  }

  /** A header, and then the payload and the next header, begin the writer's stream. */
  lemma SlipIsHonest(p: Params, r: nat, chunks: seq<bytes>)
    requires p.Ok() && r + 1 < |chunks| && chunks[r] == Header(2) && |chunks[r + 1]| == 1
    ensures p.HeadLen() <= |Record(p, 2 * r, Header(2))|
    ensures Record(p, 2 * r, Header(2))[..p.HeadLen()] + Record(p, 2 * r + 1, Header(1)) <= Wire(p, r, chunks[r..])
  {
    hide Params.At, IsMask, AEAD.Lawful;
    var a := p.aead;
    var head, body := a.Seal(p.At(2 * r), Header(2)), a.Seal(p.At(2 * r + 1), Header(2));
    var next, last := a.Seal(p.At(2 * r + 2), Header(1)), a.Seal(p.At(2 * r + 3), chunks[r + 1]);
    a.SealLaw(p.At(2 * r), Header(2));
    var later := Wire(p, r + 2, chunks[r + 2..]);
    assert chunks[r..][1..] == chunks[r + 1..] && chunks[r + 1..][1..] == chunks[r + 2..];
    assert Wire(p, r + 1, chunks[r + 1..]) == (next + last) + later;
    assert Wire(p, r, chunks[r..]) == (head + body) + ((next + last) + later);
    assert (head + body)[..p.HeadLen()] == head;
    assert (head + body) + ((next + last) + later) == (head + (body + next)) + (last + later);
  }

  /** Reading on after a starved read is safe exactly unless it was starved between the end of a sealed
      header and the end of a payload of two bytes. */
  lemma RetrySafeExact(p: Params, fin: IOErr, r: nat, k: nat)
    requires p.Ok() && 2 * r + 4 < Pow256(p.aead.nonceSize)
    ensures RetrySafe(p, fin, r, k) <==> !(p.HeadLen() <= k < 2 * p.HeadLen())
  {
    hide Interrupted, RetriesChunk, Pow256, Params.Ok;
    if p.HeadLen() <= k < 2 * p.HeadLen() {
      var chunks, wire := RetrySlips(p, fin, r, k);
    } else {
      forall chunks, wire | Interrupted(p, fin, chunks, r, wire, k)
        ensures RetriesChunk(p, fin, chunks, r, wire, k)
      {
        if k < p.HeadLen() {
          RetryInHeader(p, fin, chunks, r, wire, k);
        } else {
          RetryInPayload(p, fin, chunks, r, wire, k);
        }
      }
    }
  }

  lemma ReadTakes(p: Params, fin: IOErr, c: nat, wire: bytes)
    requires p.Ok() && ReadRecord(p, fin, c, wire).err.None?
    ensures var s := ReadRecord(p, fin, c, wire);
            |wire| == p.RecordLen(s.payload) + |s.rest|
  {
    hide ReadRecord, Params.At, MaskedLength, IsMask, AEAD.Lawful;
    var head, body := ReadRecordParts(p, fin, c, wire);
    p.aead.OpenLaw(p.At(c + 1), body);
  }

  lemma RetryAtOnce(p: Params, fin: IOErr, c: nat, wire: bytes)
    ensures Retried(p, fin, c, wire, 0) == ReadRecord(p, fin, c, wire)
  {
    assert wire[..0] == [] && [] + wire[0..] == wire;
    assert ReadRecord(p, fin, c, []) == Step(Some(Short(0, fin)), [], [], c);
  }

  lemma CutStarves(p: Params, c: nat, chunk: bytes, k: nat)
    requires p.Ok() && |chunk| <= p.mask && k < p.RecordLen(chunk)
    ensures k <= |Record(p, c, chunk)| && Starves(p, c, Record(p, c, chunk)[..k])
  {
    hide ReadRecord, Params.At, MaskedLength, IsMask, AEAD.Lawful;
    var h, record := p.HeadLen(), Record(p, c, chunk);
    RecordReads(p, EOF, c, chunk, []);
    if k >= h {
      p.aead.SealLaw(p.At(c), Header(|chunk|));
      MaskRoundTrip(p.mask, |chunk|);
      assert record[..k][..h] == p.aead.Seal(p.At(c), Header(|chunk|));
    }
  }

  /** A read that was interrupted inside a record can be made up for exactly if it had taken nothing:
      if it had, and nothing follows the record, the record does not come out. */
  lemma RetryDelivers(p: Params, fin: IOErr, r: nat, chunk: bytes, k: nat)
    requires p.Ok() && |chunk| <= p.mask && k < p.RecordLen(chunk)
    ensures |Record(p, 2 * r, chunk)| == p.RecordLen(chunk)
    ensures (forall later ::
               Retried(p, fin, 2 * r, Record(p, 2 * r, chunk) + later, k) == Step(None, chunk, later, 2 * r + 2))
            <==> k == 0
  {
    hide ReadRecord, Record, Params.Ok;
    var record := Record(p, 2 * r, chunk);
    RecordReads(p, fin, 2 * r, chunk, []);
    if k == 0 {
      forall later
        ensures Retried(p, fin, 2 * r, record + later, k) == Step(None, chunk, later, 2 * r + 2)
      {
        RetryAtOnce(p, fin, 2 * r, record + later);
        RecordReads(p, fin, 2 * r, chunk, later);
      }
    } else {
      CutStarves(p, 2 * r, chunk, k);
      StarvedStep(p, fin, 2 * r, record[..k]);
      assert (record + [])[..k] == record[..k] && [] + (record + [])[k..] == record[k..];
      var c := ReadRecord(p, fin, 2 * r, record[..k]).c;
      if ReadRecord(p, fin, c, record[k..]).err.None? {
        ReadTakes(p, fin, c, record[k..]);
      }
      assert Retried(p, fin, 2 * r, record + [], k) != Step(None, chunk, [], 2 * r + 2);
    }
  }

  // ---------------------------------------------------------------- WriteTo as reads

  function Reads(k: nat, n: nat): seq<Call> {
    seq(k, _ => Read(n))
  }

  lemma ReadsMore(p: Params, fin: IOErr, s: State, k: nat, n: nat)
    ensures Run(p, fin, s, Reads(k + 1, n))
         == var o := ReadCall(p, fin, s, n);
            if o.err.Some? then (o.state, o.data, o.err)
            else
              var (s', data, end) := Run(p, fin, o.state, Reads(k, n));
              (s', o.data + data, end)
  {
    assert Reads(k + 1, n)[1..] == Reads(k, n);
  }

  /** WriteTo does what reads into a buffer that holds any payload do, repeated to the end. */
  lemma {:induction false} WriteToIsReads(p: Params, fin: IOErr, s: State, n: nat) returns (k: nat)
    requires p.Ok() && |s.leftover| <= n && p.mask <= n
    ensures var o := WriteToCall(p, fin, s);
            Run(p, fin, s, Reads(k, n)) == (o.state, o.data, if o.err.None? then Some(EOF) else o.err)
    decreases |s.rest|, |s.leftover|
  {
    hide ReadRecord, Reads, Params.Ok, Concat;
    var o := ReadCall(p, fin, s, n);
    WholeFits(s.leftover, n);
    if s.leftover != [] {
      k := WriteToIsReads(p, fin, o.state, n);
      ReadsMore(p, fin, s, k, n);
      LeftoverFirst(s.leftover, Concat(DecodeAll(p, fin, s.c, s.rest).payloads));
      k := k + 1;
    } else {
      var r := ReadRecord(p, fin, s.c, s.rest);
      if r.err.Some? {
        k := 1;
        ReadsMore(p, fin, s, 0, n);
        ConcatNothing();
        LeftoverFirst([], []);
      } else {
        ReadRecordShrinks(p, fin, s.c, s.rest);
        PayloadFits(p, fin, s.c, s.rest);
        WholeFits(r.payload, n);
        k := WriteToIsReads(p, fin, o.state, n);
        ReadsMore(p, fin, s, k, n);
        ConcatCons(r.payload, DecodeAll(p, fin, r.c, r.rest).payloads);
        LeftoverFirst(r.payload, Concat(DecodeAll(p, fin, r.c, r.rest).payloads));
        k := k + 1;
      }
    }
  }

  lemma WholeFits(b: bytes, n: nat)
    requires |b| <= n
    ensures b[..Min(n, |b|)] == b && b[Min(n, |b|)..] == []
  {
  }

  lemma LeftoverFirst(a: bytes, b: bytes)
    ensures a + ([] + b) == a + b == [] + (a + b)
  {
  }

  lemma ConcatCons(a: bytes, b: seq<bytes>)
    ensures Concat([a] + b) == a + Concat(b)
  {
    assert ([a] + b)[1..] == b;
  }

  lemma PayloadFits(p: Params, fin: IOErr, c: nat, wire: bytes)
    requires p.Ok() && ReadRecord(p, fin, c, wire).err.None?
    ensures |ReadRecord(p, fin, c, wire).payload| <= p.mask
  {
    hide ReadRecord, Params.At, MaskedLength, IsMask, AEAD.Lawful;
    var head, body := ReadRecordParts(p, fin, c, wire);
    p.aead.OpenLaw(p.At(c + 1), body);
  }
}
