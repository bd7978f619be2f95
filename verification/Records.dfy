/** The AEAD record format: what a writer puts on the wire, and what a reader makes of any bytes. */
module Records {
  import opened Bytes
  import opened Aead
  import opened Io

  /** One session: the derived AEAD and the payload size mask. */
  datatype Params = Params(aead: AEAD, mask: nat) {
    ghost predicate Ok() {
      aead.Lawful() && IsMask(mask) && mask >= 2
    }

    /** The nonce of the j-th seal or open operation. */
    function At(j: nat): (n: bytes)
      ensures |n| == aead.nonceSize
    {
      Nonce(aead.nonceSize, j)
    }

    function HeadLen(): nat {
      2 + aead.overhead
    }

    function RecordLen(chunk: bytes): nat {
      HeadLen() + |chunk| + aead.overhead
    }
  }

  lemma AtNext(p: Params, j: nat)
    ensures p.At(j + 1) == Bump(p.At(j))
  {
  }

  predicate Fit(p: Params, chunks: seq<bytes>) {
    forall i | 0 <= i < |chunks| :: |chunks[i]| <= p.mask
  }

  /** One record, sealed by the operations c and c + 1 of a session. */
  function Record(p: Params, c: nat, chunk: bytes): bytes {
    p.aead.Seal(p.At(c), Header(|chunk|)) + p.aead.Seal(p.At(c + 1), chunk)
  }

  /** The records of `chunks`, the first of which is the i-th of the session. */
  function Wire(p: Params, i: nat, chunks: seq<bytes>): bytes
    decreases |chunks|
  {
    if chunks == [] then [] else Record(p, 2 * i, chunks[0]) + Wire(p, i + 1, chunks[1..])
  }

  // ---------------------------------------------------------------- reading

  /** The outcome of reading one record: the payload or an error, the bytes left, the operations done. */
  datatype Step = Step(err: Option<IOErr>, payload: bytes, rest: bytes, c: nat)

  function ReadRecord(p: Params, fin: IOErr, c: nat, wire: bytes): Step {
    var h := p.HeadLen();
    if |wire| < h then Step(Some(Short(|wire|, fin)), [], [], c)
    else
      match p.aead.Open(p.At(c), wire[..h])
      case None => Step(Some(AuthFailed), [], wire[h..], c + 1)
      case Some(head) =>
        if |head| < 2 then Step(Some(AuthFailed), [], wire[h..], c + 1)  // excluded by the length law
        else ReadPayload(p, fin, c + 1, MaskedLength(head, p.mask), wire[h..])
  }

  function ReadPayload(p: Params, fin: IOErr, c: nat, size: nat, wire: bytes): Step {
    var t := size + p.aead.overhead;
    if |wire| < t then Step(Some(Short(|wire|, fin)), [], [], c)
    else
      match p.aead.Open(p.At(c), wire[..t])
      case None => Step(Some(AuthFailed), [], wire[t..], c + 1)
      case Some(payload) => Step(None, payload, wire[t..], c + 1)
  }

  lemma ReadRecordShrinks(p: Params, fin: IOErr, c: nat, wire: bytes)
    ensures ReadRecord(p, fin, c, wire).err.None? ==> |ReadRecord(p, fin, c, wire).rest| < |wire|
  {
  }

  datatype Decoded = Decoded(payloads: seq<bytes>, err: IOErr, rest: bytes, c: nat)

  /** Records are read until the first error. */
  function DecodeAll(p: Params, fin: IOErr, c: nat, wire: bytes): Decoded
    decreases |wire|
  {
    var s := ReadRecord(p, fin, c, wire);
    match s.err
    case Some(e) => Decoded([], e, s.rest, s.c)
    case None =>
      ReadRecordShrinks(p, fin, c, wire);
      var d := DecodeAll(p, fin, s.c, s.rest);
      d.(payloads := [s.payload] + d.payloads)
  }

  // ---------------------------------------------------------------- round trip

  lemma HeadOpens(p: Params, fin: IOErr, c: nat, chunk: bytes, wire: bytes)
    requires p.Ok() && |chunk| <= p.mask
    ensures |p.aead.Seal(p.At(c), Header(|chunk|))| == p.HeadLen()
    ensures ReadRecord(p, fin, c, p.aead.Seal(p.At(c), Header(|chunk|)) + wire)
         == ReadPayload(p, fin, c + 1, |chunk|, wire)
  {
    hide ReadPayload;
    p.aead.SealLaw(p.At(c), Header(|chunk|));
    MaskRoundTrip(p.mask, |chunk|);
    var head := p.aead.Seal(p.At(c), Header(|chunk|));
    assert (head + wire)[..p.HeadLen()] == head && (head + wire)[p.HeadLen()..] == wire;
  }

  lemma PayloadOpens(p: Params, fin: IOErr, c: nat, chunk: bytes, wire: bytes)
    requires p.Ok()
    ensures |p.aead.Seal(p.At(c), chunk)| == |chunk| + p.aead.overhead
    ensures ReadPayload(p, fin, c, |chunk|, p.aead.Seal(p.At(c), chunk) + wire) == Step(None, chunk, wire, c + 1)
  {
    p.aead.SealLaw(p.At(c), chunk);
    var sealed := p.aead.Seal(p.At(c), chunk);
    assert (sealed + wire)[..|sealed|] == sealed && (sealed + wire)[|sealed|..] == wire;
  }

  lemma RecordReads(p: Params, fin: IOErr, c: nat, chunk: bytes, wire: bytes)
    requires p.Ok() && |chunk| <= p.mask
    ensures |Record(p, c, chunk)| == p.RecordLen(chunk)
    ensures ReadRecord(p, fin, c, Record(p, c, chunk) + wire) == Step(None, chunk, wire, c + 2)
  {
    hide ReadRecord, ReadPayload, Params.At;
    var head, body := p.aead.Seal(p.At(c), Header(|chunk|)), p.aead.Seal(p.At(c + 1), chunk);
    HeadOpens(p, fin, c, chunk, body + wire);
    PayloadOpens(p, fin, c + 1, chunk, wire);
    assert Record(p, c, chunk) + wire == head + (body + wire);
  }

  /** A sealed header whose high bits are set is no error: any two bytes are accepted, and the payload
      is taken to be as long as their low bits say. */
  lemma HighBitsIgnored(p: Params, fin: IOErr, c: nat, h: bytes, chunk: bytes, wire: bytes)
    requires p.Ok() && |h| == 2
    requires |chunk| == (h[0] as nat * 256 + h[1] as nat) % (p.mask + 1)
    ensures ReadRecord(p, fin, c, p.aead.Seal(p.At(c), h) + (p.aead.Seal(p.At(c + 1), chunk) + wire))
         == Step(None, chunk, wire, c + 2)
  {
    hide ReadPayload, MaskedLength, Params.At, IsMask;
    MaskedMod(h, p.mask);
    p.aead.SealLaw(p.At(c), h);
    var head, later := p.aead.Seal(p.At(c), h), p.aead.Seal(p.At(c + 1), chunk) + wire;
    assert (head + later)[..p.HeadLen()] == head && (head + later)[p.HeadLen()..] == later;
    PayloadOpens(p, fin, c + 1, chunk, wire);
  }

  function Prepend(chunks: seq<bytes>, d: Decoded): Decoded {
    d.(payloads := chunks + d.payloads)
  }

  lemma RecordDecodes(p: Params, fin: IOErr, i: nat, chunk: bytes, wire: bytes)
    requires p.Ok() && |chunk| <= p.mask
    ensures DecodeAll(p, fin, 2 * i, Record(p, 2 * i, chunk) + wire)
         == Prepend([chunk], DecodeAll(p, fin, 2 * (i + 1), wire))
  {
    hide ReadRecord, Record, Params.At;
    RecordReads(p, fin, 2 * i, chunk, wire);
  }

  lemma PrependTwice(a: seq<bytes>, b: seq<bytes>, d: Decoded)
    ensures Prepend(a, Prepend(b, d)) == Prepend(a + b, d)
  {
    assert a + (b + d.payloads) == (a + b) + d.payloads;
  }

  /** Reading what was written gives back the chunks, and then whatever follows them. */
  lemma {:induction false} WireReads(p: Params, fin: IOErr, i: nat, chunks: seq<bytes>, wire: bytes)
    requires p.Ok() && Fit(p, chunks)
    ensures DecodeAll(p, fin, 2 * i, Wire(p, i, chunks) + wire)
         == Prepend(chunks, DecodeAll(p, fin, 2 * (i + |chunks|), wire))
    decreases |chunks|
  {
    hide DecodeAll, Record;
    var d := DecodeAll(p, fin, 2 * (i + |chunks|), wire);
    if chunks == [] {
      assert Wire(p, i, chunks) + wire == wire;
      assert [] + d.payloads == d.payloads;
    } else {
      WireCons(p, i, chunks, wire);
      RecordDecodes(p, fin, i, chunks[0], Wire(p, i + 1, chunks[1..]) + wire);
      WireReads(p, fin, i + 1, chunks[1..], wire);
      assert i + 1 + |chunks[1..]| == i + |chunks|;
      PrependTwice([chunks[0]], chunks[1..], d);
      assert [chunks[0]] + chunks[1..] == chunks;
    }
  }

  /** A whole undisturbed stream decodes to its chunks and ends cleanly. */
  lemma WireDecodes(p: Params, i: nat, chunks: seq<bytes>)
    requires p.Ok() && Fit(p, chunks)
    ensures DecodeAll(p, EOF, 2 * i, Wire(p, i, chunks)) == Decoded(chunks, EOF, [], 2 * (i + |chunks|))
  {
    hide Wire;
    WireReads(p, EOF, i, chunks, []);
    assert Wire(p, i, chunks) + [] == Wire(p, i, chunks);
    assert DecodeAll(p, EOF, 2 * (i + |chunks|), []) == Decoded([], EOF, [], 2 * (i + |chunks|));
    assert chunks + [] == chunks;
  }

  lemma WireCons(p: Params, i: nat, chunks: seq<bytes>, wire: bytes)
    requires chunks != []
    ensures Wire(p, i, chunks) + wire == Record(p, 2 * i, chunks[0]) + (Wire(p, i + 1, chunks[1..]) + wire)
  {
    hide Record;
  }

  lemma {:induction false} WireAppend(p: Params, i: nat, a: seq<bytes>, b: seq<bytes>)
    ensures Wire(p, i, a + b) == Wire(p, i, a) + Wire(p, i + |a|, b)
    decreases |a|
  {
    hide Record;
    if a == [] {
      assert a + b == b;
    } else {
      WireAppend(p, i + 1, a[1..], b);
      assert (a + b)[1..] == a[1..] + b;
    }
  }

  lemma WireOne(p: Params, i: nat, chunk: bytes)
    ensures Wire(p, i, [chunk]) == Record(p, 2 * i, chunk)
  {
    assert [chunk][1..] == [];
  }

  /** Every chunk costs two bytes of length and two tags. */
  lemma {:induction false} WireLength(p: Params, i: nat, chunks: seq<bytes>)
    requires p.Ok() && Fit(p, chunks)
    ensures |Wire(p, i, chunks)| == |Concat(chunks)| + |chunks| * (2 + 2 * p.aead.overhead)
    decreases |chunks|
  {
    if chunks != [] {
      RecordReads(p, EOF, 2 * i, chunks[0], []);
      WireLength(p, i + 1, chunks[1..]);
      var k := 2 + 2 * p.aead.overhead;
      assert |chunks| * k == (|chunks| - 1) * k + k;
    }
  }

  // ---------------------------------------------------------------- truncation

  /** How a stream ends that is cut `extra` bytes into a record, when its source ends with `fin`. */
  function CutError(p: Params, fin: IOErr, extra: nat): IOErr {
    if fin != EOF then fin
    else if extra == 0 || extra == p.HeadLen() then EOF
    else UnexpectedEOF
  }

  lemma NothingLeft(p: Params, fin: IOErr, c: nat)
    ensures DecodeAll(p, fin, c, []).payloads == [] && DecodeAll(p, fin, c, []).err == CutError(p, fin, 0)
  {
  }

  lemma CutInsideRecord(p: Params, fin: IOErr, c: nat, chunk: bytes, extra: nat)
    requires p.Ok() && |chunk| <= p.mask && extra < p.RecordLen(chunk)
    ensures extra <= |Record(p, c, chunk)|
    ensures var d := DecodeAll(p, fin, c, Record(p, c, chunk)[..extra]);
            d.payloads == [] && d.err == CutError(p, fin, extra)
  {
    var head, body := p.aead.Seal(p.At(c), Header(|chunk|)), p.aead.Seal(p.At(c + 1), chunk);
    RecordReads(p, fin, c, chunk, []);
    HeadOpens(p, fin, c, chunk, body);
    PayloadOpens(p, fin, c + 1, chunk, []);
    if extra >= |head| {
      HeadOpens(p, fin, c, chunk, body[..extra - |head|]);
      assert Record(p, c, chunk)[..extra] == head + body[..extra - |head|];
    }
  }

  /** A stream cut `extra` bytes into its k-th record yields exactly the payloads of the k records
      before the cut; the end looks clean at a record boundary and after a whole sealed header. */
  lemma CutStream(p: Params, fin: IOErr, chunks: seq<bytes>, k: nat, extra: nat)
    requires p.Ok() && Fit(p, chunks) && k <= |chunks|
    requires if k == |chunks| then extra == 0 else extra < p.RecordLen(chunks[k])
    ensures var cut := |Wire(p, 0, chunks[..k])| + extra;
            && cut <= |Wire(p, 0, chunks)|
            && var d := DecodeAll(p, fin, 0, Wire(p, 0, chunks)[..cut]);
               d.payloads == chunks[..k] && d.err == CutError(p, fin, extra)
  {
    hide ReadRecord, Record, Params.At, DecodeAll, Wire, CutError;
    var before, after := Wire(p, 0, chunks[..k]), Wire(p, k, chunks[k..]);
    assert Wire(p, 0, chunks) == before + after by {
      assert chunks == chunks[..k] + chunks[k..];
      WireAppend(p, 0, chunks[..k], chunks[k..]);
    }
    if k == |chunks| {
      WireReads(p, fin, 0, chunks[..k], []);
      assert before + [] == before == (before + after)[..|before|];
      NothingLeft(p, fin, 2 * k);
    } else {
      CutInsideRecord(p, fin, 2 * k, chunks[k], extra);
      var part := Record(p, 2 * k, chunks[k])[..extra];
      WireCons(p, k, chunks[k..], []);
      assert after + [] == after && after[..extra] == part;
      assert (before + after)[..|before| + extra] == before + part;
      WireReads(p, fin, 0, chunks[..k], part);
    }
  }

  /** Every cut is of that form. */
  lemma {:induction false} EveryCut(p: Params, i: nat, chunks: seq<bytes>, cut: nat) returns (k: nat, extra: nat)
    requires p.Ok() && Fit(p, chunks) && cut <= |Wire(p, i, chunks)|
    ensures k <= |chunks| && cut == |Wire(p, i, chunks[..k])| + extra
    ensures if k == |chunks| then extra == 0 else extra < p.RecordLen(chunks[k])
    decreases |chunks|
  {
    if chunks == [] {
      k, extra := 0, 0;
    } else {
      RecordReads(p, EOF, 2 * i, chunks[0], []);
      var first := p.RecordLen(chunks[0]);
      if cut < first {
        k, extra := 0, cut;
      } else {
        k, extra := EveryCut(p, i + 1, chunks[1..], cut - first);
        assert chunks[..k + 1][1..] == chunks[1..][..k];
        k := k + 1;
      }
    }
  }

  // ---------------------------------------------------------------- authenticity

  /** A ciphertext that was opened, with the nonce it was opened under. */
  datatype Opening = Opening(nonce: bytes, sealed: bytes)

  /** The openings that succeed while one record is read. */
  function OpenedOnce(p: Params, c: nat, wire: bytes): seq<Opening> {
    var h := p.HeadLen();
    if |wire| < h then []
    else
      match p.aead.Open(p.At(c), wire[..h])
      case None => []
      case Some(head) =>
        var t := (if |head| < 2 then 0 else MaskedLength(head, p.mask)) + p.aead.overhead;
        [Opening(p.At(c), wire[..h])] +
        if |wire| - h >= t && p.aead.Open(p.At(c + 1), wire[h..][..t]).Some?
        then [Opening(p.At(c + 1), wire[h..][..t])] else []
  }

  /** The openings that succeed until the first error. */
  function Opened(p: Params, c: nat, wire: bytes): seq<Opening>
    decreases |wire|
  {
    var s := ReadRecord(p, EOF, c, wire);
    OpenedOnce(p, c, wire) + if s.err.Some? then [] else ReadRecordShrinks(p, EOF, c, wire); Opened(p, s.c, s.rest)
  }

  /** The j-th ciphertext of a writer that was given `chunks`. */
  function SealedAt(p: Params, chunks: seq<bytes>, j: nat): bytes
    requires j < 2 * |chunks|
  {
    p.aead.Seal(p.At(j), if j % 2 == 0 then Header(|chunks[j / 2]|) else chunks[j / 2])
  }

  ghost predicate Genuine(p: Params, chunks: seq<bytes>, o: Opening) {
    exists j: nat :: j < 2 * |chunks| && p.At(j) == o.nonce && SealedAt(p, chunks, j) == o.sealed
  }

  /** The ideal-AEAD hypothesis for one run: whatever was opened had been sealed under the same nonce. */
  ghost predicate Unforged(p: Params, chunks: seq<bytes>, openings: seq<Opening>) {
    forall o | o in openings :: Genuine(p, chunks, o)
  }

  ghost predicate NoWrap(p: Params, chunks: seq<bytes>) {
    2 * |chunks| < Pow256(p.aead.nonceSize)
  }

  lemma GenuineAt(p: Params, chunks: seq<bytes>, j: nat, sealed: bytes)
    requires NoWrap(p, chunks) && j < Pow256(p.aead.nonceSize)
    requires Genuine(p, chunks, Opening(p.At(j), sealed))
    ensures j < 2 * |chunks| && sealed == SealedAt(p, chunks, j)
  {
    var j': nat :| j' < 2 * |chunks| && p.At(j') == p.At(j) && SealedAt(p, chunks, j') == sealed;
    NoncesDistinct(p.aead.nonceSize, j', j);
  }

  /** The two ciphertexts of a record that was read. */
  lemma ReadRecordParts(p: Params, fin: IOErr, c: nat, wire: bytes) returns (head: bytes, body: bytes)
    requires ReadRecord(p, fin, c, wire).err.None?
    ensures var s := ReadRecord(p, fin, c, wire);
            && wire == head + (body + s.rest) && s.c == c + 2 && |head| == p.HeadLen()
            && OpenedOnce(p, c, wire) == [Opening(p.At(c), head), Opening(p.At(c + 1), body)]
            && p.aead.Open(p.At(c), head).Some? && |p.aead.Open(p.At(c), head).value| >= 2
            && |body| == MaskedLength(p.aead.Open(p.At(c), head).value, p.mask) + p.aead.overhead
            && p.aead.Open(p.At(c + 1), body) == Some(s.payload)
  {
    hide MaskedLength, Params.At;
    var h := p.HeadLen();
    head := wire[..h];
    var t := MaskedLength(p.aead.Open(p.At(c), head).value, p.mask) + p.aead.overhead;
    body := wire[h..][..t];
    assert wire[h..] == body + wire[h..][t..];
  }

  /** A reader that has read r records and did 2r operations can only read record r next. */
  lemma NextIsInOrder(p: Params, fin: IOErr, chunks: seq<bytes>, r: nat, wire: bytes)
    requires p.Ok() && Fit(p, chunks) && NoWrap(p, chunks) && 2 * r < Pow256(p.aead.nonceSize)
    requires Unforged(p, chunks, OpenedOnce(p, 2 * r, wire))
    requires ReadRecord(p, fin, 2 * r, wire).err.None?
    ensures r < |chunks|
    ensures ReadRecord(p, fin, 2 * r, wire).payload == chunks[r] && ReadRecord(p, fin, 2 * r, wire).c == 2 * (r + 1)
  {
    hide ReadRecord, OpenedOnce, MaskedLength, Params.At, Genuine;
    var head, body := ReadRecordParts(p, fin, 2 * r, wire);
    assert OpenedOnce(p, 2 * r, wire)[0] == Opening(p.At(2 * r), head);
    assert OpenedOnce(p, 2 * r, wire)[1] == Opening(p.At(2 * r + 1), body);
    GenuineAt(p, chunks, 2 * r, head);
    p.aead.SealLaw(p.At(2 * r), Header(|chunks[r]|));
    GenuineAt(p, chunks, 2 * r + 1, body);
    p.aead.SealLaw(p.At(2 * r + 1), chunks[r]);
  }

  /** The way the source ends shows in nothing but the error. */
  lemma FinOnlyInError(p: Params, fin: IOErr, c: nat, wire: bytes)
    ensures var s, s' := ReadRecord(p, fin, c, wire), ReadRecord(p, EOF, c, wire);
            s.err.None? == s'.err.None? && s.payload == s'.payload && s.rest == s'.rest && s.c == s'.c
  {
  }

  /** Whatever bytes are on the wire, the records that decode are the next ones the writer
      was given, in order: nothing dropped, repeated, reordered or altered surfaces. */
  lemma {:induction false} DecodedIsPrefix(p: Params, fin: IOErr, chunks: seq<bytes>, r: nat, wire: bytes)
    requires p.Ok() && Fit(p, chunks) && NoWrap(p, chunks) && r <= |chunks|
    requires Unforged(p, chunks, Opened(p, 2 * r, wire))
    ensures DecodeAll(p, fin, 2 * r, wire).payloads <= chunks[r..]
    decreases |wire|
  {
    hide ReadRecord, Params.Ok, OpenedOnce, Genuine;
    var s := ReadRecord(p, fin, 2 * r, wire);
    FinOnlyInError(p, fin, 2 * r, wire);
    if s.err.None? {
      assert Unforged(p, chunks, OpenedOnce(p, 2 * r, wire));
      NextIsInOrder(p, fin, chunks, r, wire);
      assert Unforged(p, chunks, Opened(p, 2 * (r + 1), s.rest));
      ReadRecordShrinks(p, fin, 2 * r, wire);
      DecodedIsPrefix(p, fin, chunks, r + 1, s.rest);
      assert chunks[r..] == [chunks[r]] + chunks[r + 1..];
    }
  }

  lemma HonestOpenings(p: Params, c: nat, chunk: bytes, wire: bytes)
    requires p.Ok() && |chunk| <= p.mask
    ensures OpenedOnce(p, c, Record(p, c, chunk) + wire)
         == [Opening(p.At(c), p.aead.Seal(p.At(c), Header(|chunk|))),
             Opening(p.At(c + 1), p.aead.Seal(p.At(c + 1), chunk))]
  {
    hide ReadRecord, OpenedOnce, Params.At, MaskedLength;
    RecordReads(p, EOF, c, chunk, wire);
    var head, body := p.aead.Seal(p.At(c), Header(|chunk|)), p.aead.Seal(p.At(c + 1), chunk);
    p.aead.SealLaw(p.At(c), Header(|chunk|));
    MaskRoundTrip(p.mask, |chunk|);
    p.aead.SealLaw(p.At(c + 1), chunk);
    var all := Record(p, c, chunk) + wire;
    var head', body' := ReadRecordParts(p, EOF, c, all);
    assert all == head + (body + wire);
    assert head == all[..p.HeadLen()] == head';
    assert body + wire == all[p.HeadLen()..] == body' + wire;
    assert body == (body + wire)[..|body|] == body';
  }

  lemma OpenedCons(p: Params, c: nat, chunk: bytes, wire: bytes)
    requires p.Ok() && |chunk| <= p.mask
    ensures Opened(p, c, Record(p, c, chunk) + wire)
         == OpenedOnce(p, c, Record(p, c, chunk) + wire) + Opened(p, c + 2, wire)
  {
    hide ReadRecord, OpenedOnce, Record;
    RecordReads(p, EOF, c, chunk, wire);
  }

  lemma SealedIsGenuine(p: Params, chunks: seq<bytes>, r: nat)
    requires r < |chunks|
    ensures Genuine(p, chunks, Opening(p.At(2 * r), p.aead.Seal(p.At(2 * r), Header(|chunks[r]|))))
    ensures Genuine(p, chunks, Opening(p.At(2 * r + 1), p.aead.Seal(p.At(2 * r + 1), chunks[r])))
  {
    hide Params.At;
    assert SealedAt(p, chunks, 2 * r) == p.aead.Seal(p.At(2 * r), Header(|chunks[r]|));
    assert SealedAt(p, chunks, 2 * r + 1) == p.aead.Seal(p.At(2 * r + 1), chunks[r]);
  }

  /** The hypothesis holds of every undisturbed stream, so it is satisfiable. */
  lemma {:induction false} HonestIsUnforged(p: Params, chunks: seq<bytes>, r: nat, wire: bytes)
    requires p.Ok() && Fit(p, chunks) && r <= |chunks|
    requires Unforged(p, chunks, Opened(p, 2 * |chunks|, wire))
    ensures Unforged(p, chunks, Opened(p, 2 * r, Wire(p, r, chunks[r..]) + wire))
    decreases |chunks| - r
  {
    hide Opened, Genuine, Params.Ok, Params.At, Record;
    if r < |chunks| {
      WireCons(p, r, chunks[r..], wire);
      assert chunks[r..][1..] == chunks[r + 1..];
      OpenedCons(p, 2 * r, chunks[r], Wire(p, r + 1, chunks[r + 1..]) + wire);
      HonestOpenings(p, 2 * r, chunks[r], Wire(p, r + 1, chunks[r + 1..]) + wire);
      HonestIsUnforged(p, chunks, r + 1, wire);
      SealedIsGenuine(p, chunks, r);
    } else {
      assert Wire(p, r, chunks[r..]) + wire == wire;
    }
  }

  // ---------------------------------------------------------------- where the bounds are tight

  ghost predicate SameNonces(p: Params, c: nat, c': nat) {
    forall k: nat :: SameNonce(p, c, c', k)
  }

  ghost predicate SameNonce(p: Params, c: nat, c': nat, k: nat) {
    p.At(c + k) == p.At(c' + k)
  }

  lemma SameNoncesLater(p: Params, c: nat, c': nat, d: nat)
    requires SameNonces(p, c, c')
    ensures SameNonces(p, c + d, c' + d) && p.At(c + d) == p.At(c' + d)
  {
    forall k: nat {:trigger SameNonce(p, c + d, c' + d, k)}
      ensures SameNonce(p, c + d, c' + d, k)
    {
      assert SameNonce(p, c, c', d + k);
      assert c + d + k == c + (d + k) && c' + d + k == c' + (d + k);
    }
    assert SameNonce(p, c, c', d);
  }

  lemma {:induction false} WirePeriod(p: Params, i: nat, j: nat, chunks: seq<bytes>)
    requires SameNonces(p, 2 * i, 2 * j)
    ensures Wire(p, i, chunks) == Wire(p, j, chunks)
    decreases |chunks|
  {
    if chunks != [] {
      SameNoncesLater(p, 2 * i, 2 * j, 0);
      SameNoncesLater(p, 2 * i, 2 * j, 1);
      SameNoncesLater(p, 2 * i, 2 * j, 2);
      WirePeriod(p, i + 1, j + 1, chunks[1..]);
    }
  }

  lemma RecordPeriod(p: Params, c: nat, c': nat, wire: bytes)
    requires SameNonces(p, c, c')
    ensures OpenedOnce(p, c, wire) == OpenedOnce(p, c', wire)
    ensures var s, s' := ReadRecord(p, EOF, c, wire), ReadRecord(p, EOF, c', wire);
            s.err == s'.err && s.rest == s'.rest && s.c - c == s'.c - c'
  {
    hide Params.At, MaskedLength, SameNonces;
    SameNoncesLater(p, c, c', 0);
    SameNoncesLater(p, c, c', 1);
  }

  lemma {:induction false} OpenedPeriod(p: Params, c: nat, c': nat, wire: bytes)
    requires SameNonces(p, c, c')
    ensures Opened(p, c, wire) == Opened(p, c', wire)
    decreases |wire|
  {
    hide ReadRecord, OpenedOnce, SameNonces;
    RecordPeriod(p, c, c', wire);
    var s, s' := ReadRecord(p, EOF, c, wire), ReadRecord(p, EOF, c', wire);
    if s.err.None? {
      var head, body := ReadRecordParts(p, EOF, c, wire);
      ReadRecordShrinks(p, EOF, c, wire);
      SameNoncesLater(p, c, c', 2);
      OpenedPeriod(p, s.c, s'.c, s.rest);
    }
  }

  lemma ModAddMultiple(x: nat, n: nat)
    requires n > 0
    ensures (x + n) % n == x % n
  {
    var q := x / n;
    assert x == q * n + x % n;
    assert (q + 1) * n == q * n + n;
    ModOf(x + n, q + 1, n, x % n);
  }

  /** The bound of NoWrap cannot be relaxed by one: once the counter has come round, the whole
      stream decodes a second time although nothing was forged. */
  lemma WrapReplays(p: Params, chunks: seq<bytes>)
    requires p.Ok() && Fit(p, chunks) && 2 * |chunks| == Pow256(p.aead.nonceSize)
    ensures var twice := Wire(p, 0, chunks) + Wire(p, 0, chunks);
            && Unforged(p, chunks, Opened(p, 0, twice))
            && DecodeAll(p, EOF, 0, twice).payloads == chunks + chunks
  {
    hide ReadRecord, DecodeAll, Params.Ok, OpenedOnce, Opened, Genuine, Wire, Params.At, Nonce, Pow256, Fit;
    var n := |chunks|;
    SameNoncesAround(p, n);
    WirePeriod(p, n, 0, chunks);
    var once := Wire(p, 0, chunks);
    WireDecodes(p, n, chunks);
    WireReads(p, EOF, 0, chunks, once);
    NothingOpens(p, 2 * n);
    HonestIsUnforged(p, chunks, 0, []);
    assert chunks[0..] == chunks && once + [] == once;
    OpenedPeriod(p, 2 * n, 0, once);
    HonestIsUnforged(p, chunks, 0, once);
  }

  lemma NothingOpens(p: Params, c: nat)
    ensures Opened(p, c, []) == []
  {
  }

  lemma SameNoncesAround(p: Params, n: nat)
    requires 2 * n == Pow256(p.aead.nonceSize)
    ensures SameNonces(p, 2 * n, 0)
  {
    hide Pow256, Nonce;
    forall k: nat {:trigger SameNonce(p, 2 * n, 0, k)}
      ensures SameNonce(p, 2 * n, 0, k)
    {
      ModAddMultiple(k, Pow256(p.aead.nonceSize));
      NoncePeriod(p.aead.nonceSize, 2 * n + k, k);
    }
  }

  lemma UnforgedByMore(p: Params, chunks: seq<bytes>, all: seq<bytes>, openings: seq<Opening>)
    requires chunks <= all && Unforged(p, chunks, openings)
    ensures Unforged(p, all, openings)
  {
    forall o | o in openings
      ensures Genuine(p, all, o)
    {
      assert Genuine(p, chunks, o);
      var j: nat :| j < 2 * |chunks| && p.At(j) == o.nonce && SealedAt(p, chunks, j) == o.sealed;
      assert SealedAt(p, all, j) == o.sealed;
    }
  }

  /** The first m records followed by a replay of the very first one. */
  lemma ReplayFirst(p: Params, all: seq<bytes>, m: nat) returns (wire: bytes)
    requires p.Ok() && Fit(p, all) && 0 < m <= |all| && 2 * m == Pow256(p.aead.nonceSize)
    ensures Unforged(p, all, Opened(p, 0, wire))
    ensures DecodeAll(p, EOF, 0, wire).payloads == all[..m] + [all[0]]
  {
    hide ReadRecord, DecodeAll, Params.Ok, OpenedOnce, Opened, Unforged, Wire, Params.At, Pow256, Fit, SameNonces;
    var chunks, first := all[..m], [all[0]];
    var again := Wire(p, 0, first);
    wire := Wire(p, 0, chunks) + again;
    FitParts(p, all, m);
    SameNoncesAround(p, m);
    WirePeriod(p, m, 0, first);
    WireReads(p, EOF, 0, chunks, again);
    WireDecodes(p, m, first);
    NothingOpens(p, 2);
    NothingUnforged(p, first);
    HonestIsUnforged(p, first, 0, []);
    assert first[0..] == first && again + [] == again && chunks[0..] == chunks;
    OpenedPeriod(p, 2 * m, 0, again);
    UnforgedByMore(p, first, chunks, Opened(p, 2 * m, again));
    HonestIsUnforged(p, chunks, 0, again);
    UnforgedByMore(p, chunks, all, Opened(p, 0, wire));
  }

  lemma NothingUnforged(p: Params, chunks: seq<bytes>)
    ensures Unforged(p, chunks, [])
  {
  }

  lemma FitParts(p: Params, all: seq<bytes>, m: nat)
    requires Fit(p, all) && 0 < m <= |all|
    ensures Fit(p, all[..m]) && Fit(p, [all[0]]) && [all[0]] <= all[..m] <= all
  {
  }

  /** Whatever n chunks a writer is given and whatever is on the wire, nothing but a prefix of the
      chunks decodes unless something was forged. */
  ghost predicate PrefixSafe(p: Params, n: nat) {
    forall chunks, wire :: |chunks| == n && Fit(p, chunks) && Unforged(p, chunks, Opened(p, 0, wire))
      ==> DecodeAll(p, EOF, 0, wire).payloads <= chunks
  }

  /** A session is safe exactly for as many records as there are pairs of nonces, less one. */
  lemma WrapExact(p: Params, n: nat)
    requires p.Ok() && p.aead.nonceSize > 0
    ensures PrefixSafe(p, n) <==> 2 * n < Pow256(p.aead.nonceSize)
  {
    hide DecodeAll, Opened, Genuine, Params.At;
    if 2 * n < Pow256(p.aead.nonceSize) {
      forall chunks, wire | |chunks| == n && Fit(p, chunks) && Unforged(p, chunks, Opened(p, 0, wire))
        ensures DecodeAll(p, EOF, 0, wire).payloads <= chunks
      {
        DecodedIsPrefix(p, EOF, chunks, 0, wire);
        assert chunks[0..] == chunks;
      }
    } else {
      var m := 128 * Pow256(p.aead.nonceSize - 1);
      var chunks: seq<bytes> := seq(n, i => if i == 0 then [1] else [0]);
      var wire := ReplayFirst(p, chunks, m);
      var payloads := DecodeAll(p, EOF, 0, wire).payloads;
      assert payloads[m] == [1] && (n > m ==> chunks[m] == [0]);
    }
  }
}
