/** Two stream connections joined by channels that deliver bytes in pieces of any size,
    in every interleaving of the writers and the readers at both ends. */
module Duplex {
  import opened Bytes
  import opened Aead
  import opened Io
  import opened Records
  import opened AeadConn
  import opened Chunking
  import Reading

  /** One direction's fixed parameters: the sender's salt and the session it gives. */
  datatype Link = Link(cipher: Cipher, salt: bytes, p: Params) {
    ghost predicate Ok() {
      && p.Ok() && cipher.saltSize > 0
      && |salt| == cipher.saltSize && cipher.Session(salt) == Some(p.aead)
    }
  }

  /** What the receiver's io.ReadFull is collecting, with the bytes it has so far. */
  datatype Phase =
    | Salt(have: bytes)
    | Head(q: Params, have: bytes)
    | Payload(q: Params, size: nat, have: bytes)
    | Failed

  datatype Direction = Direction(started: bool, sent: seq<bytes>, channel: bytes,
                                 phase: Phase, c: nat, leftover: bytes, delivered: bytes)

  const IDLE := Direction(false, [], [], Salt([]), 0, [], [])

  datatype Act =
    | Start                    // the sender's salt goes out
    | Send(chunk: bytes)       // one record goes out
    | Pull(k: nat, n: nat)     // k bytes arrive during a Read into a buffer of n bytes
    | Drain(n: nat)            // a Read of n bytes is served from the leftover

  function Wanted(l: Link, ph: Phase): nat {
    match ph
    case Salt(_) => l.cipher.saltSize
    case Head(q, _) => q.HeadLen()
    case Payload(q, size, _) => size + q.aead.overhead
    case Failed => 0
  }

  function Have(ph: Phase): bytes {
    match ph
    case Salt(have) => have
    case Head(_, have) => have
    case Payload(_, _, have) => have
    case Failed => []
  }

  function Collect(ph: Phase, have: bytes): Phase {
    match ph
    case Salt(_) => Salt(have)
    case Head(q, _) => Head(q, have)
    case Payload(q, size, _) => Payload(q, size, have)
    case Failed => Failed
  }

  predicate Enabled(l: Link, d: Direction, a: Act) {
    match a
    case Start => !d.started
    case Send(chunk) => d.started && 0 < |chunk| <= l.p.mask
    case Pull(k, n) =>
      && d.leftover == [] && !d.phase.Failed?
      && 0 < k <= |d.channel| && |Have(d.phase)| + k <= Wanted(l, d.phase)
    case Drain(n) => d.leftover != []
  }

  /** The receiver acts on a complete salt, header or payload; n is the caller's buffer size. */
  function Finish(l: Link, d: Direction, n: nat): Direction {
    match d.phase
    case Salt(have) =>
      (match l.cipher.Session(have)
       case None => d.(phase := Failed)
       case Some(a) => d.(phase := Head(Params(a, l.p.mask), [])))
    case Head(q, have) =>
      (match q.aead.Open(q.At(d.c), have)
       case None => d.(phase := Failed, c := d.c + 1)
       case Some(head) =>
         if |head| < 2 then d.(phase := Failed, c := d.c + 1)
         else d.(phase := Payload(q, MaskedLength(head, q.mask), []), c := d.c + 1))
    case Payload(q, size, have) =>
      (match q.aead.Open(q.At(d.c), have)
       case None => d.(phase := Failed, c := d.c + 1)
       case Some(payload) =>
         var k := Reading.Min(n, |payload|);
         d.(phase := Head(q, []), c := d.c + 1, delivered := d.delivered + payload[..k], leftover := payload[k..]))
    case Failed => d
  }

  function Next(l: Link, d: Direction, a: Act): Direction
    requires Enabled(l, d, a)
  {
    match a
    case Start => d.(started := true, channel := d.channel + l.salt)
    case Send(chunk) =>
      d.(sent := d.sent + [chunk], channel := d.channel + Record(l.p, 2 * |d.sent|, chunk))
    case Pull(k, n) =>
      var d' := d.(phase := Collect(d.phase, Have(d.phase) + d.channel[..k]), channel := d.channel[k..]);
      if |Have(d'.phase)| == Wanted(l, d'.phase) then Finish(l, d', n) else d'
    case Drain(n) =>
      var k := Reading.Min(n, |d.leftover|);
      d.(delivered := d.delivered + d.leftover[..k], leftover := d.leftover[k..])
  }

  // ---------------------------------------------------------------- the invariant

  ghost predicate InSalt(l: Link, d: Direction) {
    && d.phase.Salt? && |d.phase.have| < l.cipher.saltSize
    && d.c == 0 && d.leftover == d.delivered == []
    && d.phase.have + d.channel == if d.started then l.salt + Wire(l.p, 0, d.sent) else []
  }

  ghost predicate InHead(l: Link, d: Direction, r: nat) {
    && d.phase.Head? && d.phase.q == l.p && |d.phase.have| < l.p.HeadLen()
    && d.started && d.c == 2 * r && r <= |d.sent|
    && (d.leftover != [] ==> d.phase.have == [])
    && d.phase.have + d.channel == Wire(l.p, r, d.sent[r..])
    && d.delivered + d.leftover == Concat(d.sent[..r])
  }

  ghost predicate InPayload(l: Link, d: Direction, r: nat) {
    && d.phase.Payload? && d.phase.q == l.p && |d.phase.have| < d.phase.size + l.p.aead.overhead
    && d.started && d.c == 2 * r + 1 && r < |d.sent| && d.phase.size == |d.sent[r]|
    && d.leftover == []
    && d.phase.have + d.channel == l.p.aead.Seal(l.p.At(2 * r + 1), d.sent[r]) + Wire(l.p, r + 1, d.sent[r + 1..])
    && d.delivered == Concat(d.sent[..r])
  }

  ghost predicate Inv(l: Link, d: Direction) {
    && Fit(l.p, d.sent) && (!d.started ==> d.sent == [])
    && (InSalt(l, d) || InHead(l, d, d.c / 2) || InPayload(l, d, d.c / 2))
  }

  lemma IdleInv(l: Link)
    requires l.Ok()
    ensures Inv(l, IDLE)
  {
  }

  lemma StartKeeps(l: Link, d: Direction)
    requires l.Ok() && Inv(l, d) && Enabled(l, d, Start)
    ensures Inv(l, Next(l, d, Start))
  {
    hide Params.Ok;
    assert Wire(l.p, 0, []) == [];
    assert d.phase.have == [] && d.channel == [];
    assert [] + ([] + l.salt) == l.salt + [];
  }

  lemma WireMore(p: Params, r: nat, sent: seq<bytes>, chunk: bytes)
    requires r <= |sent|
    ensures Wire(p, r, (sent + [chunk])[r..]) == Wire(p, r, sent[r..]) + Record(p, 2 * |sent|, chunk)
  {
    hide Record, Wire;
    WireAppend(p, r, sent[r..], [chunk]);
    WireOne(p, |sent|, chunk);
    assert (sent + [chunk])[r..] == sent[r..] + [chunk];
  }

  lemma SendKeeps(l: Link, d: Direction, chunk: bytes)
    requires l.Ok() && Inv(l, d) && Enabled(l, d, Send(chunk))
    ensures Inv(l, Next(l, d, Send(chunk)))
  {
    hide Params.Ok, Record, Wire, Params.At, Concat;
    var d' := Next(l, d, Send(chunk));
    var record := Record(l.p, 2 * |d.sent|, chunk);
    var r := d.c / 2;
    AppendAssociates(Have(d.phase), d.channel, record);
    if InSalt(l, d) {
      WireMore(l.p, 0, d.sent, chunk);
      assert d.sent[0..] == d.sent && d'.sent[0..] == d'.sent;
      AppendAssociates(l.salt, Wire(l.p, 0, d.sent), record);
    } else if InHead(l, d, r) {
      WireMore(l.p, r, d.sent, chunk);
      assert d'.sent[..r] == d.sent[..r];
      assert InHead(l, d', r);
    } else {
      WireMore(l.p, r + 1, d.sent, chunk);
      assert d'.sent[..r] == d.sent[..r];
      AppendAssociates(l.p.aead.Seal(l.p.At(2 * r + 1), d.sent[r]), Wire(l.p, r + 1, d.sent[r + 1..]), record);
      assert InPayload(l, d', r);
    }
  }

  lemma DrainKeeps(l: Link, d: Direction, n: nat)
    requires l.Ok() && Inv(l, d) && Enabled(l, d, Drain(n))
    ensures Inv(l, Next(l, d, Drain(n)))
  {
    hide Params.Ok, Record, Wire, Params.At, Concat;
    var d' := Next(l, d, Drain(n));
    var k := Reading.Min(n, |d.leftover|);
    assert d.leftover == d.leftover[..k] + d.leftover[k..];
    AppendAssociates(d.delivered, d.leftover[..k], d.leftover[k..]);
    assert InHead(l, d', d.c / 2);
  }

  /** Collecting without finishing moves bytes from the channel to the receiver and nothing else. */
  lemma CollectKeeps(l: Link, d: Direction, k: nat)
    requires l.Ok() && Inv(l, d) && Enabled(l, d, Pull(k, 0))
    requires |Have(d.phase)| + k < Wanted(l, d.phase)
    ensures Inv(l, d.(phase := Collect(d.phase, Have(d.phase) + d.channel[..k]), channel := d.channel[k..]))
  {
    hide Params.Ok, Record, Wire, Params.At, Concat;
    AppendAssociates(Have(d.phase), d.channel[..k], d.channel[k..]);
    assert d.channel == d.channel[..k] + d.channel[k..];
  }

  /** A prefix of known length determines both parts. */
  lemma SameSplit(a: bytes, b: bytes, c: bytes, d: bytes)
    requires a + b == c + d && |a| == |c|
    ensures a == c && b == d
  {
    assert a == (a + b)[..|a|] && c == (c + d)[..|c|];
    assert b == (a + b)[|a|..] && d == (c + d)[|c|..];
  }

  lemma SaltDone(l: Link, d: Direction, have: bytes, channel: bytes)
    requires l.Ok() && Inv(l, d) && InSalt(l, d)
    requires have + channel == d.phase.have + d.channel && |have| == l.cipher.saltSize
    ensures Inv(l, Finish(l, d.(phase := Salt(have), channel := channel), 0))
    ensures forall n :: Finish(l, d.(phase := Salt(have), channel := channel), n)
                     == Finish(l, d.(phase := Salt(have), channel := channel), 0)
  {
    hide Params.Ok, Record, Wire, Params.At;
    SameSplit(have, channel, l.salt, Wire(l.p, 0, d.sent));
    var d' := Finish(l, d.(phase := Salt(have), channel := channel), 0);
    assert d.sent[0..] == d.sent && [] + channel == channel;
    assert InHead(l, d', 0);
  }

  lemma HeadDone(l: Link, d: Direction, have: bytes, channel: bytes, n: nat)
    requires l.Ok() && Inv(l, d) && InHead(l, d, d.c / 2) && d.leftover == []
    requires have + channel == d.phase.have + d.channel && |have| == l.p.HeadLen()
    ensures Inv(l, Finish(l, d.(phase := Head(d.phase.q, have), channel := channel), n))
  {
    hide IsMask, Record, Wire, Params.At, Concat, MaskedLength;
    var r, p := d.c / 2, l.p;
    WireNonEmpty(p, r, d.sent[r..]);
    var chunk, later := d.sent[r], Wire(p, r + 1, d.sent[r + 1..]);
    var head, body := p.aead.Seal(p.At(2 * r), Header(|chunk|)), p.aead.Seal(p.At(2 * r + 1), chunk);
    assert have + channel == head + (body + later) by {
      WireCons(p, r, d.sent[r..], []);
      assert d.sent[r..][1..] == d.sent[r + 1..];
      RecordIs(p, 2 * r, chunk, later);
      assert Wire(p, r, d.sent[r..]) + [] == Wire(p, r, d.sent[r..]) && later + [] == later;
    }
    p.aead.SealLaw(p.At(2 * r), Header(|chunk|));
    SameSplit(have, channel, head, body + later);
    MaskRoundTrip(p.mask, |chunk|);
    var d' := Finish(l, d.(phase := Head(d.phase.q, have), channel := channel), n);
    assert [] + channel == channel && d.delivered + [] == d.delivered;
    assert InPayload(l, d', r);
  }

  lemma RecordIs(p: Params, c: nat, chunk: bytes, later: bytes)
    ensures Record(p, c, chunk) + later
         == p.aead.Seal(p.At(c), Header(|chunk|)) + (p.aead.Seal(p.At(c + 1), chunk) + later)
  {
    hide Params.At;
  }

  lemma WireNonEmpty(p: Params, i: nat, chunks: seq<bytes>)
    ensures Wire(p, i, chunks) != [] ==> chunks != []
  {
  }

  lemma PayloadDone(l: Link, d: Direction, have: bytes, channel: bytes, n: nat)
    requires l.Ok() && Inv(l, d) && InPayload(l, d, d.c / 2)
    requires have + channel == d.phase.have + d.channel && |have| == d.phase.size + l.p.aead.overhead
    ensures Inv(l, Finish(l, d.(phase := Payload(d.phase.q, d.phase.size, have), channel := channel), n))
  {
    hide IsMask, Record, Wire, Params.At, Concat;
    var r, p := d.c / 2, l.p;
    var chunk, later := d.sent[r], Wire(p, r + 1, d.sent[r + 1..]);
    p.aead.SealLaw(p.At(2 * r + 1), chunk);
    SameSplit(have, channel, p.aead.Seal(p.At(2 * r + 1), chunk), later);
    var d' := Finish(l, d.(phase := Payload(d.phase.q, d.phase.size, have), channel := channel), n);
    var k := Reading.Min(n, |chunk|);
    assert Concat(d.sent[..r + 1]) == Concat(d.sent[..r]) + chunk by {
      assert d.sent[..r + 1] == d.sent[..r] + [chunk];
      ConcatAppend(d.sent[..r], [chunk]);
      ConcatOne(chunk);
    }
    AppendAssociates(d.delivered, chunk[..k], chunk[k..]);
    assert chunk == chunk[..k] + chunk[k..] && [] + channel == channel;
    assert InHead(l, d', r + 1);
  }

  lemma PullKeeps(l: Link, d: Direction, k: nat, n: nat)
    requires l.Ok() && Inv(l, d) && Enabled(l, d, Pull(k, n))
    ensures Inv(l, Next(l, d, Pull(k, n)))
  {
    hide Inv, Finish, Wire, Params.Ok;
    var have, channel := Have(d.phase) + d.channel[..k], d.channel[k..];
    assert have + channel == Have(d.phase) + d.channel;
    InvCases(l, d);
    if |have| < Wanted(l, d.phase) {
      CollectKeeps(l, d, k);
    } else {
      match d.phase
      case Salt(_) => SaltDone(l, d, have, channel);
      case Head(_, _) => HeadDone(l, d, have, channel, n);
      case Payload(_, _, _) => PayloadDone(l, d, have, channel, n);
    }
  }

  lemma InvCases(l: Link, d: Direction)
    requires Inv(l, d)
    ensures !d.phase.Failed?
    ensures d.phase.Salt? ==> InSalt(l, d)
    ensures d.phase.Head? ==> InHead(l, d, d.c / 2) && d.phase.q == l.p
    ensures d.phase.Payload? ==> InPayload(l, d, d.c / 2) && d.phase.q == l.p
  {
    hide Wire, Concat;
  }

  // ---------------------------------------------------------------- what the invariant means

  /** The plaintext still on its way: what the receiver would deliver of the bytes in flight. */
  function InFlight(l: Link, d: Direction): bytes {
    var wire := Have(d.phase) + d.channel;
    match d.phase
    case Salt(_) => Deliver(l.cipher, l.p.mask, EOF, Fresh(wire), [Reading.WriteTo])
    case Head(q, _) => Reading.Available(q, EOF, Reading.State(d.c, wire, []))
    case Payload(q, size, _) =>
      var s := ReadPayload(q, EOF, d.c, size, wire);
      if s.err.Some? then [] else Reading.Available(q, EOF, Reading.State(s.c, s.rest, s.payload))
    case Failed => []
  }

  lemma SentSplits(sent: seq<bytes>, r: nat)
    requires r <= |sent|
    ensures Concat(sent) == Concat(sent[..r]) + Concat(sent[r..])
  {
    ConcatAppend(sent[..r], sent[r..]);
    assert sent == sent[..r] + sent[r..];
  }

  lemma Conserved(l: Link, d: Direction)
    requires l.Ok() && Inv(l, d)
    ensures Concat(d.sent) == d.delivered + d.leftover + InFlight(l, d)
  {
    hide IsMask, Record, Wire, Params.At, Concat, DecodeAll, ReadPayload, AEAD.Lawful, Deliver;
    var r, p, wire := d.c / 2, l.p, Have(d.phase) + d.channel;
    InvCases(l, d);
    match d.phase
    case Salt(_) =>
      if d.started {
        ConnDelivers(l.cipher, p, l.salt, d.sent, []);
        assert [] + [Reading.WriteTo] == [Reading.WriteTo];
      } else {
        NothingSent(l);
      }
    case Head(_, _) =>
      WireDecodes(p, r, d.sent[r..]);
      SentSplits(d.sent, r);
    case Payload(_, _, _) =>
      var later := Wire(p, r + 1, d.sent[r + 1..]);
      PayloadOpens(p, EOF, d.c, d.sent[r], later);
      WireDecodes(p, r + 1, d.sent[r + 1..]);
      SentSplits(d.sent, r);
      assert Concat(d.sent[r..]) == d.sent[r] + Concat(d.sent[r + 1..]) by {
        assert d.sent[r..] == [d.sent[r]] + d.sent[r + 1..];
        ConcatAppend([d.sent[r]], d.sent[r + 1..]);
        ConcatOne(d.sent[r]);
      }
  }

  lemma NothingSent(l: Link)
    requires l.cipher.saltSize > 0
    ensures Concat([]) == [] && InFlight(l, IDLE) == []
  {
  }

  /** When nothing is in the channel of a started connection, everything sent has come out of the
      records: it is delivered or waits in the leftover. */
  lemma QuietMeansDelivered(l: Link, d: Direction)
    requires l.Ok() && Inv(l, d) && d.started && d.channel == []
    ensures d.phase == Head(l.p, []) && d.delivered + d.leftover == Concat(d.sent)
  {
    hide IsMask, Params.At, Concat, AEAD.Lawful;
    var r, p := d.c / 2, l.p;
    InvCases(l, d);
    assert Have(d.phase) + [] == Have(d.phase);
    match d.phase
    case Salt(_) =>
    case Head(_, _) =>
      if r < |d.sent| {
        RecordReads(p, EOF, 2 * r, d.sent[r], []);
      }
      assert d.sent[..r] == d.sent;
    case Payload(_, _, _) =>
      p.aead.SealLaw(p.At(2 * r + 1), d.sent[r]);
  }

  /** Pulling a whole header and then a whole payload is one Read of the reader. */
  lemma PullsRefineRead(l: Link, d: Direction, n: nat)
    requires l.Ok() && d.phase == Head(l.p, []) && d.leftover == []
    requires ReadRecord(l.p, EOF, d.c, d.channel).err.None?
    ensures var o := Reading.ReadCall(l.p, EOF, Reading.State(d.c, d.channel, []), n);
            var pull1 := Pull(l.p.HeadLen(), n);
            Enabled(l, d, pull1) &&
            var d1 := Next(l, d, pull1);
            d1.phase.Payload? &&
            var pull2 := Pull(d1.phase.size + l.p.aead.overhead, n);
            Enabled(l, d1, pull2) &&
            Next(l, d1, pull2) == d.(channel := o.state.rest, c := o.state.c, leftover := o.state.leftover,
                                     delivered := d.delivered + o.data)
  {
    hide IsMask, Params.At, MaskedLength;
    var p := l.p;
    var h := p.HeadLen();
    assert [] + d.channel[..h] == d.channel[..h];
    var size := MaskedLength(p.aead.Open(p.At(d.c), d.channel[..h]).value, p.mask);
    var later := d.channel[h..];
    assert [] + later[..size + p.aead.overhead] == later[..size + p.aead.overhead];
  }

  // ---------------------------------------------------------------- arriving in any pieces

  /** Bytes arrive in pieces of the given sizes during reads into a buffer of n bytes. */
  predicate PullsEnabled(l: Link, d: Direction, ks: seq<nat>, n: nat)
    decreases |ks|
  {
    ks == [] || (Enabled(l, d, Pull(ks[0], n)) && PullsEnabled(l, Next(l, d, Pull(ks[0], n)), ks[1..], n))
  }

  function Pulled(l: Link, d: Direction, ks: seq<nat>, n: nat): Direction
    requires PullsEnabled(l, d, ks, n)
    decreases |ks|
  {
    if ks == [] then d else Pulled(l, Next(l, d, Pull(ks[0], n)), ks[1..], n)
  }

  function Sum(ks: seq<nat>): nat {
    if ks == [] then 0 else ks[0] + Sum(ks[1..])
  }

  /** Two pieces are as good as one, as long as the first does not complete the phase. */
  lemma PullTwice(l: Link, d: Direction, k1: nat, k2: nat, n: nat)
    requires Enabled(l, d, Pull(k1, n)) && |Have(d.phase)| + k1 < Wanted(l, d.phase)
    requires Enabled(l, Next(l, d, Pull(k1, n)), Pull(k2, n))
    ensures Enabled(l, d, Pull(k1 + k2, n))
    ensures Next(l, Next(l, d, Pull(k1, n)), Pull(k2, n)) == Next(l, d, Pull(k1 + k2, n))
  {
    hide Finish;
    var have, ch := Have(d.phase), d.channel;
    Pieces(have, ch, k1, k2);
    PieceKept(l, d, k1, n);
  }

  lemma Pieces(have: bytes, ch: bytes, k1: nat, k2: nat)
    requires k1 <= |ch| && k2 <= |ch| - k1
    ensures (have + ch[..k1]) + ch[k1..][..k2] == have + ch[..k1 + k2] && ch[k1..][k2..] == ch[k1 + k2..]
  {
    assert ch[..k1] + ch[k1..][..k2] == ch[..k1 + k2];
    AppendAssociates(have, ch[..k1], ch[k1..][..k2]);
  }

  /** However the missing bytes of a phase arrive, it is as if they had arrived at once. */
  lemma {:induction false} PhaseCompleted(l: Link, d: Direction, ks: seq<nat>, n: nat) returns (j: nat)
    requires PullsEnabled(l, d, ks, n) && |Have(d.phase)| < Wanted(l, d.phase)
    requires Sum(ks) >= Wanted(l, d.phase) - |Have(d.phase)|
    ensures var need := Wanted(l, d.phase) - |Have(d.phase)|;
            && j <= |ks| && Sum(ks[j..]) == Sum(ks) - need
            && Enabled(l, d, Pull(need, n))
            && PullsEnabled(l, Next(l, d, Pull(need, n)), ks[j..], n)
            && Pulled(l, d, ks, n) == Pulled(l, Next(l, d, Pull(need, n)), ks[j..], n)
    decreases |ks|
  {
    hide Next, Enabled, Wanted, Have;
    var need := Wanted(l, d.phase) - |Have(d.phase)|;
    var k := ks[0];
    var d1 := Next(l, d, Pull(k, n));
    PullBounds(l, d, k, n);
    if k == need {
      j := 1;
    } else {
      PieceKept(l, d, k, n);
      j := PhaseCompleted(l, d1, ks[1..], n);
      PullTwice(l, d, k, need - k, n);
      assert ks[1..][j..] == ks[j + 1..];
      j := j + 1;
    }
  }

  lemma PullBounds(l: Link, d: Direction, k: nat, n: nat)
    requires Enabled(l, d, Pull(k, n))
    ensures 0 < k && |Have(d.phase)| + k <= Wanted(l, d.phase)
  {
  }

  lemma PieceKept(l: Link, d: Direction, k: nat, n: nat)
    requires Enabled(l, d, Pull(k, n)) && |Have(d.phase)| + k < Wanted(l, d.phase)
    ensures var d1 := Next(l, d, Pull(k, n));
            Wanted(l, d1.phase) == Wanted(l, d.phase) && |Have(d1.phase)| == |Have(d.phase)| + k
  {
  }

  lemma NoPieces(l: Link, d: Direction, ks: seq<nat>, n: nat)
    requires PullsEnabled(l, d, ks, n) && Sum(ks) == 0
    ensures ks == []
  {
  }

  /** However a record arrives, in pieces of whatever sizes, it is one Read of the reader. */
  lemma AnyPullsRead(l: Link, d: Direction, ks: seq<nat>, n: nat)
    requires l.Ok() && d.phase == Head(l.p, []) && d.leftover == [] && PullsEnabled(l, d, ks, n)
    ensures var s := ReadRecord(l.p, EOF, d.c, d.channel);
            var o := Reading.ReadCall(l.p, EOF, Reading.State(d.c, d.channel, []), n);
            s.err.None? && Sum(ks) == |d.channel| - |s.rest| ==>
              Pulled(l, d, ks, n) == d.(channel := o.state.rest, c := o.state.c, leftover := o.state.leftover,
                                        delivered := d.delivered + o.data)
  {
    hide ReadRecord, Next, Params.Ok, Enabled;
    var s := ReadRecord(l.p, EOF, d.c, d.channel);
    if s.err.None? && Sum(ks) == |d.channel| - |s.rest| {
      PullsRefineRead(l, d, n);
      RecordNeeds(l, d, n);
      var j1 := PhaseCompleted(l, d, ks, n);
      var d1 := Next(l, d, Pull(l.p.HeadLen(), n));
      var ks1 := ks[j1..];
      var j2 := PhaseCompleted(l, d1, ks1, n);
      var d2 := Next(l, d1, Pull(d1.phase.size + l.p.aead.overhead, n));
      NoPieces(l, d2, ks1[j2..], n);
    }
  }

  /** A record takes a header and then the payload that the header announces. */
  lemma RecordNeeds(l: Link, d: Direction, n: nat)
    requires l.Ok() && d.phase == Head(l.p, []) && d.leftover == []
    requires ReadRecord(l.p, EOF, d.c, d.channel).err.None?
    ensures Enabled(l, d, Pull(l.p.HeadLen(), n))
    ensures var s, d1 := ReadRecord(l.p, EOF, d.c, d.channel), Next(l, d, Pull(l.p.HeadLen(), n));
            && d1.phase.Payload? && d1.phase.q == l.p && d1.phase.have == []
            && |d.channel| - |s.rest| == l.p.HeadLen() + d1.phase.size + l.p.aead.overhead
            && l.p.aead.overhead > 0
  {
    hide IsMask, Params.At, MaskedLength;
    assert [] + d.channel[..l.p.HeadLen()] == d.channel[..l.p.HeadLen()];
  }

  /** A read that is served from the leftover is the reader's. */
  lemma DrainIsRead(l: Link, d: Direction, n: nat, rest: bytes)
    requires Enabled(l, d, Drain(n))
    ensures var o := Reading.ReadCall(l.p, EOF, Reading.State(d.c, rest, d.leftover), n);
            && o.err == None && o.state.c == d.c && o.state.rest == rest
            && Next(l, d, Drain(n)) == d.(leftover := o.state.leftover, delivered := d.delivered + o.data)
  {
  }

  /** However the salt arrives, it is initReader. */
  lemma AnyPullsBegin(l: Link, d: Direction, ks: seq<nat>, n: nat)
    requires l.cipher.saltSize > 0 && d.phase == Salt([]) && d.leftover == [] && |d.channel| >= l.cipher.saltSize
    requires PullsEnabled(l, d, ks, n) && Sum(ks) == l.cipher.saltSize
    ensures Pulled(l, d, ks, n)
         == match Begin(l.cipher, l.p.mask, EOF, d.channel)
            case Begun(Started(p, s), _) => d.(phase := Head(p, []), channel := s.rest)
            case Begun(Fresh(later), _) => d.(phase := Failed, channel := later)
  {
    hide PullsEnabled, Pulled;
    var j := PhaseCompleted(l, d, ks, n);
    var d1 := Next(l, d, Pull(l.cipher.saltSize, n));
    NoPieces(l, d1, ks[j..], n);
    PulledNothing(l, d1, n);
    assert [] + d.channel[..l.cipher.saltSize] == d.channel[..l.cipher.saltSize];
  }

  lemma PulledNothing(l: Link, d: Direction, n: nat)
    ensures PullsEnabled(l, d, [], n) && Pulled(l, d, [], n) == d
  {
  }

  // ---------------------------------------------------------------- sending

  function SendAll(l: Link, d: Direction, chunks: seq<bytes>): Direction
    requires d.started && forall i | 0 <= i < |chunks| :: 0 < |chunks[i]| <= l.p.mask
    decreases |chunks|
  {
    if chunks == [] then d else SendAll(l, Next(l, d, Send(chunks[0])), chunks[1..])
  }

  lemma {:induction false} SendsAreWire(l: Link, d: Direction, chunks: seq<bytes>)
    requires d.started && forall i | 0 <= i < |chunks| :: 0 < |chunks[i]| <= l.p.mask
    ensures SendAll(l, d, chunks)
         == d.(sent := d.sent + chunks, channel := d.channel + Wire(l.p, |d.sent|, chunks))
    decreases |chunks|
  {
    hide Record;
    if chunks == [] {
      assert d.sent + [] == d.sent && d.channel + [] == d.channel;
    } else {
      var d1 := Next(l, d, Send(chunks[0]));
      SendsAreWire(l, d1, chunks[1..]);
      assert [chunks[0]] + chunks[1..] == chunks;
      assert d.sent + chunks == d1.sent + chunks[1..];
      AppendAssociates(d.channel, Record(l.p, 2 * |d.sent|, chunks[0]), Wire(l.p, |d.sent| + 1, chunks[1..]));
    }
  }

  /** The steps of a sender put on the channel what the connection's Write and ReadFrom put on the wire
      for the same chunks: the salt at first use, and the records. */
  lemma SendsAreWrites(l: Link, d: Direction, chunks: seq<bytes>)
    requires Inv(l, d) && Full(chunks, l.p.mask)
    ensures var d0 := if d.started then d else Next(l, d, Start);
            var head := if d.started then [] else l.salt;
            SendAll(l, d0, chunks)
            == d0.(sent := d.sent + chunks, channel := d.channel + (head + Wire(l.p, |d.sent|, chunks)))
  {
    hide Wire, InSalt, InHead, InPayload;
    var d0 := if d.started then d else Next(l, d, Start);
    SendsAreWire(l, d0, chunks);
    AppendAssociates(d.channel, if d.started then [] else l.salt, Wire(l.p, |d.sent|, chunks));
    assert d.channel + [] == d.channel;
  }

  // ---------------------------------------------------------------- both directions, every interleaving

  /** A connection: what the client sends and what the server sends. */
  datatype System = System(up: Direction, down: Direction)

  ghost predicate StepOf(l: Link, d: Direction, d': Direction) {
    exists a :: Enabled(l, d, a) && d' == Next(l, d, a)
  }

  ghost predicate SystemStep(up: Link, down: Link, s: System, s': System) {
    || (StepOf(up, s.up, s'.up) && s'.down == s.down)
    || (StepOf(down, s.down, s'.down) && s'.up == s.up)
  }

  ghost predicate Behaviour(up: Link, down: Link, trace: seq<System>) {
    && trace != [] && trace[0] == System(IDLE, IDLE)
    && forall i | 0 < i < |trace| :: SystemStep(up, down, trace[i - 1], trace[i])
  }

  lemma NextKeeps(l: Link, d: Direction, a: Act)
    requires l.Ok() && Inv(l, d) && Enabled(l, d, a)
    ensures Inv(l, Next(l, d, a))
  {
    hide Inv, Next, Enabled;
    match a
    case Start => StartKeeps(l, d);
    case Send(chunk) => SendKeeps(l, d, chunk);
    case Pull(k, n) => PullKeeps(l, d, k, n);
    case Drain(n) => DrainKeeps(l, d, n);
  }

  lemma StepKeeps(l: Link, d: Direction, d': Direction)
    requires l.Ok() && Inv(l, d) && StepOf(l, d, d')
    ensures Inv(l, d')
  {
    hide Inv, Next, Enabled;
    var a :| Enabled(l, d, a) && d' == Next(l, d, a);
    NextKeeps(l, d, a);
  }

  lemma {:induction false} BehaviourInv(up: Link, down: Link, trace: seq<System>, i: nat)
    requires up.Ok() && down.Ok() && Behaviour(up, down, trace) && i < |trace|
    ensures Inv(up, trace[i].up) && Inv(down, trace[i].down)
  {
    hide Inv, StepOf, Link.Ok;
    if i == 0 {
      IdleInv(up);
      IdleInv(down);
    } else {
      BehaviourInv(up, down, trace, i - 1);
      if StepOf(up, trace[i - 1].up, trace[i].up) && trace[i].down == trace[i - 1].down {
        StepKeeps(up, trace[i - 1].up, trace[i].up);
      } else {
        StepKeeps(down, trace[i - 1].down, trace[i].down);
      }
    }
  }

  /** In every state of every interleaving, in each direction: no record ever fails to open; what was
      sent is what was delivered, what is left over, and what is on its way, in this order; and with
      an empty channel nothing is on its way. */
  lemma Safety(up: Link, down: Link, trace: seq<System>, i: nat)
    requires up.Ok() && down.Ok() && Behaviour(up, down, trace) && i < |trace|
    ensures Settled(up, trace[i].up) && Settled(down, trace[i].down)
  {
    hide Inv, InFlight, Link.Ok;
    BehaviourInv(up, down, trace, i);
    SettledBy(up, trace[i].up);
    SettledBy(down, trace[i].down);
  }

  /** The receiver can always go on: from the leftover, or with the next byte of the channel. */
  lemma NeverStuck(l: Link, d: Direction, n: nat)
    requires l.Ok() && Inv(l, d) && d.delivered + d.leftover != Concat(d.sent)
    ensures Enabled(l, d, Drain(n)) || Enabled(l, d, Pull(1, n))
  {
    hide IsMask, Params.At, Concat, Wire;
    InvCases(l, d);
    if d.channel == [] && d.started {
      QuietMeansDelivered(l, d);
    }
    if !d.started {
      NothingSent(l);
    }
  }

  ghost predicate Settled(l: Link, d: Direction) {
    && !d.phase.Failed?
    && Concat(d.sent) == d.delivered + d.leftover + InFlight(l, d)
    && (d.started && d.channel == [] ==> d.delivered + d.leftover == Concat(d.sent))
  }

  lemma SettledBy(l: Link, d: Direction)
    requires l.Ok() && Inv(l, d)
    ensures Settled(l, d)
  {
    hide Inv, InFlight, Link.Ok, Concat;
    InvCases(l, d);
    Conserved(l, d);
    if d.started && d.channel == [] {
      QuietMeansDelivered(l, d);
    }
  }
}
