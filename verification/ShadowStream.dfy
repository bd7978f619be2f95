/** The stream-cipher layer: reader and writer chunk the connection independently of each other. */
module ShadowStream {
  import opened Bytes
  import opened Io
  import opened StreamCipher

  /** The state of one cipher.Stream. */
  class Stream<S> {
    const f: Machine<S>
    var s: S

    constructor (f: Machine<S>, s: S)
      ensures this.f == f && this.s == s
    {
      this.f, this.s := f, s;
    }

    /** XORKeyStream of a slice onto itself. */
    method XORKeyStream(buf: array<byte>, lo: nat, hi: nat)
      requires lo <= hi <= buf.Length
      modifies this, buf
      ensures (s, buf[lo..hi]) == Run(f, old(s), old(buf[lo..hi]))
      ensures forall i | 0 <= i < lo || hi <= i < buf.Length :: buf[i] == old(buf[i])
    {
      ghost var was := buf[..];
      for i := lo to hi
        invariant forall k | 0 <= k < lo || i <= k < buf.Length :: buf[k] == was[k]
        invariant (s, buf[lo..i]) == Run(f, old(s), was[lo..i])
      {
        ghost var done := buf[lo..i];
        RunOne(f, old(s), was[lo..i], was[i]);
        var (s', y) := f(s, buf[i]);
        buf[i] := y;
        s := s';
        assert was[lo..i + 1] == was[lo..i] + [was[i]];
        assert buf[lo..i + 1] == done + [y];
      }
      assert was[lo..hi] == old(buf[lo..hi]);
    }
  }

  lemma RunOne<S>(f: Machine<S>, s: S, a: bytes, x: byte)
    ensures var (s1, y) := Run(f, s, a);
            Run(f, s, a + [x]) == (f(s1, x).0, y + [f(s1, x).1])
  {
    RunAppend(f, s, a, [x]);
    var s1 := Run(f, s, a).0;
    assert [x][1..] == [] && Run(f, f(s1, x).0, []).1 == [];
    assert Run(f, s1, [x]).1 == [f(s1, x).1];
  }

  class Writer<S> {
    const sink: Sink
    const stream: Stream<S>
    const buf: array<byte>

    constructor (sink: Sink, stream: Stream<S>, buf: array<byte>)
      ensures this.sink == sink && this.stream == stream && this.buf == buf
    {
      this.sink, this.stream, this.buf := sink, stream, buf;
    }

    /** The first n bytes of the buffer are encrypted and go out in one write behind the vector. */
    method SendBehind(iv: bytes, n: nat) returns (ok: bool)
      requires n <= buf.Length
      modifies stream, buf, sink
      ensures ok <==> sink.failures == old(sink.failures)
      ensures var r := Run(stream.f, old(stream.s), old(buf[0..n]));
              var both := old(sink.out) + (iv + r.1);
              stream.s == r.0 && if ok then sink.out == both else old(sink.out) <= sink.out <= both
    {
      hide Run;
      stream.XORKeyStream(buf, 0, n);
      var both := iv + buf[0..n];
      var nw;
      nw, ok := sink.Write(both);
      assert ok ==> both[..nw] == both;
    }

    /** Everything the source delivers is encrypted as one stream, however it was cut. */
    method ReadFrom(src: Source) returns (n: nat, err: Option<IOErr>)
      requires buf.Length > 0
      modifies sink, stream, buf, src
      ensures var r := Run(stream.f, old(stream.s), old(src.Rest()));
              if sink.failures == old(sink.failures) then
                && sink.out == old(sink.out) + r.1 && stream.s == r.0 && src.frags == []
                && n == |r.1| && err == (if src.fin == EOF then None else Some(src.fin))
              else old(sink.out) <= sink.out <= old(sink.out) + r.1 && err == Some(WriteFailed)
    {
      hide Fetch, Concat, Run;
      ghost var all, out0, s0, failures0 := src.Rest(), sink.out, stream.s, sink.failures;
      ghost var got: bytes := [];
      n, err := 0, None;
      assert Run(stream.f, s0, []) == (s0, []) && out0 + [] == out0 by { RunNothing(stream.f, s0); }
      var er: Option<IOErr> := None;
      while er.None?
        invariant all == got + src.Rest() && n == |got|
        invariant stream.s == Run(stream.f, s0, got).0 && sink.out == out0 + Run(stream.f, s0, got).1
        invariant sink.failures == failures0
        invariant er == None || (er == Some(src.fin) && src.frags == [])
        decreases er.None?, Weight(src.frags)
      {
        var nr;
        nr, er := src.Read(buf, 0, buf.Length);
        ghost var chunk := buf[0..nr];
        AppendAssociates(got, chunk, src.Rest());
        if nr > 0 {
          n := n + nr;
          stream.XORKeyStream(buf, 0, nr);
          var nw, ok := sink.Write(buf[0..nr]);
          RunAppend(stream.f, s0, got, chunk);
          ghost var sealed := Run(stream.f, s0, got + chunk).1;
          AppendAssociates(out0, Run(stream.f, s0, got).1, buf[0..nr]);
          if !ok {
            RunPrefix(stream.f, s0, got + chunk, all);
            assert sink.out <= out0 + sealed;
            return n, Some(WriteFailed);
          }
          assert buf[0..nr][..nw] == buf[0..nr];
        } else {
          assert got + chunk == got;
        }
        got := got + chunk;
      }
      assert src.Rest() == [] by { ConcatNothing(); }
      assert got + [] == got;
      err := if src.fin == EOF then None else er;
    }
  }

  /** Whether a read that leaves `later` comes with the source's final error. */
  predicate Ends(frags: seq<bytes>, later: seq<bytes>, together: bool) {
    later == [] && (together || frags == [])
  }

  class Reader<S> {
    const src: Source
    const stream: Stream<S>
    const buf: array<byte>

    constructor (src: Source, stream: Stream<S>, buf: array<byte>)
      ensures this.src == src && this.stream == stream && this.buf == buf
    {
      this.src, this.stream, this.buf := src, stream, buf;
    }

    /** What one read of the connection gives is decrypted in the caller's buffer; what comes
        along with an error is dropped. */
    method Read(b: array<byte>) returns (n: nat, err: Option<IOErr>)
      modifies src, stream, b
      ensures var f := Fetch(old(src.frags), b.Length);
              && src.frags == f.frags
              && if Ends(old(src.frags), f.frags, src.together) then
                   n == 0 && err == Some(src.fin) && stream.s == old(stream.s)
                 else
                   && err == None && n == |f.data|
                   && (stream.s, b[..n]) == Run(stream.f, old(stream.s), f.data)
      ensures err.None? && b.Length > 0 ==> Weight(src.frags) < Weight(old(src.frags))
    {
      hide Fetch, Run;
      n, err := src.Read(b, 0, b.Length);
      if err.Some? {
        return 0, err;
      }
      ghost var data := Fetch(old(src.frags), b.Length).data;
      assert b[0..n] == data;
      stream.XORKeyStream(b, 0, n);
      assert b[..n] == b[0..n];
    }

    /** Everything that arrives without an error is decrypted as one stream. */
    method WriteTo(sink: Sink) returns (n: nat, err: Option<IOErr>)
      requires buf.Length > 0
      modifies src, stream, buf, sink
      ensures var d := DecryptAll(stream.f, old(stream.s), old(src.frags), src.together, buf.Length);
              if sink.failures == old(sink.failures) then
                && sink.out == old(sink.out) + d && n == |d| && src.frags == []
                && err == (if src.fin == EOF then None else Some(src.fin))
              else old(sink.out) <= sink.out <= old(sink.out) + d && err == Some(WriteFailed)
    {
      hide Fetch, Concat, Run, DecryptAll;
      ghost var out0, failures0 := sink.out, sink.failures;
      ghost var all := DecryptAll(stream.f, stream.s, src.frags, src.together, buf.Length);
      ghost var done: bytes := [];
      n, err := 0, None;
      assert out0 + [] == out0 && [] + all == all;
      var er: Option<IOErr> := None;
      while er.None?
        invariant sink.failures == failures0 && sink.out == out0 + done && n == |done|
        invariant er.None? ==> all == done + DecryptAll(stream.f, stream.s, src.frags, src.together, buf.Length)
        invariant er.Some? ==> all == done && er == Some(src.fin) && src.frags == []
        decreases er.None?, Weight(src.frags)
      {
        DecryptNext(stream.f, stream.s, src.frags, src.together, buf.Length);
        ghost var frags := src.frags;
        var nr;
        nr, er := Read(buf);
        if nr > 0 {
          ghost var plain := buf[..nr];
          ghost var later := DecryptAll(stream.f, stream.s, src.frags, src.together, buf.Length);
          var nw, ok := sink.Write(buf[..nr]);
          n := n + nw;
          AppendAssociates(out0, done, plain[..nw]);
          AppendAssociates(done, plain, later);
          if !ok {
            Within(out0, done, plain, nw, later);
            return n, Some(WriteFailed);
          }
          assert plain[..nw] == plain;
          done := done + plain;
        } else if er.None? {
          assert buf[..nr] == [];
          assert [] + DecryptAll(stream.f, stream.s, src.frags, src.together, buf.Length)
              == DecryptAll(stream.f, stream.s, src.frags, src.together, buf.Length);
        } else {
          assert done + [] == done;
        }
      }
      err := if er == Some(EOF) then None else er;
    }
  }

  lemma Within(out: bytes, done: bytes, plain: bytes, nw: nat, later: bytes)
    requires nw <= |plain|
    ensures out <= out + (done + plain[..nw]) <= out + (done + plain + later)
  {
    assert done + plain + later == (done + plain[..nw]) + (plain[nw..] + later);
    AppendAssociates(out, done + plain[..nw], plain[nw..] + later);
  }

  lemma RunNothing<S>(f: Machine<S>, s: S)
    ensures Run(f, s, []) == (s, [])
  {
  }

  // ---------------------------------------------------------------- reading in any pieces

  /** What reads into buffers of `cap` bytes deliver up to the end of the source. */
  function DecryptAll<S>(f: Machine<S>, s: S, frags: seq<bytes>, together: bool, cap: nat): bytes
    requires cap > 0
    decreases Weight(frags)
  {
    var got := Fetch(frags, cap);
    if Ends(frags, got.frags, together) then []
    else
      FetchKeeps(frags, cap);
      var (s', plain) := Run(f, s, got.data);
      plain + DecryptAll(f, s', got.frags, together, cap)
  }

  lemma DecryptNext<S>(f: Machine<S>, s: S, frags: seq<bytes>, together: bool, cap: nat)
    requires cap > 0
    ensures var got := Fetch(frags, cap);
            DecryptAll(f, s, frags, together, cap)
            == if Ends(frags, got.frags, together) then []
               else Run(f, s, got.data).1 + DecryptAll(f, Run(f, s, got.data).0, got.frags, together, cap)
  {
  }

  /** The source reports its final error together with its last bytes. */
  predicate EndsFull(frags: seq<bytes>, together: bool) {
    together && LastFull(frags)
  }

  lemma LastRead(frags: seq<bytes>, together: bool, cap: nat)
    ensures var got := Fetch(frags, cap);
            if Ends(frags, got.frags, together) then got.data != [] <==> EndsFull(frags, together)
            else EndsFull(frags, together) <==> EndsFull(got.frags, together)
  {
    FetchLast(frags, cap);
  }

  /** WriteTo delivers the whole decrypted stream exactly unless the source reports its final error
      together with its last bytes. */
  lemma {:induction false} DecryptAllExact<S>(f: Machine<S>, s: S, frags: seq<bytes>, together: bool, cap: nat)
    requires cap > 0
    ensures var part, all := DecryptAll(f, s, frags, together, cap), Run(f, s, Concat(frags)).1;
            part <= all && (part == all <==> !EndsFull(frags, together))
    decreases Weight(frags)
  {
    hide Fetch, Run, Concat, Weight, EndsFull;
    var got := Fetch(frags, cap);
    FetchKeeps(frags, cap);
    LastRead(frags, together, cap);
    if Ends(frags, got.frags, together) {
      ConcatNothing();
      assert got.data + [] == got.data;
    } else {
      RunAppend(f, s, got.data, Concat(got.frags));
      DecryptAllExact(f, Run(f, s, got.data).0, got.frags, together, cap);
    }
  }

  datatype Reading = Reading(plain: bytes, dropped: bytes, ended: bool)

  /** Reads into buffers of the given sizes, up to the first error. */
  function ReadMany<S>(f: Machine<S>, s: S, frags: seq<bytes>, together: bool, sizes: seq<nat>): Reading
    decreases |sizes|
  {
    if sizes == [] then Reading([], [], false)
    else
      var got := Fetch(frags, sizes[0]);
      if Ends(frags, got.frags, together) then Reading([], got.data, true)
      else
        var (s', plain) := Run(f, s, got.data);
        var r := ReadMany(f, s', got.frags, together, sizes[1..]);
        r.(plain := plain + r.plain)
  }

  /** Any sequence of reads delivers a prefix of the decrypted stream, and at the end all of it but
      what came along with the final error, which is nothing exactly unless the source ends that way. */
  lemma {:induction false} ReadManyDecrypts<S>(f: Machine<S>, s: S, frags: seq<bytes>, together: bool, sizes: seq<nat>)
    ensures var r, all := ReadMany(f, s, frags, together, sizes), Run(f, s, Concat(frags)).1;
            && r.plain <= all
            && (r.ended ==> |r.plain| + |r.dropped| == |all|)
            && (r.ended ==> (r.dropped != [] <==> EndsFull(frags, together)))
    decreases |sizes|
  {
    hide Fetch, Run, Concat, EndsFull;
    var all := Run(f, s, Concat(frags)).1;
    if sizes != [] {
      var got := Fetch(frags, sizes[0]);
      FetchKeeps(frags, sizes[0]);
      LastRead(frags, together, sizes[0]);
      if Ends(frags, got.frags, together) {
        ConcatNothing();
        assert got.data + [] == got.data;
      } else {
        var (s', plain) := Run(f, s, got.data);
        RunAppend(f, s, got.data, Concat(got.frags));
        ReadManyDecrypts(f, s', got.frags, together, sizes[1..]);
      }
    }
  }

  /** Round trip for any cutting of the plaintext by the writer and of the wire by the network and the
      readers: the reads give a prefix of the plaintext, and once they have reached the end all of it,
      exactly unless the source reports its final error together with its last bytes. */
  lemma ChunkingIndependent<S(!new)>(ciph: Cipher<S>, iv: bytes, plain: bytes, frags: seq<bytes>, together: bool,
                                     sizes: seq<nat>)
    requires Undoes(ciph.enc, ciph.dec)
    requires Concat(frags) == ciph.Encrypt(iv, plain)
    ensures var r := ReadMany(ciph.dec, ciph.start(iv), frags, together, sizes);
            r.plain <= plain && (r.ended ==> (r.plain == plain <==> !EndsFull(frags, together)))
  {
    hide ReadMany, Run, Concat, Undoes, EndsFull;
    ReadManyDecrypts(ciph.dec, ciph.start(iv), frags, together, sizes);
    DecryptsEncrypted(ciph, iv, plain);
  }

  // ---------------------------------------------------------------- from one connection to the other

  /** What successive writes of a connection put on the wire behind the vector. */
  function Written<S>(f: Machine<S>, s: S, writes: seq<bytes>): bytes {
    if writes == [] then []
    else Run(f, s, writes[0]).1 + Written(f, Run(f, s, writes[0]).0, writes[1..])
  }

  lemma {:induction false} WrittenIsOne<S>(f: Machine<S>, s: S, writes: seq<bytes>)
    ensures Written(f, s, writes) == Run(f, s, Concat(writes)).1
    decreases |writes|
  {
    hide Run;
    if writes == [] {
      RunNothing(f, s);
    } else {
      WrittenIsOne(f, Run(f, s, writes[0]).0, writes[1..]);
      RunAppend(f, s, writes[0], Concat(writes[1..]));
    }
  }

  /** Where the receiving connection stands once it has read the vector. */
  datatype Incoming<!S> = Incoming(s: S, frags: seq<bytes>)

  function Begin<S>(ciph: Cipher<S>, frags: seq<bytes>): Incoming<S>
    requires |Concat(frags)| >= ciph.ivSize
  {
    Incoming(ciph.start(Concat(frags)[..ciph.ivSize]), Skip(frags, ciph.ivSize))
  }

  /** From one connection to the other: whatever the writes, the fragments and the buffers, Read
      delivers a prefix of what was written and WriteTo too; at the end it is all of it exactly unless
      there was something and the source reports its final error together with its last bytes. */
  lemma ConnCarries<S(!new)>(ciph: Cipher<S>, iv: bytes, writes: seq<bytes>, frags: seq<bytes>, together: bool,
                             sizes: seq<nat>, cap: nat)
    requires Undoes(ciph.enc, ciph.dec) && |iv| == ciph.ivSize && cap > 0
    requires Concat(frags) == iv + Written(ciph.enc, ciph.start(iv), writes)
    ensures var plain, start := Concat(writes), Begin(ciph, frags);
            var r := ReadMany(ciph.dec, start.s, start.frags, together, sizes);
            var copied := DecryptAll(ciph.dec, start.s, start.frags, together, cap);
            && r.plain <= plain && copied <= plain
            && (r.ended ==> (r.plain == plain <==> plain == [] || !EndsFull(frags, together)))
            && (copied == plain <==> plain == [] || !EndsFull(frags, together))
  {
    hide ReadMany, DecryptAll, Run, Concat, Undoes, Skip, Written, LastFull;
    var plain := Concat(writes);
    WrittenIsOne(ciph.enc, ciph.start(iv), writes);
    SkipKeeps(frags, ciph.ivSize);
    var sealed := ciph.Encrypt(iv, plain);
    assert (iv + sealed)[..|iv|] == iv && (iv + sealed)[|iv|..] == sealed;
    var later := Skip(frags, ciph.ivSize);
    ConcatNothing();
    ChunkingIndependent(ciph, iv, plain, later, together, sizes);
    DecryptAllExact(ciph.dec, ciph.start(iv), later, together, cap);
    DecryptsEncrypted(ciph, iv, plain);
  }

  // ---------------------------------------------------------------- the connection

  datatype Transfer = Transfer(wire: bytes, n: nat, err: Option<IOErr>)

  function EndError(fin: IOErr): Option<IOErr> {
    if fin == EOF then None else Some(fin)
  }

  /** What initWriter followed by the writer's ReadFrom does. */
  function PlainTransfer<S>(ciph: Cipher<S>, iv: bytes, frags: seq<bytes>, fin: IOErr): Transfer {
    Transfer(iv + ciph.Encrypt(iv, Concat(frags)), |Concat(frags)|, EndError(fin))
  }

  /** What the merged path does: the vector goes out with the first bytes read, if there are any. */
  function MergedTransfer<S>(ciph: Cipher<S>, iv: bytes, frags: seq<bytes>, fin: IOErr, together: bool, cap: nat)
    : Transfer
  {
    var got := Fetch(frags, cap);
    if Ends(frags, got.frags, together) then Transfer([], 0, Some(fin))
    else
      var (s', first) := Run(ciph.enc, ciph.start(iv), got.data);
      Transfer((if got.data == [] then [] else iv + first) + Run(ciph.enc, s', Concat(got.frags)).1,
               |Concat(frags)|, EndError(fin))
  }

  /** What the writer's ReadFrom does on a connection that has sent before. */
  function Continued<S>(f: Machine<S>, s: S, frags: seq<bytes>, fin: IOErr): Transfer {
    Transfer(Run(f, s, Concat(frags)).1, |Concat(frags)|, EndError(fin))
  }

  predicate FirstReadGood(frags: seq<bytes>, together: bool, cap: nat) {
    Fetch(frags, cap).data != [] && !Ends(frags, Fetch(frags, cap).frags, together)
  }

  /** The merged path puts the same bytes on the wire and reports the same as the plain one exactly
      when the first read gives at least one byte and no error. */
  lemma MergedExact<S>(ciph: Cipher<S>, iv: bytes, frags: seq<bytes>, fin: IOErr, together: bool, cap: nat)
    requires |iv| > 0
    ensures MergedTransfer(ciph, iv, frags, fin, together, cap) == PlainTransfer(ciph, iv, frags, fin)
            <==> FirstReadGood(frags, together, cap)
  {
    hide Fetch, Run, Concat;
    var got := Fetch(frags, cap);
    FetchKeeps(frags, cap);
    RunAppend(ciph.enc, ciph.start(iv), got.data, Concat(got.frags));
    var (s', first) := Run(ciph.enc, ciph.start(iv), got.data);
    AppendAssociates(iv, first, Run(ciph.enc, s', Concat(got.frags)).1);
  }

  /** What a receiver makes of each transfer: the plain one carries the source; the merged one does if its
      first read was good, and else sends nothing at all, or everything but the vector; the one on a
      connection that has sent before continues its stream. All report the source's own error. */
  lemma TransfersCarry<S(!new)>(ciph: Cipher<S>, iv: bytes, frags: seq<bytes>, fin: IOErr, together: bool, cap: nat,
                                s: S)
    requires Undoes(ciph.enc, ciph.dec) && |iv| == ciph.ivSize
    ensures var all, err := Concat(frags), if fin == EOF then None else Some(fin);
            var plain := PlainTransfer(ciph, iv, frags, fin);
            var merged := MergedTransfer(ciph, iv, frags, fin, together, cap);
            var continued := Continued(ciph.enc, s, frags, fin);
            && plain == Transfer(plain.wire, |all|, err) && Carries(ciph, plain.wire, all)
            && continued == Transfer(continued.wire, |all|, err) && Run(ciph.dec, s, continued.wire).1 == all
            && (if FirstReadGood(frags, together, cap) then
                  merged == Transfer(merged.wire, |all|, err) && Carries(ciph, merged.wire, all)
                else if Ends(frags, Fetch(frags, cap).frags, together) then merged == Transfer([], 0, Some(fin))
                else merged == Transfer(merged.wire, |all|, err) && merged.wire == ciph.Encrypt(iv, all))
  {
    hide Fetch, Run, Concat, Undoes;
    var got := Fetch(frags, cap);
    FetchKeeps(frags, cap);
    DecryptsEncrypted(ciph, iv, Concat(frags));
    RunUndone(ciph.enc, ciph.dec, s, Concat(frags));
    var sealed := ciph.Encrypt(iv, Concat(frags));
    assert (iv + sealed)[..ciph.ivSize] == iv && (iv + sealed)[ciph.ivSize..] == sealed;
    RunAppend(ciph.enc, ciph.start(iv), got.data, Concat(got.frags));
    var (s', first) := Run(ciph.enc, ciph.start(iv), got.data);
    AppendAssociates(iv, first, Run(ciph.enc, s', Concat(got.frags)).1);
    if got.data == [] {
      RunNothing(ciph.enc, ciph.start(iv));
      assert [] + Concat(got.frags) == Concat(got.frags);
      assert [] + sealed == sealed;
    }
  }

  /** The vector is at the front of the wire, and what is behind it decrypts to the plaintext. */
  predicate Carries<S>(ciph: Cipher<S>, wire: bytes, plain: bytes) {
    |wire| >= ciph.ivSize && ciph.Decrypt(wire[..ciph.ivSize], wire[ciph.ivSize..]) == plain
  }

  class Conn<S> {
    const src: Source
    const sink: Sink
    const cipher: Cipher<S>
    const bufSize: nat
    var r: Reader?<S>
    var w: Writer?<S>
    ghost var Repr: set<object>

    ghost predicate Valid()
      reads this, Repr
    {
      && this in Repr && src !in Repr && sink !in Repr && 0 < cipher.ivSize <= bufSize
      && (r != null ==> r in Repr && r.stream in Repr && r.buf in Repr && r.src == src
                        && r.stream.f == cipher.dec && r.buf.Length == bufSize)
      && (w != null ==> w in Repr && w.stream in Repr && w.buf in Repr && w.sink == sink
                        && w.stream.f == cipher.enc && w.buf.Length == bufSize)
      && (r != null && w != null ==> r.stream != w.stream && r.buf != w.buf)
    }

    constructor (src: Source, sink: Sink, cipher: Cipher<S>, bufSize: nat)
      requires 0 < cipher.ivSize <= bufSize
      ensures Valid() && fresh(Repr) && r == null && w == null
      ensures this.src == src && this.sink == sink && this.cipher == cipher && this.bufSize == bufSize
    {
      this.src, this.sink, this.cipher, this.bufSize := src, sink, cipher, bufSize;
      r, w, Repr := null, null, {this};
    }

    method InitReader() returns (err: Option<IOErr>)
      requires Valid() && r == null
      modifies this, src
      ensures Valid() && fresh(Repr - old(Repr)) && old(Repr) <= Repr && w == old(w)
      ensures var wire := old(src.Rest());
              if |wire| < cipher.ivSize then err == Some(Short(|wire|, src.fin)) && r == null && src.Rest() == []
              else err == None && r != null && Incoming(r.stream.s, src.frags) == Begin(cipher, old(src.frags))
    {
      hide Concat, Skip;
      var iv;
      iv, err := ReadBytes(src, cipher.ivSize);
      if err.Some? {
        return;
      }
      var buf := new byte[bufSize](_ => 0);
      var stream := new Stream(cipher.dec, cipher.start(iv));
      r := new Reader(src, stream, buf);
      Repr := Repr + {r, stream, buf};
    }

    /** Where the receiving side stands, if the vector was read or can be. */
    ghost function Receiving(): Option<Incoming<S>>
      requires Valid()
      reads this, Repr, src
    {
      if r != null then Some(Incoming(r.stream.s, src.frags))
      else if |src.Rest()| < cipher.ivSize then None
      else Some(Begin(cipher, src.frags))
    }

    /** A read of the connection; the first one is preceded by that of the vector. */
    method Read(b: array<byte>) returns (n: nat, err: Option<IOErr>)
      requires Valid() && b !in Repr
      modifies Repr, src, b
      ensures Valid() && fresh(Repr - old(Repr)) && w == old(w)
      ensures match old(Receiving())
              case None => r == null && n == 0 && err == Some(Short(|old(src.Rest())|, src.fin))
              case Some(start) =>
                var f := Fetch(start.frags, b.Length);
                && r != null && src.frags == f.frags
                && if Ends(start.frags, f.frags, src.together) then
                     n == 0 && err == Some(src.fin) && r.stream.s == start.s
                   else
                     && err == None && n == |f.data|
                     && (r.stream.s, b[..n]) == Run(cipher.dec, start.s, f.data)
    {
      hide Run, Fetch, Concat, Skip;
      if r == null {
        err := InitReader();
        if err.Some? {
          return 0, err;
        }
      }
      n, err := r.Read(b);
    }

    /** Everything that arrives without an error behind the vector goes out decrypted. */
    method WriteTo(to: Sink) returns (n: nat, err: Option<IOErr>)
      requires Valid() && to !in Repr && to != sink
      modifies Repr, src, to
      ensures Valid() && fresh(Repr - old(Repr)) && w == old(w)
      ensures match old(Receiving())
              case None =>
                r == null && n == 0 && err == Some(Short(|old(src.Rest())|, src.fin)) && to.out == old(to.out)
              case Some(start) =>
                var d := DecryptAll(cipher.dec, start.s, start.frags, src.together, bufSize);
                r != null &&
                if to.failures == old(to.failures) then
                  to.out == old(to.out) + d && n == |d| && src.frags == [] && err == EndError(src.fin)
                else old(to.out) <= to.out <= old(to.out) + d && err == Some(WriteFailed)
    {
      hide Run, Fetch, Concat, DecryptAll, Skip;
      if r == null {
        err := InitReader();
        if err.Some? {
          return 0, err;
        }
      }
      n, err := r.WriteTo(to);
    }

    /** The vector is written by itself; the writer exists only if that worked. `random` is what the
        random generator gives: a vector, or nothing when it fails. */
    method InitWriter(random: Option<bytes>) returns (err: Option<IOErr>)
      requires Valid() && w == null && (random.Some? ==> |random.value| == cipher.ivSize)
      modifies this, sink
      ensures Valid() && fresh(Repr - old(Repr)) && old(Repr) <= Repr && r == old(r)
      ensures match random
              case None =>
                err == Some(Other(0)) && w == null && sink.out == old(sink.out) && sink.failures == old(sink.failures)
              case Some(iv) =>
                if sink.failures == old(sink.failures) then
                  err == None && w != null && w.stream.s == cipher.start(iv) && sink.out == old(sink.out) + iv
                else err == Some(WriteFailed) && w == null && old(sink.out) <= sink.out <= old(sink.out) + iv
    {
      if random.None? {
        return Some(Other(0));
      }
      var iv := random.value;
      var n, ok := sink.Write(iv);
      if !ok {
        return Some(WriteFailed);
      }
      assert iv[..n] == iv;
      var buf := new byte[bufSize](_ => 0);
      var stream := new Stream(cipher.enc, cipher.start(iv));
      w := new Writer(sink, stream, buf);
      Repr := Repr + {w, stream, buf};
      err := None;
    }

    /** Write: the vector first if nothing was sent before, then the slice, encrypted; if a write
        fails, a prefix of that. */
    method Write(b: bytes, random: Option<bytes>) returns (n: nat, err: Option<IOErr>)
      requires Valid() && (random.Some? ==> |random.value| == cipher.ivSize)
      modifies Repr, sink
      ensures Valid() && fresh(Repr - old(Repr)) && r == old(r) && (old(w) != null ==> w == old(w))
      ensures if old(w) == null && random.None? then
                w == null && n == 0 && err == Some(Other(0)) && sink.out == old(sink.out)
              else
                var s0 := if old(w) == null then cipher.start(random.value) else old(w.stream.s);
                var wire := (if old(w) == null then random.value else []) + Run(cipher.enc, s0, b).1;
                if sink.failures == old(sink.failures) then
                  && w != null && n == |b| && err == None && w.stream.s == Run(cipher.enc, s0, b).0
                  && sink.out == old(sink.out) + wire
                else old(sink.out) <= sink.out <= old(sink.out) + wire && err == Some(WriteFailed)
    {
      hide Run, Concat;
      ghost var out0 := sink.out;
      ghost var first := if w == null && random.Some? then random.value else [];
      assert out0 + [] == out0;
      if w == null {
        err := InitWriter(random);
        if err.Some? {
          if random.Some? {
            FirstPart(out0, first, sink.out, Run(cipher.enc, cipher.start(first), b).1);
          }
          return 0, err;
        }
      }
      var from := new Source(if b == [] then [] else [b], EOF, false);
      assert from.Rest() == b by { ConcatOne(b); ConcatNothing(); }
      ghost var sealed := Run(cipher.enc, w.stream.s, b).1;
      n, err := w.ReadFrom(from);
      BothParts(out0, first, sink.out, sealed);
    }

    /** The writer is set before anything was sent. */
    method Attach(iv: bytes)
      requires Valid() && w == null
      modifies this
      ensures Valid() && fresh(Repr - old(Repr)) && r == old(r)
      ensures w != null && fresh(w) && fresh(w.stream) && fresh(w.buf) && w.stream.s == cipher.start(iv)
    {
      var buf := new byte[bufSize](_ => 0);
      var stream := new Stream(cipher.enc, cipher.start(iv));
      w := new Writer(sink, stream, buf);
      Repr := Repr + {w, stream, buf};
    }

    /** The start of the merged path: one read, sent along with the vector. If the read gives an
        error or no byte, the writer is set all the same and the vector is never sent. */
    method FirstRead(from: Source, iv: bytes) returns (n: nat, err: Option<IOErr>)
      requires Valid() && w == null && from !in Repr && from != src && |iv| == cipher.ivSize
      modifies this, sink, from
      ensures Valid() && fresh(Repr - old(Repr)) && r == old(r) && w != null && fresh(w)
      ensures var got := Fetch(old(from.frags), bufSize);
              var (s, first) := Run(cipher.enc, cipher.start(iv), got.data);
              var wire := if got.data == [] then [] else iv + first;
              && from.frags == got.frags
              && if Ends(old(from.frags), got.frags, from.together) then
                   n == 0 && err == Some(from.fin) && sink.out == old(sink.out) && sink.failures == old(sink.failures)
                 else if sink.failures == old(sink.failures) then
                   && n == |got.data| && err == None && w.stream.s == s
                   && sink.out == old(sink.out) + wire
                 else n == 0 && err == Some(WriteFailed) && old(sink.out) <= sink.out <= old(sink.out) + wire
    {
      hide Run, Fetch, Concat;
      ghost var out0, data := sink.out, Fetch(from.frags, bufSize).data;
      Attach(iv);
      n, err := from.Read(w.buf, 0, bufSize);
      assert w.buf[0..n] == data;
      if err.Some? {
        return 0, err;
      }
      if n > 0 {
        var ok := w.SendBehind(iv, n);
        if !ok {
          return 0, Some(WriteFailed);
        }
      } else {
        RunNothing(cipher.enc, cipher.start(iv));
        assert out0 + [] == out0;
      }
    }

    /** The merged path, and then the writer's loop. */
    method ReadFrom(from: Source, random: Option<bytes>) returns (n: nat, err: Option<IOErr>)
      requires Valid() && from !in Repr && from != src && (random.Some? ==> |random.value| == cipher.ivSize)
      modifies Repr, sink, from
      ensures Valid() && fresh(Repr - old(Repr)) && r == old(r) && (old(w) != null ==> w == old(w))
      ensures if old(w) == null && random.None? then
                w == null && n == 0 && err == Some(Other(0)) && sink.out == old(sink.out)
              else
                var t := if old(w) == null then
                           MergedTransfer(cipher, random.value, old(from.frags), from.fin, from.together, bufSize)
                         else Continued(cipher.enc, old(w.stream.s), old(from.frags), from.fin);
                w != null &&
                if sink.failures == old(sink.failures) then
                  sink.out == old(sink.out) + t.wire && n == t.n && err == t.err
                else old(sink.out) <= sink.out <= old(sink.out) + t.wire && err == Some(WriteFailed)
    {
      hide Run, Fetch, Concat;
      n := 0;
      ghost var out0, first := sink.out, [];
      assert out0 + [] == out0;
      FetchKeeps(from.frags, bufSize);
      if w == null {
        if random.None? {
          return 0, Some(Other(0));
        }
        ghost var got := Fetch(from.frags, bufSize);
        ghost var (s, sealed) := Run(cipher.enc, cipher.start(random.value), got.data);
        first := if got.data == [] then [] else random.value + sealed;
        n, err := FirstRead(from, random.value);
        if err.Some? {
          if sink.failures != old(sink.failures) {
            FirstPart(out0, first, sink.out, Run(cipher.enc, s, Concat(got.frags)).1);
          }
          return;
        }
      }
      ghost var later := Run(cipher.enc, w.stream.s, from.Rest()).1;
      var more;
      more, err := w.ReadFrom(from);
      n := n + more;
      BothParts(out0, first, sink.out, later);
    }
  }
}
