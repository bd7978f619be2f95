/** The environment: byte sources and sinks with the contracts of io.Reader and io.Writer. */
module Io {
  import opened Bytes

  datatype IOErr =
    | EOF
    | UnexpectedEOF
    | ShortBuffer
    | ShortPacket
    | AuthFailed
    | CipherFailed
    | WriteFailed
    | Socks(code: nat)
    | Other(code: nat)

  /** What io.ReadFull reports when the source ends with `fin` after `got` bytes of the wanted ones. */
  function Short(got: nat, fin: IOErr): IOErr {
    if fin == EOF && got > 0 then UnexpectedEOF else fin
  }

  datatype Fetched = Fetched(data: bytes, frags: seq<bytes>)

  /** One read of at most `cap` bytes: the next fragment, or as much of it as fits. */
  function Fetch(frags: seq<bytes>, cap: nat): (f: Fetched)
    ensures |f.data| <= cap
  {
    if frags == [] then Fetched([], [])
    else if |frags[0]| <= cap then Fetched(frags[0], frags[1..])
    else Fetched(frags[0][..cap], [frags[0][cap..]] + frags[1..])
  }

  function Weight(frags: seq<bytes>): nat {
    |Concat(frags)| + |frags|
  }

  lemma FetchKeeps(frags: seq<bytes>, cap: nat)
    ensures Fetch(frags, cap).data + Concat(Fetch(frags, cap).frags) == Concat(frags)
    ensures frags != [] && cap > 0 ==> Weight(Fetch(frags, cap).frags) < Weight(frags)
    ensures frags == [] ==> Fetch(frags, cap) == Fetched([], [])
  {
    if frags != [] && |frags[0]| > cap {
      var f := Fetch(frags, cap).frags;
      assert f[1..] == frags[1..];
      assert frags[0] == frags[0][..cap] + frags[0][cap..];
      assert Concat(f) == frags[0][cap..] + Concat(frags[1..]);
    }
  }

  predicate LastFull(frags: seq<bytes>) {
    frags != [] && frags[|frags| - 1] != []
  }

  lemma FetchLast(frags: seq<bytes>, cap: nat)
    ensures Fetch(frags, cap).frags != [] ==> (LastFull(Fetch(frags, cap).frags) <==> LastFull(frags))
  {
  }

  /** What is left of the fragments when io.ReadFull has taken n bytes. */
  function Skip(frags: seq<bytes>, n: nat): seq<bytes>
    decreases Weight(frags)
  {
    if n == 0 || frags == [] then frags
    else
      FetchKeeps(frags, n);
      Skip(Fetch(frags, n).frags, n - |Fetch(frags, n).data|)
  }

  lemma SkipStep(frags: seq<bytes>, n: nat)
    ensures Skip(frags, 0) == frags && Skip([], n) == []
    ensures n > 0 ==> Skip(frags, n) == Skip(Fetch(frags, n).frags, n - |Fetch(frags, n).data|)
  {
  }

  lemma {:induction false} SkipKeeps(frags: seq<bytes>, n: nat)
    ensures n <= |Concat(frags)| ==> Concat(Skip(frags, n)) == Concat(frags)[n..]
    ensures Skip(frags, n) != [] ==> (LastFull(Skip(frags, n)) <==> LastFull(frags))
    decreases Weight(frags)
  {
    hide Fetch, Concat, LastFull, Weight;
    if n != 0 && frags != [] {
      var f := Fetch(frags, n);
      FetchKeeps(frags, n);
      FetchLast(frags, n);
      SkipKeeps(f.frags, n - |f.data|);
      if f.frags == [] {
        ConcatNothing();
        assert f.data + [] == f.data;
      }
    } else {
      ConcatNothing();
      assert n == 0 ==> Concat(frags)[0..] == Concat(frags);
    }
  }

  /** A source that will deliver exactly the fragments `frags` and then the error `fin` for ever.
      An empty fragment is a read of no bytes without an error. When `together`, the last
      bytes are delivered along with `fin`. */
  class Source {
    var frags: seq<bytes>
    const fin: IOErr
    const together: bool

    constructor (frags: seq<bytes>, fin: IOErr, together: bool)
      ensures this.frags == frags && this.fin == fin && this.together == together
    {
      this.frags, this.fin, this.together := frags, fin, together;
    }

    function Rest(): bytes
      reads this
    {
      Concat(frags)
    }

    method Read(buf: array<byte>, lo: nat, hi: nat) returns (n: nat, err: Option<IOErr>)
      requires lo <= hi <= buf.Length
      modifies this, buf
      ensures n == |Fetch(old(frags), hi - lo).data| <= hi - lo
      ensures frags == Fetch(old(frags), hi - lo).frags
      ensures buf[..] == old(buf[..lo]) + Fetch(old(frags), hi - lo).data + old(buf[lo + n..])
      ensures old(Rest()) == buf[lo..lo + n] + Rest()
      ensures err == if frags == [] && (together || old(frags) == []) then Some(fin) else None
      ensures err.None? && lo < hi ==> Weight(frags) < Weight(old(frags))
    {
      hide Fetch, Concat, Weight;
      FetchKeeps(frags, hi - lo);
      ghost var was := buf[..];
      var f := Fetch(frags, hi - lo);
      n := |f.data|;
      forall i | 0 <= i < n { buf[lo + i] := f.data[i]; }
      err := if f.frags == [] && (together || frags == []) then Some(fin) else None;
      frags := f.frags;
      assert buf[lo..lo + n] == f.data;
      assert buf[..] == was[..lo] + f.data + was[lo + n..];
    }
  }

  lemma Spliced(before: bytes, after: bytes, lo: nat, at: nat, end: nat, hi: nat)
    requires lo <= at <= end <= hi <= |before| == |after|
    requires after == before[..at] + after[at..end] + before[end..]
    ensures after[..lo] == before[..lo] && after[hi..] == before[hi..]
    ensures after[lo..end] == before[lo..at] + after[at..end]
  {
  }

  /** io.ReadFull: keeps reading until `buf[lo..hi]` is full or the source reports an error;
      the error that comes with the last wanted byte is dropped. */
  method ReadFull(src: Source, buf: array<byte>, lo: nat, hi: nat) returns (err: Option<IOErr>)
    requires lo <= hi <= buf.Length
    modifies src, buf
    ensures buf[..lo] == old(buf[..lo]) && buf[hi..] == old(buf[hi..])
    ensures err == if |old(src.Rest())| >= hi - lo then None else Some(Short(|old(src.Rest())|, src.fin))
    ensures err.None? ==> old(src.Rest()) == buf[lo..hi] + src.Rest()
    ensures err.Some? ==> src.Rest() == []
    ensures src.frags == Skip(old(src.frags), hi - lo)
  {
    hide Fetch, Concat, Weight, Skip;
    ConcatNothing();
    ghost var all := src.Rest();
    var at := lo;
    var e: Option<IOErr> := None;
    while at < hi && e.None?
      invariant lo <= at <= hi
      invariant buf[..lo] == old(buf[..lo]) && buf[hi..] == old(buf[hi..])
      invariant all == buf[lo..at] + src.Rest()
      invariant Skip(src.frags, hi - at) == Skip(old(src.frags), hi - lo)
      invariant e == None || (e == Some(src.fin) && src.frags == [])
      decreases e.None?, Weight(src.frags)
    {
      ghost var before := buf[..];
      SkipStep(src.frags, hi - at);
      var n;
      n, e := src.Read(buf, at, hi);
      Spliced(before, buf[..], lo, at, at + n, hi);
      assert buf[lo..at + n] == before[lo..at] + buf[at..at + n];
      at := at + n;
    }
    SkipStep(src.frags, hi - at);
    if at == hi {
      err := None;
    } else {
      err := Some(Short(at - lo, e.value));
    }
  }

  /** ReadFull into a new buffer of n bytes. */
  method ReadBytes(src: Source, n: nat) returns (data: bytes, err: Option<IOErr>)
    modifies src
    ensures var all := old(src.Rest());
            if |all| < n then err == Some(Short(|all|, src.fin)) && src.Rest() == []
            else err == None && data == all[..n] && src.Rest() == all[n..]
    ensures src.frags == Skip(old(src.frags), n)
  {
    ghost var all := src.Rest();
    var buf := new byte[n](_ => 0);
    err := ReadFull(src, buf, 0, n);
    data := buf[..];
    assert buf[0..n] == data;
    assert err.None? ==> all[..n] == data && all[n..] == src.Rest();
  }

  /** A sink. A write may accept only part of its argument, but then it reports an error;
      a reliable sink never does. */
  class Sink {
    var out: bytes
    var failures: nat
    const reliable: bool

    constructor (reliable: bool)
      ensures out == [] && failures == 0 && this.reliable == reliable
    {
      this.out, this.failures, this.reliable := [], 0, reliable;
    }

    method Write(d: bytes) returns (n: nat, ok: bool)
      modifies this
      ensures n <= |d| && out == old(out) + d[..n]
      ensures ok ==> n == |d| && failures == old(failures)
      ensures !ok ==> failures == old(failures) + 1
      ensures reliable ==> ok
    {
      n, ok := |d|, true;
      if !reliable {
        ok := *;
        if !ok {
          n :| 0 <= n <= |d|;
          failures := failures + 1;
        }
      }
      out := out + d[..n];
    }
  }
}
