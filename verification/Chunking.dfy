/** How writers cut what they are given into chunks. */
module Chunking {
  import opened Bytes
  import opened Io

  /** The non-empty reads of a source into a buffer of m bytes. */
  function Chunks(frags: seq<bytes>, m: nat): seq<bytes>
    requires m > 0
    decreases Weight(frags)
  {
    if frags == [] then []
    else
      var f := Fetch(frags, m);
      FetchKeeps(frags, m);
      (if f.data == [] then [] else [f.data]) + Chunks(f.frags, m)
  }

  predicate Full(chunks: seq<bytes>, m: nat) {
    && (forall i | 0 <= i < |chunks| :: 0 < |chunks[i]| <= m)
  }

  /** A byte slice read through a bytes.Buffer. */
  function Buffered(b: bytes): seq<bytes> {
    if b == [] then [] else [b]
  }

  lemma {:induction false} ChunksKeep(frags: seq<bytes>, m: nat)
    requires m > 0
    ensures Concat(Chunks(frags, m)) == Concat(frags)
    ensures Full(Chunks(frags, m), m)
    decreases Weight(frags)
  {
    hide Fetch;
    if frags != [] {
      var f := Fetch(frags, m);
      FetchKeeps(frags, m);
      ChunksKeep(f.frags, m);
      if f.data == [] {
        assert [] + Concat(f.frags) == Concat(f.frags);
        assert [] + Chunks(f.frags, m) == Chunks(f.frags, m);
      } else {
        assert ([f.data] + Chunks(f.frags, m))[1..] == Chunks(f.frags, m);
      }
    }
  }

  function CeilDiv(n: nat, m: nat): nat
    requires m > 0
  {
    (n + m - 1) / m
  }

  lemma CeilDivStep(n: nat, m: nat)
    requires m > 0
    ensures CeilDiv(n, m) == if n == 0 then 0 else if n <= m then 1 else 1 + CeilDiv(n - m, m)
  {
    if n == 0 {
      ModOf(m - 1, 0, m, m - 1);
    } else if n <= m {
      ModOf(n + m - 1, 1, m, n - 1);
    } else {
      var x := n - 1;
      var q, r := x / m, x % m;
      assert x == q * m + r;
      assert (q + 1) * m == q * m + m;
      ModOf(x + m, q + 1, m, r);
    }
  }

  lemma BufferedStep(b: bytes, m: nat)
    requires m > 0
    ensures Chunks(Buffered(b), m)
         == if b == [] then [] else if |b| <= m then [b] else [b[..m]] + Chunks(Buffered(b[m..]), m)
  {
    if 0 < |b| <= m {
      assert Fetch([b], m) == Fetched(b, []);
      assert Chunks([b], m) == [b] + Chunks([], m);
    } else if b != [] {
      assert Fetch([b], m) == Fetched(b[..m], [b[m..]]);
      assert Chunks([b], m) == [b[..m]] + Chunks([b[m..]], m);
    }
  }

  /** A slice is cut into ceil(n / m) chunks, all of them full but perhaps the last. */
  lemma {:induction false} BufferedChunks(b: bytes, m: nat)
    requires m > 0
    ensures var chunks := Chunks(Buffered(b), m);
            && |chunks| == CeilDiv(|b|, m)
            && Concat(chunks) == b
            && (forall i | 0 <= i < |chunks| - 1 :: |chunks[i]| == m)
            && Full(chunks, m)
    decreases |b|
  {
    hide Chunks, CeilDiv;
    ChunksKeep(Buffered(b), m);
    BufferedStep(b, m);
    CeilDivStep(|b|, m);
    assert Concat(Buffered(b)) == b by { ConcatOne(b); }
    if |b| > m {
      BufferedChunks(b[m..], m);
    }
  }
}
