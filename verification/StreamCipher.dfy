/** Stream ciphers as byte-wise machines, with the CTR and CFB modes of NIST SP 800-38A. */
module StreamCipher {
  import opened Bytes

  /** A machine takes one byte at a time; XORKeyStream runs it over a slice. */
  type Machine<!S> = (S, byte) -> (S, byte)

  function Run<S>(f: Machine<S>, s: S, b: bytes): (r: (S, bytes))
    ensures |r.1| == |b|
  {
    if b == [] then (s, [])
    else
      var (s1, y) := f(s, b[0]);
      var (s2, ys) := Run(f, s1, b[1..]);
      (s2, [y] + ys)
  }

  /** Working on a stream piece by piece is working on all of it. */
  lemma {:induction false} RunAppend<S>(f: Machine<S>, s: S, a: bytes, b: bytes)
    ensures Run(f, s, a + b).0 == Run(f, Run(f, s, a).0, b).0
    ensures Run(f, s, a + b).1 == Run(f, s, a).1 + Run(f, Run(f, s, a).0, b).1
    decreases |a|
  {
    if a == [] {
      assert a + b == b;
    } else {
      var s1 := f(s, a[0]).0;
      assert (a + b)[0] == a[0] && (a + b)[1..] == a[1..] + b;
      RunAppend(f, s1, a[1..], b);
      AppendAssociates([f(s, a[0]).1], Run(f, s1, a[1..]).1, Run(f, Run(f, s, a).0, b).1);
    }
  }

  lemma RunPrefix<S>(f: Machine<S>, s: S, a: bytes, b: bytes)
    requires a <= b
    ensures Run(f, s, a).1 <= Run(f, s, b).1
  {
    RunAppend(f, s, a, b[|a|..]);
    assert b == a + b[|a|..];
  }

  /** The decrypting machine undoes one step of the encrypting one and stays in the same state. */
  ghost predicate UndoesAt<S>(enc: Machine<S>, dec: Machine<S>, s: S, x: byte) {
    dec(s, enc(s, x).1) == (enc(s, x).0, x)
  }

  ghost predicate Undoes<S(!new)>(enc: Machine<S>, dec: Machine<S>) {
    forall s, x :: UndoesAt(enc, dec, s, x)
  }

  lemma {:induction false} RunUndone<S(!new)>(enc: Machine<S>, dec: Machine<S>, s: S, b: bytes)
    requires Undoes(enc, dec)
    ensures Run(dec, s, Run(enc, s, b).1) == (Run(enc, s, b).0, b)
    decreases |b|
  {
    if b != [] {
      assert UndoesAt(enc, dec, s, b[0]);
      var (s1, y) := enc(s, b[0]);
      RunUndone(enc, dec, s1, b[1..]);
      var (s2, ys) := Run(enc, s1, b[1..]);
      assert ([y] + ys)[1..] == ys && [b[0]] + b[1..] == b;
    }
  }

  /** A pair of machines started from the same initialisation vector. */
  datatype Cipher<!S> = Cipher(ivSize: nat, start: bytes -> S, enc: Machine<S>, dec: Machine<S>) {
    function Encrypt(iv: bytes, plain: bytes): (r: bytes)
      ensures |r| == |plain|
    {
      Run(enc, start(iv), plain).1
    }

    function Decrypt(iv: bytes, sealed: bytes): (r: bytes)
      ensures |r| == |sealed|
    {
      Run(dec, start(iv), sealed).1
    }
  }

  lemma DecryptsEncrypted<S(!new)>(ciph: Cipher<S>, iv: bytes, plain: bytes)
    requires Undoes(ciph.enc, ciph.dec)
    ensures ciph.Decrypt(iv, ciph.Encrypt(iv, plain)) == plain
  {
    RunUndone(ciph.enc, ciph.dec, ciph.start(iv), plain);
  }

  /** A block cipher in one direction, as both modes use it. */
  datatype Block = Block(size: nat, forward: bytes -> bytes) {
    function Image(b: bytes): bytes {
      forward(b)
    }

    ghost predicate Ok() {
      size > 0 && forall b :: |Image(b)| == size
    }

    /** The k-th byte of the block's image. */
    function At(b: bytes, k: nat): byte {
      if k < |Image(b)| then Image(b)[k] else 0
    }
  }

  // ---------------------------------------------------------------- CTR

  /** The counter block in use and how many of its keystream bytes were taken. */
  datatype CtrState = CtrState(counter: bytes, used: nat)

  /** The counter block is a big-endian integer. */
  function NextCounter(b: bytes): bytes {
    if b == [] then []
    else if b[|b| - 1] < 255 then b[..|b| - 1] + [b[|b| - 1] + 1]
    else NextCounter(b[..|b| - 1]) + [0]
  }

  function CounterBlock(iv: bytes, j: nat): bytes {
    if j == 0 then iv else NextCounter(CounterBlock(iv, j - 1))
  }

  function BEValue(b: bytes): nat {
    if b == [] then 0 else 256 * BEValue(b[..|b| - 1]) + b[|b| - 1] as nat
  }

  lemma BEValueMore(b: bytes, x: byte)
    ensures BEValue(b + [x]) == 256 * BEValue(b) + x as nat
  {
    assert (b + [x])[..|b|] == b;
  }

  lemma {:induction false} NextCounterAddsOne(b: bytes)
    ensures |NextCounter(b)| == |b| && BEValue(b) < Pow256(|b|)
    ensures BEValue(NextCounter(b)) == if BEValue(b) + 1 == Pow256(|b|) then 0 else BEValue(b) + 1
  {
    hide BEValue;
    BEValueNothing();
    if b != [] {
      var front, last := b[..|b| - 1], b[|b| - 1];
      NextCounterAddsOne(front);
      assert b == front + [last];
      BEValueMore(front, last);
      if last < 255 {
        BEValueMore(front, last + 1);
      } else {
        BEValueMore(NextCounter(front), 0);
      }
    }
  }

  lemma BEValueNothing()
    ensures BEValue([]) == 0
  {
  }

  /** Counter block j is the vector plus j, as big-endian integers modulo 256^size: the standard
      incrementing function of appendix B.1 of NIST SP 800-38A over the whole block. */
  lemma {:induction false} CounterCounts(iv: bytes, j: nat)
    ensures |CounterBlock(iv, j)| == |iv|
    ensures BEValue(CounterBlock(iv, j)) == (BEValue(iv) + j) % Pow256(|iv|)
  {
    hide BEValue, NextCounter, Pow256;
    if j == 0 {
      NextCounterAddsOne(iv);
      ModSmall(BEValue(iv), Pow256(|iv|));
    } else {
      CounterCounts(iv, j - 1);
      NextCounterAddsOne(CounterBlock(iv, j - 1));
      ModSuccessor(BEValue(iv) + (j - 1), Pow256(|iv|));
    }
  }

  function CtrStep(e: Block, s: CtrState, x: byte): (CtrState, byte) {
    (if s.used + 1 >= e.size then CtrState(NextCounter(s.counter), 0) else s.(used := s.used + 1),
     Xor(x, e.At(s.counter, s.used)))
  }

  function Ctr(e: Block): Cipher<CtrState> {
    var step := (s: CtrState, x: byte) => CtrStep(e, s, x);
    Cipher(e.size, iv => CtrState(iv, 0), step, step)
  }

  lemma CtrUndoes(e: Block)
    ensures Undoes(Ctr(e).enc, Ctr(e).dec)
  {
    forall s, x
      ensures UndoesAt(Ctr(e).enc, Ctr(e).dec, s, x)
    {
      XorInverse(x, e.At(s.counter, s.used));
    }
  }

  lemma CtrOne(e: Block, s: CtrState, b: bytes, k: nat)
    requires k < |b|
    ensures Run(Ctr(e).enc, s, b).1[k]
         == if k == 0 then CtrStep(e, s, b[0]).1 else Run(Ctr(e).enc, CtrStep(e, s, b[0]).0, b[1..]).1[k - 1]
  {
    hide CtrStep;
  }

  lemma BlockTurn(k: nat, n: nat)
    requires n > 0
    ensures (k + n) / n == k / n + 1 && (k + n) % n == k % n
  {
    var q, r := k / n, k % n;
    assert k == q * n + r && (q + 1) * n == q * n + n;
    ModOf(k + n, q + 1, n, r);
  }

  lemma {:induction false} CtrFrom(e: Block, iv: bytes, j: nat, u: nat, b: bytes, k: nat)
    requires e.size > 0 && u < e.size && k < |b|
    ensures Run(Ctr(e).enc, CtrState(CounterBlock(iv, j), u), b).1[k]
         == Xor(b[k], e.At(CounterBlock(iv, j + (u + k) / e.size), (u + k) % e.size))
    decreases |b|
  {
    hide NextCounter, Block.At, Xor, Run, Ctr;
    CtrOne(e, CtrState(CounterBlock(iv, j), u), b, k);
    if k == 0 {
      ModOf(u, 0, e.size, u);
    } else if u + 1 == e.size {
      CtrFrom(e, iv, j + 1, 0, b[1..], k - 1);
      BlockTurn(k - 1, e.size);
    } else {
      CtrFrom(e, iv, j, u + 1, b[1..], k - 1);
    }
  }

  /** CTR mode: byte k is masked with byte k mod b of the image of the (k div b)-th counter block,
      as section 6.5 of NIST SP 800-38A defines it. */
  lemma CtrIsStandard(e: Block, iv: bytes, plain: bytes, k: nat)
    requires e.size > 0 && k < |plain|
    ensures Ctr(e).Encrypt(iv, plain)[k] == Xor(plain[k], e.At(CounterBlock(iv, k / e.size), k % e.size))
  {
    hide Block.At, Xor, Run;
    CtrFrom(e, iv, 0, 0, plain, k);
  }

  // ---------------------------------------------------------------- CFB

  /** The register, the keystream block made from it, and how much of that was used. Ciphertext
      overwrites the register while the keystream block is consumed. */
  datatype CfbState = CfbState(next: bytes, out: bytes, used: nat)

  function CfbRefresh(e: Block, s: CfbState): CfbState {
    if s.used == e.size then CfbState(s.next, e.Image(s.next), 0) else s
  }

  function CfbMask(s: CfbState): byte {
    if s.used < |s.out| then s.out[s.used] else 0
  }

  function CfbFeed(s: CfbState, sealed: byte): CfbState {
    CfbState(if s.used < |s.next| then s.next[s.used := sealed] else s.next, s.out, s.used + 1)
  }

  function CfbEncrypt(e: Block, s: CfbState, x: byte): (CfbState, byte) {
    var s' := CfbRefresh(e, s);
    var y := Xor(x, CfbMask(s'));
    (CfbFeed(s', y), y)
  }

  function CfbDecrypt(e: Block, s: CfbState, y: byte): (CfbState, byte) {
    var s' := CfbRefresh(e, s);
    (CfbFeed(s', y), Xor(y, CfbMask(s')))
  }

  function Cfb(e: Block): Cipher<CfbState> {
    Cipher(e.size, iv => CfbState(iv, Zeros(e.size), e.size),
           (s, x) => CfbEncrypt(e, s, x), (s, y) => CfbDecrypt(e, s, y))
  }

  lemma CfbUndoes(e: Block)
    ensures Undoes(Cfb(e).enc, Cfb(e).dec)
  {
    forall s, x
      ensures UndoesAt(Cfb(e).enc, Cfb(e).dec, s, x)
    {
      XorInverse(x, CfbMask(CfbRefresh(e, s)));
    }
  }

  function XorWith(b: bytes, key: bytes): (r: bytes)
    requires |b| <= |key|
    ensures |r| == |b|
  {
    seq(|b|, i requires 0 <= i < |b| => Xor(b[i], key[i]))
  }

  /** CFB mode with segments as long as blocks, as section 6.3 of NIST SP 800-38A defines it:
      each ciphertext block is the next input block. The last segment may be short. */
  function StandardCfb(e: Block, input: bytes, plain: bytes): bytes
    requires e.Ok()
    decreases |plain|
  {
    if |plain| <= e.size then XorWith(plain, e.Image(input))
    else
      var c := XorWith(plain[..e.size], e.Image(input));
      c + StandardCfb(e, c, plain[e.size..])
  }

  lemma XorWithHead(b: bytes, key: bytes)
    requires 0 < |b| <= |key|
    ensures XorWith(b, key) == [Xor(b[0], key[0])] + XorWith(b[1..], key[1..])
  {
    hide Xor;
  }

  /** `next` with `c` written over it from position u. */
  function Overwrite(next: bytes, u: nat, c: bytes): bytes
    requires u + |c| <= |next|
  {
    next[..u] + c + next[u + |c|..]
  }

  lemma OverwriteHead(next: bytes, u: nat, y: byte, c: bytes)
    requires u + 1 + |c| <= |next|
    ensures Overwrite(next[u := y], u + 1, c) == Overwrite(next, u, [y] + c)
  {
  }

  /** Inside a block the keystream bytes are used up in order and the ciphertext enters the register. */
  lemma {:induction false} CfbWithin(e: Block, s: CfbState, b: bytes)
    requires e.size > 0 && |s.next| == |s.out| == e.size && s.used + |b| <= e.size
    ensures var c := XorWith(b, s.out[s.used..]);
            Run(Cfb(e).enc, s, b) == (CfbState(Overwrite(s.next, s.used, c), s.out, s.used + |b|), c)
    decreases |b|
  {
    hide Xor, XorWith, Overwrite;
    if b == [] {
      assert Overwrite(s.next, s.used, []) == s.next by { OverwriteNothing(s.next, s.used); }
      assert XorWith([], s.out[s.used..]) == [];
    } else {
      var y := Xor(b[0], s.out[s.used]);
      var s1 := CfbState(s.next[s.used := y], s.out, s.used + 1);
      assert CfbEncrypt(e, s, b[0]) == (s1, y);
      CfbWithin(e, s1, b[1..]);
      assert s.out[s.used..][1..] == s.out[s1.used..];
      XorWithHead(b, s.out[s.used..]);
      OverwriteHead(s.next, s.used, y, XorWith(b[1..], s.out[s1.used..]));
    }
  }

  lemma OverwriteNothing(next: bytes, u: nat)
    requires u <= |next|
    ensures Overwrite(next, u, []) == next
  {
  }

  lemma CfbRefreshed(e: Block, s: CfbState, b: bytes)
    requires e.size > 0 && b != []
    ensures Run(Cfb(e).enc, s, b) == Run(Cfb(e).enc, CfbRefresh(e, s), b)
  {
    hide Xor;
    assert CfbRefresh(e, CfbRefresh(e, s)) == CfbRefresh(e, s);
  }

  lemma {:induction false} CfbFrom(e: Block, s: CfbState, plain: bytes)
    requires e.Ok() && |s.next| == e.size && s.used == e.size
    ensures Run(Cfb(e).enc, s, plain).1 == StandardCfb(e, s.next, plain)
    decreases |plain|
  {
    hide Xor, Run, XorWith;
    var s0 := CfbRefresh(e, s);
    if plain == [] {
      EmptyRun(e, s);
    } else if |plain| <= e.size {
      CfbRefreshed(e, s, plain);
      CfbWithin(e, s0, plain);
      assert s0.out[0..] == s0.out;
    } else {
      var first, later := plain[..e.size], plain[e.size..];
      CfbRefreshed(e, s, plain);
      assert plain == first + later;
      RunAppend(Cfb(e).enc, s0, first, later);
      CfbWithin(e, s0, first);
      var s1 := Run(Cfb(e).enc, s0, first).0;
      var c := XorWith(first, e.Image(s.next));
      assert s0.out[0..] == s0.out && s0.next[..0] + c + s0.next[e.size..] == c;
      CfbFrom(e, s1, later);
    }
  }

  lemma EmptyRun(e: Block, s: CfbState)
    requires e.Ok()
    ensures Run(Cfb(e).enc, s, []).1 == [] == XorWith([], e.Image(s.next))
  {
  }

  /** The byte-wise machine is the standard's block-wise definition. */
  lemma CfbIsStandard(e: Block, iv: bytes, plain: bytes)
    requires e.Ok() && |iv| == e.size
    ensures Cfb(e).Encrypt(iv, plain) == StandardCfb(e, iv, plain)
  {
    hide Run, StandardCfb;
    CfbFrom(e, CfbState(iv, Zeros(e.size), e.size), plain);
  }
}
