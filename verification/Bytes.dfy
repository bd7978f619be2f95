/** Bytes, bit masks, the two-byte length field and the little-endian nonce counter. */
module Bytes {

  newtype byte = x: int | 0 <= x < 256

  type bytes = seq<byte>

  datatype Option<+T> = None | Some(value: T)

  function Zeros(n: nat): bytes {
    seq(n, _ => 0)
  }

  function Concat(ss: seq<bytes>): bytes {
    if ss == [] then [] else ss[0] + Concat(ss[1..])
  }

  lemma AppendAssociates(a: bytes, b: bytes, c: bytes)
    ensures a + (b + c) == (a + b) + c
  {
  }

  /** What may have gone out when the first of two parts did not go through. */
  lemma FirstPart(out: bytes, first: bytes, now: bytes, second: bytes)
    requires out <= now <= out + first
    ensures now <= out + (first + second)
  {
    AppendAssociates(out, first, second);
    assert out + first <= (out + first) + second;
  }

  /** What may have gone out when the second of two parts did not go through, or all of both. */
  lemma BothParts(out: bytes, first: bytes, now: bytes, second: bytes)
    requires out + first <= now <= (out + first) + second
    ensures out <= now <= out + (first + second)
    ensures (out + first) + second == out + (first + second)
  {
    AppendAssociates(out, first, second);
  }

  lemma {:induction false} ConcatAppend(a: seq<bytes>, b: seq<bytes>)
    ensures Concat(a + b) == Concat(a) + Concat(b)
  {
    if a == [] {
      assert a + b == b;
    } else {
      assert (a + b)[0] == a[0] && (a + b)[1..] == a[1..] + b;
      ConcatAppend(a[1..], b);
      AppendAssociates(a[0], Concat(a[1..]), Concat(b));
    }
  }

  lemma ConcatNothing()
    ensures Concat([]) == []
  {
  }

  lemma ConcatOne(s: bytes)
    ensures Concat([s]) == s
  {
    assert [s][1..] == [];
  }

  // ---------------------------------------------------------------- bit operations

  function Pow2(k: nat): (r: nat)
    ensures r >= 1
  {
    if k == 0 then 1 else 2 * Pow2(k - 1)
  }

  /** Bitwise conjunction of two unsigned integers. */
  function And(x: nat, y: nat): (r: nat)
    ensures r <= y
  {
    if x == 0 || y == 0 then 0
    else (if x % 2 == 1 && y % 2 == 1 then 1 else 0) + 2 * And(x / 2, y / 2)
  }

  /** Bitwise exclusive or. */
  function XorNat(x: nat, y: nat): nat
    decreases x + y
  {
    if x == 0 then y else if y == 0 then x
    else (if x % 2 != y % 2 then 1 else 0) + 2 * XorNat(x / 2, y / 2)
  }

  lemma {:induction false} XorNatBound(x: nat, y: nat, k: nat)
    requires x < Pow2(k) && y < Pow2(k)
    ensures XorNat(x, y) < Pow2(k)
  {
    if x != 0 && y != 0 {
      XorNatBound(x / 2, y / 2, k - 1);
    }
  }

  lemma {:induction false} XorNatInverse(x: nat, y: nat)
    ensures XorNat(XorNat(x, y), y) == x
    decreases x + y
  {
    if x == 0 {
      if y != 0 {
        XorNatInverse(0, y / 2);
      }
    } else if y != 0 {
      XorNatInverse(x / 2, y / 2);
      var z := XorNat(x, y);
      assert z % 2 == (if x % 2 != y % 2 then 1 else 0) && z / 2 == XorNat(x / 2, y / 2);
    }
  }

  function Xor(x: byte, y: byte): byte {
    assert Pow2(8) == 256 by { assert Pow2(4) == 16; assert Pow2(6) == 64; }
    XorNatBound(x as nat, y as nat, 8);
    XorNat(x as nat, y as nat) as byte
  }

  lemma XorInverse(x: byte, y: byte)
    ensures Xor(Xor(x, y), y) == x
  {
    XorNatInverse(x as nat, y as nat);
  }

  lemma DivTwice(n: nat, half: nat)
    requires half >= 1
    ensures n / (2 * half) == n / 2 / half
  {
    var x := n / 2;
    var q, r := x / half, x % half;
    assert x == q * half + r;
    assert q * (2 * half) == 2 * (q * half);
    ModOf(n, q, 2 * half, n % 2 + 2 * r);
  }

  lemma XorNatStep(x: nat, y: nat)
    ensures XorNat(x, y) % 2 == (x + y) % 2 && XorNat(x, y) / 2 == XorNat(x / 2, y / 2)
  {
    hide XorNat;
    if x == 0 {
      XorNothing(y);
      XorNothing(y / 2);
    } else if y == 0 {
      XorNothing(x);
      XorNothing(x / 2);
    } else {
      XorUnfold(x, y);
      Parity(x, y);
      ModOf(XorNat(x, y), XorNat(x / 2, y / 2), 2, if x % 2 != y % 2 then 1 else 0);
    }
  }

  lemma XorUnfold(x: nat, y: nat)
    requires x > 0 && y > 0
    ensures XorNat(x, y) == (if x % 2 != y % 2 then 1 else 0) + 2 * XorNat(x / 2, y / 2)
  {
  }

  lemma Parity(x: nat, y: nat)
    ensures (x + y) % 2 == if x % 2 != y % 2 then 1 else 0
  {
  }

  lemma XorNothing(x: nat)
    ensures XorNat(x, 0) == XorNat(0, x) == x
  {
  }

  lemma AndStepBit(x: nat, y: nat)
    ensures And(x, y) % 2 == (if x % 2 == 1 && y % 2 == 1 then 1 else 0) && And(x, y) / 2 == And(x / 2, y / 2)
  {
  }

  function Bit(x: nat, k: nat): nat {
    x / Pow2(k) % 2
  }

  lemma BitStep(x: nat, k: nat)
    ensures Bit(x, 0) == x % 2 && Bit(x, k + 1) == Bit(x / 2, k)
  {
    hide Pow2;
    assert Pow2(0) == 1 && Pow2(k + 1) == 2 * Pow2(k) by { Pow2Step(k); }
    DivTwice(x, Pow2(k));
  }

  lemma Pow2Step(k: nat)
    ensures Pow2(0) == 1 && Pow2(k + 1) == 2 * Pow2(k)
  {
  }

  lemma {:induction false} NatBits(x: nat, y: nat, k: nat)
    ensures Bit(XorNat(x, y), k) == (Bit(x, k) + Bit(y, k)) % 2
    ensures Bit(And(x, y), k) == if Bit(x, k) == 1 && Bit(y, k) == 1 then 1 else 0
    decreases k
  {
    hide Bit, XorNat, And;
    XorNatStep(x, y);
    AndStepBit(x, y);
    var j := if k == 0 then 0 else k - 1;
    BitStep(x, j);
    BitStep(y, j);
    BitStep(XorNat(x, y), j);
    BitStep(And(x, y), j);
    if k > 0 {
      NatBits(x / 2, y / 2, k - 1);
    }
  }

  /** Every bit of the conjunction is set exactly if it is set in both. */
  lemma AndBits(x: nat, y: nat, k: nat)
    ensures Bit(And(x, y), k) == 1 <==> Bit(x, k) == 1 && Bit(y, k) == 1
  {
    NatBits(x, y, k);
  }

  /** Every bit of the exclusive or is set exactly if it is set in one of the two. */
  lemma XorBits(x: byte, y: byte, k: nat)
    ensures Bit(Xor(x, y) as nat, k) == 1 <==> Bit(x as nat, k) != Bit(y as nat, k)
  {
    NatBits(x as nat, y as nat, k);
  }

  // ---------------------------------------------------------------- masked length field

  /** The big-endian two-byte length; a longer value loses its high bits, as the byte conversions do. */
  function Header(n: nat): (h: bytes) {
    [(n / 256 % 256) as byte, (n % 256) as byte]
  }

  function MaskedLength(h: bytes, mask: nat): (n: nat)
    requires |h| >= 2
    ensures n <= mask
  {
    And(h[0] as nat * 256 + h[1] as nat, mask)
  }

  predicate IsMask(m: nat) {
    exists k: nat :: k <= 16 && m + 1 == Pow2(k)
  }

  lemma {:induction false} AndMask(n: nat, k: nat)
    requires n < Pow2(k)
    ensures And(n, Pow2(k) - 1) == n
  {
    if n != 0 {
      AndMask(n / 2, k - 1);
      assert (Pow2(k) - 1) / 2 == Pow2(k - 1) - 1;
    }
  }

  lemma {:induction false} Pow2Monotone(j: nat, k: nat)
    requires j <= k
    ensures Pow2(j) <= Pow2(k)
  {
    if j < k {
      Pow2Monotone(j, k - 1);
    }
  }

  lemma Pow2Sixteen()
    ensures Pow2(16) == 65536
  {
    assert Pow2(4) == 16;
    assert Pow2(8) == 256;
    assert Pow2(12) == 4096;
  }

  lemma HeaderValue(n: nat)
    requires n < 65536
    ensures Header(n)[0] as nat * 256 + Header(n)[1] as nat == n
  {
  }

  lemma MaskRoundTrip(m: nat, n: nat)
    requires IsMask(m) && n <= m
    ensures MaskedLength(Header(n), m) == n
  {
    hide Pow2, And;
    var k: nat :| k <= 16 && m + 1 == Pow2(k);
    Pow2Monotone(k, 16);
    Pow2Sixteen();
    HeaderValue(n);
    AndMask(n, k);
  }

  /** If masking by `m` keeps every value up to `m`, then all the bits of `m` are ones. */
  lemma {:induction false} KeepsAllIsOnes(m: nat) returns (k: nat)
    requires forall n: nat | n <= m :: And(n, m) == n
    ensures m + 1 == Pow2(k)
  {
    if m == 0 {
      k := 0;
    } else {
      assert And(1, m) == 1;
      forall n: nat | n <= m / 2
        ensures And(n, m / 2) == n
      {
        assert And(2 * n, m) == 2 * n;
      }
      var j := KeepsAllIsOnes(m / 2);
      k := j + 1;
    }
  }

  lemma {:induction false} Pow2AtMost(k: nat)
    requires Pow2(k) <= 65536
    ensures k <= 16
  {
    if k > 16 {
      Pow2Sixteen();
      Pow2Monotone(17, k);
    }
  }

  /** A length of 65536 is sent as zero. */
  lemma HeaderWraps(m: nat)
    ensures MaskedLength(Header(65536), m) == 0
  {
  }

  /** The length field survives encoding and masking for every length up to the mask
      exactly when the mask is 2^k - 1 with k <= 16. */
  lemma MaskExact(m: nat)
    ensures (forall n: nat | n <= m :: MaskedLength(Header(n), m) == n) <==> IsMask(m)
  {
    if IsMask(m) {
      forall n: nat | n <= m
        ensures MaskedLength(Header(n), m) == n
      {
        MaskRoundTrip(m, n);
      }
    }
    if forall n: nat | n <= m :: MaskedLength(Header(n), m) == n {
      HeaderWraps(m);
      forall n: nat | n <= m
        ensures And(n, m) == n
      {
        HeaderValue(n);
        assert MaskedLength(Header(n), m) == n;
      }
      var k := KeepsAllIsOnes(m);
      Pow2AtMost(k);
    }
  }

  lemma ModDouble(n: nat, half: nat)
    requires half >= 1
    ensures n % (2 * half) == n % 2 + 2 * (n / 2 % half)
  {
    var x := n / 2;
    var q, r := x / half, x % half;
    assert x == q * half + r;
    assert q * (2 * half) == 2 * (q * half);
    ModOf(n, q, 2 * half, n % 2 + 2 * r);
  }

  lemma AndStep(n: nat, half: nat)
    requires n > 0 && half >= 1
    ensures And(n, 2 * half - 1) == n % 2 + 2 * And(n / 2, half - 1)
  {
    assert (2 * half - 1) / 2 == half - 1 && (2 * half - 1) % 2 == 1;
  }

  lemma {:induction false} AndIsMod(n: nat, k: nat)
    ensures And(n, Pow2(k) - 1) == n % Pow2(k)
  {
    hide And;
    if n == 0 || k == 0 {
      AndNothing(n);
      AndNothing(Pow2(k) - 1);
      ModSmall(0, Pow2(k));
    } else {
      AndIsMod(n / 2, k - 1);
      AndStep(n, Pow2(k - 1));
      ModDouble(n, Pow2(k - 1));
    }
  }

  lemma AndNothing(n: nat)
    ensures And(n, 0) == And(0, n) == 0
  {
  }

  /** Of any header the reader takes the low bits: the length is what the two bytes say exactly if
      that is at most the mask, and else what is left of it modulo the mask plus one. */
  lemma MaskedMod(h: bytes, m: nat)
    requires |h| >= 2 && IsMask(m)
    ensures var v := h[0] as nat * 256 + h[1] as nat;
            && MaskedLength(h, m) == v % (m + 1)
            && (MaskedLength(h, m) == v <==> v <= m)
  {
    hide Pow2, And;
    var v := h[0] as nat * 256 + h[1] as nat;
    var k: nat :| k <= 16 && m + 1 == Pow2(k);
    AndIsMod(v, k);
    if v <= m {
      ModSmall(v, m + 1);
    }
  }

  // ---------------------------------------------------------------- nonce counter

  function Pow256(n: nat): (r: nat)
    ensures r >= 1
  {
    if n == 0 then 1 else 256 * Pow256(n - 1)
  }

  /** The value of a little-endian unsigned integer. */
  function LEValue(s: bytes): nat {
    if s == [] then 0 else s[0] as nat + 256 * LEValue(s[1..])
  }

  /** One step of the counter: bump the first byte, and carry while a byte became zero. */
  function Bump(s: bytes): (r: bytes)
    ensures |r| == |s|
  {
    if s == [] then []
    else if s[0] < 255 then [s[0] + 1] + s[1..]
    else [0] + Bump(s[1..])
  }

  lemma {:induction false} BumpAddsOne(s: bytes)
    ensures LEValue(s) < Pow256(|s|)
    ensures LEValue(Bump(s)) == if LEValue(s) + 1 == Pow256(|s|) then 0 else LEValue(s) + 1
  {
    if s != [] {
      BumpAddsOne(s[1..]);
      assert Bump(s)[1..] == if s[0] < 255 then s[1..] else Bump(s[1..]);
    }
  }

  /** A run of 255s is cleared and the carry moves past it. */
  lemma {:induction false} BumpCarries(s: bytes, i: nat)
    requires i <= |s| && forall j | 0 <= j < i :: s[j] == 255
    ensures Bump(s) == Zeros(i) + Bump(s[i..])
  {
    if i == 0 {
      assert s[0..] == s && Zeros(0) + Bump(s) == Bump(s);
    } else {
      BumpCarries(s[1..], i - 1);
      assert s[1..][i - 1..] == s[i..];
      assert Zeros(i) == [0] + Zeros(i - 1);
      AppendAssociates([0], Zeros(i - 1), Bump(s[i..]));
    }
  }

  lemma BumpAt(s: bytes, i: nat, t: bytes)
    requires i <= |s| == |t| && forall j | 0 <= j < i :: s[j] == 255 && t[j] == 0
    requires i < |s| ==> s[i] < 255 && t[i] == s[i] + 1
    requires forall j | i < j < |s| :: t[j] == s[j]
    ensures t == Bump(s)
  {
    BumpCarries(s, i);
    assert t[..i] == Zeros(i);
    assert t[i..] == Bump(s[i..]);
  }

  /** The in-place counter of the record layer. */
  method Increment(b: array<byte>)
    modifies b
    ensures b[..] == Bump(old(b[..]))
  {
    hide Bump;
    ghost var was := b[..];
    for i := 0 to b.Length
      invariant forall j | 0 <= j < i :: was[j] == 255 && b[j] == 0
      invariant forall j | i <= j < b.Length :: b[j] == was[j]
    {
      b[i] := if b[i] == 255 then 0 else b[i] + 1;
      if b[i] != 0 {
        BumpAt(was, i, b[..]);
        return;
      }
    }
    BumpAt(was, |was|, b[..]);
  }

  /** The nonce after `i` increments of an all-zero array of `len` bytes. */
  function Nonce(len: nat, i: nat): (r: bytes)
    ensures |r| == len
  {
    if i == 0 then Zeros(len) else Bump(Nonce(len, i - 1))
  }

  lemma {:induction false} ZerosValue(len: nat)
    ensures LEValue(Zeros(len)) == 0
  {
    if len != 0 {
      ZerosValue(len - 1);
      assert Zeros(len)[1..] == Zeros(len - 1);
    }
  }

  lemma ModSuccessor(i: nat, n: nat)
    requires n >= 1
    ensures (i + 1) % n == if i % n + 1 == n then 0 else i % n + 1
  {
    var q, r := i / n, i % n;
    assert i == q * n + r;
    if r + 1 == n {
      assert (q + 1) * n == q * n + n;
      ModOf(i + 1, q + 1, n, 0);
    } else {
      ModOf(i + 1, q, n, r + 1);
    }
  }

  lemma ModOf(x: nat, q: nat, n: int, r: nat)
    requires r < n && x == q * n + r
    ensures x % n == r && x / n == q
  {
    var d := x / n - q;
    assert d * n == r - x % n by {
      assert x == (x / n) * n + x % n;
      assert d * n == (x / n) * n - q * n;
    }
    assert d >= 1 ==> d * n >= n;
    assert d <= -1 ==> d * n <= -n;
  }

  lemma ModSmall(x: nat, n: nat)
    requires x < n
    ensures x % n == x
  {
    ModOf(x, 0, n, x);
  }

  /** The counter counts modulo 256^len. */
  lemma {:induction false} NonceCounts(len: nat, i: nat)
    ensures LEValue(Nonce(len, i)) == i % Pow256(len)
  {
    if i == 0 {
      ZerosValue(len);
    } else {
      NonceCounts(len, i - 1);
      BumpAddsOne(Nonce(len, i - 1));
      ModSuccessor(i - 1, Pow256(len));
    }
  }

  /** No two of the first 256^len nonces are equal. */
  lemma NoncesDistinct(len: nat, i: nat, j: nat)
    requires i < Pow256(len) && j < Pow256(len)
    ensures Nonce(len, i) == Nonce(len, j) <==> i == j
  {
    ModSmall(i, Pow256(len));
    ModSmall(j, Pow256(len));
    NonceCounts(len, i);
    NonceCounts(len, j);
  }

  lemma {:induction false} LEValueInjective(s: bytes, t: bytes)
    requires |s| == |t| && LEValue(s) == LEValue(t)
    ensures s == t
  {
    if s != [] {
      LEValueInjective(s[1..], t[1..]);
      assert s == [s[0]] + s[1..] && t == [t[0]] + t[1..];
    }
  }

  /** Two counts give the same nonce exactly when they agree modulo 256^len. */
  lemma NoncePeriod(len: nat, i: nat, j: nat)
    ensures Nonce(len, i) == Nonce(len, j) <==> i % Pow256(len) == j % Pow256(len)
  {
    NonceCounts(len, i);
    NonceCounts(len, j);
    if i % Pow256(len) == j % Pow256(len) {
      LEValueInjective(Nonce(len, i), Nonce(len, j));
    }
  }

  /** The first n nonces are pairwise different exactly when there are at most 256^len of them. */
  lemma NoncesFresh(len: nat, n: nat)
    ensures (forall i: nat, j: nat | i < j < n :: Nonce(len, i) != Nonce(len, j)) <==> n <= Pow256(len)
  {
    hide Nonce, Pow256;
    var m := Pow256(len);
    if n <= m {
      forall i: nat, j: nat | i < j < n
        ensures Nonce(len, i) != Nonce(len, j)
      {
        NoncesDistinct(len, i, j);
      }
    } else {
      ModOf(m, 1, m, 0);
      ModSmall(0, m);
      NoncePeriod(len, 0, m);
      assert Nonce(len, 0) == Nonce(len, m);
    }
  }
}
