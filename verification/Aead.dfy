/** Authenticated encryption as the record and packet layers see it, and the per-session ciphers that derive it. */
module Aead {
  import opened Bytes

  /** `sealFn` and `openFn` stand for one keyed instance of a cipher.AEAD; no additional data is used. */
  datatype AEAD = AEAD(nonceSize: nat, overhead: nat,
                       sealFn: (bytes, bytes) -> bytes, openFn: (bytes, bytes) -> Option<bytes>)
  {
    function Seal(nonce: bytes, plain: bytes): bytes {
      sealFn(nonce, plain)
    }

    function Open(nonce: bytes, sealed: bytes): Option<bytes> {
      openFn(nonce, sealed)
    }

    ghost predicate SealsAt(n: bytes, p: bytes) {
      |n| == nonceSize ==> |Seal(n, p)| == |p| + overhead && Open(n, Seal(n, p)) == Some(p)
    }

    ghost predicate OpensAt(n: bytes, s: bytes) {
      |n| == nonceSize && Open(n, s).Some? ==> |Open(n, s).value| + overhead == |s|
    }

    /** What the layers need: a tag of fixed positive length, and opening undoes sealing. */
    ghost predicate Lawful() {
      && overhead > 0
      && (forall n, p {:trigger SealsAt(n, p)} :: SealsAt(n, p))
      && (forall n, s {:trigger OpensAt(n, s)} :: OpensAt(n, s))
    }

    lemma SealLaw(n: bytes, p: bytes)
      requires Lawful() && |n| == nonceSize
      ensures |Seal(n, p)| == |p| + overhead
      ensures Open(n, Seal(n, p)) == Some(p)
    {
      assert SealsAt(n, p);
    }

    lemma OpenLaw(n: bytes, s: bytes)
      requires Lawful() && |n| == nonceSize && Open(n, s).Some?
      ensures |Open(n, s).value| + overhead == |s|
    {
      assert OpensAt(n, s);
    }
  }

  /** A pre-shared-key cipher: the same subkey derivation serves both directions, and it can fail. */
  datatype Cipher = Cipher(saltSize: nat, derive: bytes -> Option<AEAD>) {
    function Session(salt: bytes): Option<AEAD> {
      derive(salt)
    }

    ghost predicate Lawful() {
      forall salt :: |salt| == saltSize && Session(salt).Some? ==> Session(salt).value.Lawful()
    }
  }

  // ------------------------------------------------- an instance, to show that the laws are consistent

  /** The tag is the nonce itself. */
  function NonceTagged(size: nat): AEAD {
    AEAD(size, size,
         (n: bytes, p: bytes) => p + n,
         (n: bytes, s: bytes) =>
           if |s| >= |n| && s[|s| - |n|..] == n then Some(s[..|s| - |n|]) else None)
  }

  lemma NonceTaggedLawful(size: nat)
    requires size > 0
    ensures NonceTagged(size).Lawful()
  {
    var a := NonceTagged(size);
    forall n: bytes, p: bytes
      ensures a.SealsAt(n, p)
    {
      assert (p + n)[|p|..] == n && (p + n)[..|p|] == p;
    }
    forall n: bytes, s: bytes
      ensures a.OpensAt(n, s)
    {
    }
  }

  /** What was sealed at one nonce opens at no other. */
  lemma NonceTaggedBinds(size: nat, n: bytes, n': bytes, p: bytes)
    requires |n| == |n'| == size
    ensures NonceTagged(size).Open(n', NonceTagged(size).Seal(n, p)).Some? <==> n == n'
  {
    assert (p + n)[|p|..] == n;
  }
}
