/** The cryptographic primitives as unknown functions.

    A `Suite` is any choice of the primitives that obeys `Lawful`; every theorem of the
    project holds for all of them.  `Toy` is one member, so the laws are consistent.
    The associated data, nonce and key layouts are concrete; only the primitives are not. */
module Crypto {
  import opened Prelude

  const TAG := 16               // Poly1305 tag, section 2.8 of RFC 8439
  const KEY := 32
  const PUBLIC_KEY := 1216      // ML-KEM-768 key and X25519 key
  const KEM_CIPHERTEXT := 1120  // ML-KEM-768 ciphertext and X25519 share

  datatype Purpose = WrapV1 | WrapV2 | HeaderMac | Payload

  datatype ArgonParams = ArgonParams(time: nat, memoryKiB: nat, threads: nat)

  datatype Primitives = Primitives(
    aeadSeal: (Bytes, Bytes, Bytes, Bytes) -> Bytes,          // key, nonce, plaintext, associated data
    aeadOpen: (Bytes, Bytes, Bytes, Bytes) -> Option<Bytes>,  // key, nonce, ciphertext, associated data
    hkdf: (Bytes, Bytes, Purpose) -> Bytes,                   // secret, salt, info
    hmac: (Bytes, Bytes) -> Bytes,                            // key, message
    argon: (Bytes, Bytes, ArgonParams) -> Bytes,              // passphrase, salt, parameters
    publicKey: Bytes -> Bytes,                                // seed
    encapsulate: (Bytes, Bytes) -> Option<(Bytes, Bytes)>,    // public key, coins; shared secret and ciphertext
    decapsulate: (Bytes, Bytes) -> Option<Bytes>)             // seed, ciphertext

  ghost predicate AeadLaws(c: Primitives) {
    && (forall k, n, p, a :: |c.aeadSeal(k, n, p, a)| == |p| + TAG)
    && (forall k, n, p, a :: c.aeadOpen(k, n, c.aeadSeal(k, n, p, a), a) == Some(p))
    && (forall k, n, x, a :: c.aeadOpen(k, n, x, a).Some? ==> x == c.aeadSeal(k, n, c.aeadOpen(k, n, x, a).value, a))
  }

  ghost predicate KemLaws(c: Primitives) {
    && (forall seed :: |c.publicKey(seed)| == PUBLIC_KEY)
    && (forall pub, coins :: c.encapsulate(pub, coins).Some? ==>
          |pub| == PUBLIC_KEY && |c.encapsulate(pub, coins).value.1| == KEM_CIPHERTEXT)
    && (forall seed, coins :: c.encapsulate(c.publicKey(seed), coins).Some?)
    && (forall seed, coins :: c.encapsulate(c.publicKey(seed), coins).Some? ==>
          c.decapsulate(seed, c.encapsulate(c.publicKey(seed), coins).value.1)
          == Some(c.encapsulate(c.publicKey(seed), coins).value.0))
  }

  ghost predicate KeyLengths(c: Primitives) {
    && (forall s, n, i :: |c.hkdf(s, n, i)| == KEY)
    && (forall k, m :: |c.hmac(k, m)| == 32)
    && (forall p, s, a :: |c.argon(p, s, a)| == KEY)
  }

  ghost predicate Lawful(c: Primitives) {
    AeadLaws(c) && KemLaws(c) && KeyLengths(c)
  }

  function Zeros(n: nat): (z: Bytes) ensures |z| == n { seq(n, _ => 0) }

  /** A suite with the given sealing and no secrecy elsewhere. */
  function ToyWith(aeadSeal: (Bytes, Bytes, Bytes, Bytes) -> Bytes,
                   aeadOpen: (Bytes, Bytes, Bytes, Bytes) -> Option<Bytes>): Primitives
  {
    Primitives(
      aeadSeal,
      aeadOpen,
      (s, n, i) => Zeros(KEY),
      (k, m) => Zeros(32),
      (p, s, a) => Zeros(KEY),
      seed => Zeros(PUBLIC_KEY),
      (pub: Bytes, coins) => if |pub| == PUBLIC_KEY then Some((Zeros(KEY), Zeros(KEM_CIPHERTEXT))) else None,
      (seed, ct) => Some(Zeros(KEY)))
  }

  /** A suite with no secrecy at all, whose tag is always the same. */
  function Toy(tag: Bytes): Primitives
    requires |tag| == TAG
  {
    ToyWith(
      (k, n, p, a) => p + tag,
      (k, n, x: Bytes, a) => if |x| >= TAG && x[|x| - TAG..] == tag then Some(x[..|x| - TAG]) else None)
  }

  /** The laws can be met together. */
  lemma ToyIsLawful(tag: Bytes)
    requires |tag| == TAG
    ensures Lawful(Toy(tag))
  {
    var c := Toy(tag);
    forall k: Bytes, n: Bytes, p: Bytes, a: Bytes
      ensures c.aeadOpen(k, n, c.aeadSeal(k, n, p, a), a) == Some(p)
    {
      var x := c.aeadSeal(k, n, p, a);
      assert x[|x| - TAG..] == tag && x[..|x| - TAG] == p;
    }
  }

  type Suite = c: Primitives | Lawful(c) ghost witness (ToyIsLawful(Zeros(TAG)); Toy(Zeros(TAG)))

  // ----- the primitives as the rest of the project calls them

  function Seal(c: Suite, k: Bytes, n: Bytes, p: Bytes, a: Bytes): (x: Bytes)
    ensures |x| == |p| + TAG
  {
    c.aeadSeal(k, n, p, a)
  }

  function Open(c: Suite, k: Bytes, n: Bytes, x: Bytes, a: Bytes): (r: Option<Bytes>)
    ensures r.Some? ==> x == Seal(c, k, n, r.value, a) && |x| == |r.value| + TAG
  {
    c.aeadOpen(k, n, x, a)
  }

  lemma OpenSealed(c: Suite, k: Bytes, n: Bytes, p: Bytes, a: Bytes)
    ensures Open(c, k, n, Seal(c, k, n, p, a), a) == Some(p)
  {
  }

  function Hkdf(c: Suite, secret: Bytes, salt: Bytes, info: Purpose): (k: Bytes)
    ensures |k| == KEY
  {
    c.hkdf(secret, salt, info)
  }

  function Hmac(c: Suite, key: Bytes, message: Bytes): (m: Bytes)
    ensures |m| == 32
  {
    c.hmac(key, message)
  }

  function Argon(c: Suite, pass: Bytes, salt: Bytes, params: ArgonParams): (k: Bytes)
    ensures |k| == KEY
  {
    c.argon(pass, salt, params)
  }

  function PublicKey(c: Suite, seed: Bytes): (pub: Bytes)
    ensures |pub| == PUBLIC_KEY
  {
    c.publicKey(seed)
  }

  function Encapsulate(c: Suite, pub: Bytes, coins: Bytes): (r: Option<(Bytes, Bytes)>)
    ensures r.Some? ==> |pub| == PUBLIC_KEY && |r.value.1| == KEM_CIPHERTEXT
  {
    c.encapsulate(pub, coins)
  }

  /** The source rejects a ciphertext of the wrong length before any arithmetic. */
  function Decapsulate(c: Suite, seed: Bytes, ct: Bytes): Option<Bytes> {
    if |ct| != KEM_CIPHERTEXT then None else c.decapsulate(seed, ct)
  }

  lemma DecapsulateEncapsulated(c: Suite, seed: Bytes, coins: Bytes)
    ensures var e := Encapsulate(c, PublicKey(c, seed), coins);
            e.Some? && Decapsulate(c, seed, e.value.1) == Some(e.value.0)
  {
  }
}
