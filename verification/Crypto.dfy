/**
 The cryptographic primitives, kept abstract. `suite` is an arbitrary member of
 `LawfulSuite`: nothing is known about it but the functional laws below, so every
 theorem of the project holds for every suite that obeys them. No secrecy,
 unforgeability or collision resistance is assumed anywhere; results that need
 the absence of a collision say so on the inputs concerned.
 */
module Crypto {
  import opened Octets
  import opened Results
  import opened Hex

  datatype Suite = Suite(
    hash: Bytes -> Bytes,                              // BLAKE2s-256
    keyedHash: (Bytes, Bytes) -> Bytes,                // BLAKE2s-128 with a key
    x25519: (Bytes, Bytes) -> Option<Bytes>,           // scalar, point
    seal: (Bytes, Bytes, Bytes, Bytes) -> Bytes,       // key, nonce, plaintext, associated data
    open: (Bytes, Bytes, Bytes, Bytes) -> Option<Bytes>,
    edPublic: Bytes -> Bytes,                          // seed
    edSign: (Bytes, Bytes) -> Bytes,                   // seed, message
    edVerify: (Bytes, Bytes, Bytes) -> bool)           // public key, message, signature

  const BASEPOINT: Bytes := [9] + Zeros(31)

  ghost predicate DigestLengths(s: Suite) {
    && (forall m: Bytes :: |s.hash(m)| == 32)
    && (forall k: Bytes, m: Bytes :: |s.keyedHash(k, m)| == 16)
  }

  /** Two secrets with public points reach the same shared secret, or both fail. */
  ghost predicate DhCommutes(s: Suite) {
    && (forall a: Bytes, p: Bytes :: s.x25519(a, p).Some? ==> |s.x25519(a, p).value| == 32)
    && (forall a: Bytes, b: Bytes ::
          s.x25519(a, BASEPOINT).Some? && s.x25519(b, BASEPOINT).Some? ==>
            s.x25519(a, s.x25519(b, BASEPOINT).value) == s.x25519(b, s.x25519(a, BASEPOINT).value))
  }

  /** Open inverts Seal exactly, and sealing appends a 16-byte tag. */
  ghost predicate OpenInvertsSeal(s: Suite) {
    && (forall k: Bytes, n: Bytes, p: Bytes, a: Bytes :: |s.seal(k, n, p, a)| == |p| + 16)
    && (forall k: Bytes, n: Bytes, p: Bytes, a: Bytes :: s.open(k, n, s.seal(k, n, p, a), a) == Some(p))
    && (forall k: Bytes, n: Bytes, c: Bytes, a: Bytes ::
          s.open(k, n, c, a).Some? ==> c == s.seal(k, n, s.open(k, n, c, a).value, a))
  }

  ghost predicate VerifyAcceptsSign(s: Suite) {
    && (forall k: Bytes :: |s.edPublic(k)| == 32)
    && (forall k: Bytes, m: Bytes :: |s.edSign(k, m)| == 64)
    && (forall k: Bytes, m: Bytes :: s.edVerify(s.edPublic(k), m, s.edSign(k, m)))
  }

  ghost predicate Lawful(s: Suite) {
    DigestLengths(s) && DhCommutes(s) && OpenInvertsSeal(s) && VerifyAcceptsSign(s)
  }

  // A degenerate suite; it only shows that the laws are consistent.
  const DEGENERATE: Suite := Suite(
    m => Zeros(32),
    (k, m) => Zeros(16),
    (a, p) => Some(Zeros(32)),
    (k, n, p, a) => p + Zeros(16),
    (k, n, c, a) => if |c| >= 16 && c[|c| - 16..] == Zeros(16) then Some(c[..|c| - 16]) else None,
    k => Zeros(32),
    (k, m) => Zeros(64),
    (k, m, g) => true)

  type LawfulSuite = s: Suite | Lawful(s) witness DEGENERATE

  const suite: LawfulSuite

  function Blake2s256(m: Bytes): (h: Bytes)
    ensures |h| == 32
  {
    suite.hash(m)
  }

  function Blake2s128Keyed(key: Bytes, m: Bytes): (h: Bytes)
    ensures |h| == 16
  {
    suite.keyedHash(key, m)
  }

  function X25519(scalar: Bytes, point: Bytes): (r: Option<Bytes>)
    ensures r.Some? ==> |r.value| == 32
  {
    suite.x25519(scalar, point)
  }

  lemma SharedSecret(a: Bytes, b: Bytes, pubA: Bytes, pubB: Bytes)
    requires X25519(a, BASEPOINT) == Some(pubA) && X25519(b, BASEPOINT) == Some(pubB)
    ensures X25519(a, pubB) == X25519(b, pubA)
  {
  }

  function Seal(key: Bytes, nonce: Bytes, plaintext: Bytes, ad: Bytes): (c: Bytes)
    ensures |c| == |plaintext| + 16
    ensures Open(key, nonce, c, ad) == Some(plaintext)
  {
    suite.seal(key, nonce, plaintext, ad)
  }

  function Open(key: Bytes, nonce: Bytes, c: Bytes, ad: Bytes): (p: Option<Bytes>)
    ensures p.Some? ==> |c| == |p.value| + 16
  {
    suite.open(key, nonce, c, ad)
  }

  lemma OpenedWasSealed(key: Bytes, nonce: Bytes, c: Bytes, ad: Bytes)
    requires Open(key, nonce, c, ad).Some?
    ensures c == Seal(key, nonce, Open(key, nonce, c, ad).value, ad)
  {
  }

  /** The Ed25519 public key of a 32-byte seed. */
  function EdPublic(seed: Bytes): (pub: Bytes)
    ensures |pub| == 32
  {
    suite.edPublic(seed)
  }

  /** The model reaches the suite with every argument in its place: nonce, associated data
      and key are all passed on. */
  lemma SuiteReached(key: Bytes, nonce: Bytes, text: Bytes, ad: Bytes)
    ensures Blake2s256(text) == suite.hash(text) && Blake2s128Keyed(key, text) == suite.keyedHash(key, text)
    ensures X25519(key, text) == suite.x25519(key, text)
    ensures Seal(key, nonce, text, ad) == suite.seal(key, nonce, text, ad)
    ensures Open(key, nonce, text, ad) == suite.open(key, nonce, text, ad)
    ensures EdPublic(key) == suite.edPublic(key)
  {
  }

  // One-byte tags prepended to every signed structure.
  const DOMAIN_CERT: byte := 0x01
  const DOMAIN_ENVELOPE: byte := 0x02
  const DOMAIN_SPAN: byte := 0x03
  const DOMAIN_GRANT: byte := 0x04
  const DOMAIN_BINDING: byte := 0x05

  /** Ed25519 over (tag || tbs). */
  function SignTagged(tag: byte, tbs: Bytes, seed: Bytes): (sig: Bytes)
    ensures |sig| == 64
  {
    suite.edSign(seed, [tag] + tbs)
  }

  function VerifySigned(tag: byte, tbs: Bytes, sig: Bytes, pubkey: Bytes): (r: Result<()>) {
    if |pubkey| != 32 then Err(MalformedKey)
    else if |sig| != 64 then Err(BadSignature)
    else if !suite.edVerify(pubkey, [tag] + tbs, sig) then Err(BadSignature)
    else Ok(())
  }

  lemma SignedVerifies(tag: byte, tbs: Bytes, seed: Bytes)
    ensures VerifySigned(tag, tbs, SignTagged(tag, tbs, seed), EdPublic(seed)) == Ok(())
  {
  }

  /** A signature is accepted exactly for a 32-byte key and a 64-byte signature that
      Ed25519 verifies over (tag || tbs); the length errors come first. */
  lemma SignatureVerdict(tag: byte, tbs: Bytes, sig: Bytes, pubkey: Bytes)
    ensures VerifySigned(tag, tbs, sig, pubkey) ==
            if |pubkey| == 32 && |sig| == 64 && suite.edVerify(pubkey, [tag] + tbs, sig) then Ok(())
            else if |pubkey| == 32 then Err(BadSignature)
            else Err(MalformedKey)
  {
  }

  /** This seed's signature over `m` does not also verify over `n`. */
  ghost predicate SignatureBinds(seed: Bytes, m: Bytes, n: Bytes) {
    suite.edVerify(EdPublic(seed), n, suite.edSign(seed, m)) ==> m == n
  }

  /** Tags keep the signed structures apart: a signature made under one tag and message
      verifies under exactly that tag and message. */
  lemma SignedOnlyAs(tag: byte, tbs: Bytes, asTag: byte, asTbs: Bytes, seed: Bytes)
    requires SignatureBinds(seed, [tag] + tbs, [asTag] + asTbs)
    ensures VerifySigned(asTag, asTbs, SignTagged(tag, tbs, seed), EdPublic(seed)).Ok? <==> asTag == tag && asTbs == tbs
  {
    if [tag] + tbs == [asTag] + asTbs {
      assert ([tag] + tbs)[0] == tag && ([tag] + tbs)[1..] == tbs;
      assert ([asTag] + asTbs)[0] == asTag && ([asTag] + asTbs)[1..] == asTbs;
    }
  }

  /** No two kinds of signed structure share a tag. */
  lemma DomainsApart()
    ensures |{DOMAIN_CERT, DOMAIN_ENVELOPE, DOMAIN_SPAN, DOMAIN_GRANT, DOMAIN_BINDING}| == 5
  {
    var four := {DOMAIN_CERT, DOMAIN_ENVELOPE, DOMAIN_SPAN, DOMAIN_GRANT};
    assert DOMAIN_BINDING !in four;
    assert |{DOMAIN_CERT, DOMAIN_ENVELOPE, DOMAIN_SPAN}| == 3;
  }

  /** The inputs `ms` are pairwise told apart by the protocol hash. */
  ghost predicate NoCollision(ms: set<Bytes>) {
    forall a: Bytes, b: Bytes :: a in ms && b in ms && Blake2s256(a) == Blake2s256(b) ==> a == b
  }

  /** The keyed hash tells these two inputs apart, key included. */
  ghost predicate NoKeyedCollision(k: Bytes, m: Bytes, l: Bytes, n: Bytes) {
    Blake2s128Keyed(k, m) == Blake2s128Keyed(l, n) ==> k == l && m == n
  }

  /** The executor fingerprint inside resource ids: 16 lowercase hex characters. */
  function Fingerprint(sigPubkey: Bytes): (fp: Bytes)
    ensures |fp| == 16
  {
    HexString(Blake2s256(sigPubkey)[..8])
  }

  /** It names the key by the first eight bytes of its hash, in lower-case hex. */
  lemma FingerprintNames(sigPubkey: Bytes)
    ensures forall i :: 0 <= i < 16 ==> LowerHex(Fingerprint(sigPubkey)[i])
    ensures DecodeHex(Fingerprint(sigPubkey)) == Some(Blake2s256(sigPubkey)[..8])
  {
    EncodesLower(Blake2s256(sigPubkey)[..8]);
    DecodesEncoded(Blake2s256(sigPubkey)[..8]);
  }
}
