/**
 The Noise symmetric state (section 5.2 of the Noise Protocol Framework, revision
 34): HMAC and HKDF over BLAKE2s, nonces, and the object both parties update.
 */
module Symmetric {
  import opened Octets
  import opened Results
  import opened Crypto

  const HMAC_BLOCK := 64

  // HMAC and HKDF ------------------------------------------------------------

  function Pow2(w: nat): (r: nat)
    ensures r >= 1
  {
    if w == 0 then 1 else 2 * Pow2(w - 1)
  }

  /** The low `w` bits of a ^ b. */
  function XorBits(w: nat, a: nat, b: nat): (r: nat)
    ensures r < Pow2(w)
  {
    if w == 0 then 0 else 2 * XorBits(w - 1, a / 2, b / 2) + (a + b) % 2
  }

  lemma ByteBits()
    ensures Pow2(8) == 256
  {
    assert Pow2(4) == 16;
    assert Pow2(8) == 16 * Pow2(4);
  }

  /** Bit i of the result is set when bit i of exactly one operand is. */
  lemma {:induction false} XorBit(w: nat, a: nat, b: nat, i: nat)
    requires i < w
    ensures Without(XorBits(w, a, b), 2, i) % 2 == (Without(a, 2, i) + Without(b, 2, i)) % 2
  {
    if i > 0 {
      assert XorBits(w, a, b) / 2 == XorBits(w - 1, a / 2, b / 2);
      XorBit(w - 1, a / 2, b / 2, i - 1);
    }
  }

  function Xor(a: byte, b: byte): byte {
    ByteBits();
    XorBits(8, a, b)
  }

  lemma LowBitCancels(p: nat, q: nat, a: nat, b: nat, x: nat)
    requires 2 * p + (a + x) % 2 == 2 * q + (b + x) % 2
    ensures p == q && a % 2 == b % 2
  {
  }

  lemma {:induction false} XorBitsCancel(w: nat, a: nat, b: nat, x: nat)
    requires a < Pow2(w) && b < Pow2(w) && XorBits(w, a, x) == XorBits(w, b, x)
    ensures a == b
  {
    if w > 0 {
      LowBitCancels(XorBits(w - 1, a / 2, x / 2), XorBits(w - 1, b / 2, x / 2), a, b, x);
      XorBitsCancel(w - 1, a / 2, b / 2, x / 2);
    }
  }

  lemma XorCancels(a: byte, b: byte, x: byte)
    requires Xor(a, x) == Xor(b, x)
    ensures a == b
  {
    hide XorBits;
    ByteBits();
    XorBitsCancel(8, a, b, x);
  }

  /** The key block of section 2 of RFC 2104: hashed if too long, then zero-padded. */
  function BlockKey(key: Bytes): (k: Bytes)
    ensures |k| == HMAC_BLOCK
  {
    var k := if |key| > HMAC_BLOCK then Blake2s256(key) else key;
    k + Zeros(HMAC_BLOCK - |k|)
  }

  function Pad(key: Bytes, x: byte): (p: Bytes)
    ensures |p| == HMAC_BLOCK
  {
    seq(HMAC_BLOCK, i requires 0 <= i < HMAC_BLOCK => Xor(BlockKey(key)[i], x))
  }

  /** The pad is the key byte by byte, and past a short key the pad constant alone. */
  lemma PadBytes(key: Bytes, x: byte, i: nat)
    requires |key| <= HMAC_BLOCK && i < HMAC_BLOCK
    ensures Pad(key, x)[i] == if i < |key| then Xor(key[i], x) else x
  {
    hide Xor;
    XorZero(x);
  }

  /** A key longer than a block is hashed first. */
  lemma LongKeyHashed(key: Bytes, x: byte)
    requires |key| > HMAC_BLOCK
    ensures Pad(key, x) == Pad(Blake2s256(key), x)
  {
    hide Xor;
  }

  lemma XorZero(x: byte)
    ensures Xor(0, x) == x
  {
    hide XorBits;
    ByteBits();
    XorBitsZero(8, x);
  }

  lemma {:induction false} XorBitsZero(w: nat, x: nat)
    requires x < Pow2(w)
    ensures XorBits(w, 0, x) == x
  {
    if w > 0 {
      XorBitsZero(w - 1, x / 2);
    }
  }

  function Hmac(key: Bytes, data: Bytes): (h: Bytes32) {
    Blake2s256(Pad(key, 0x5c) + Blake2s256(Pad(key, 0x36) + data))
  }

  method HmacBlake2s(key: Bytes, data: Bytes) returns (h: Bytes32)
    ensures h == Hmac(key, data)
  {
    hide Xor;
    var k := BlockKey(key);
    var ipad, opad := new byte[HMAC_BLOCK], new byte[HMAC_BLOCK];
    for i := 0 to HMAC_BLOCK
      invariant forall j :: 0 <= j < i ==> ipad[j] == Xor(k[j], 0x36) && opad[j] == Xor(k[j], 0x5c)
    {
      ipad[i] := Xor(k[i], 0x36);
      opad[i] := Xor(k[i], 0x5c);
    }
    assert ipad[..] == Pad(key, 0x36) && opad[..] == Pad(key, 0x5c);
    var inner := Blake2s256(ipad[..] + data);
    h := Blake2s256(opad[..] + inner);
  }

  function Hkdf2(ck: Bytes32, ikm: Bytes): (Bytes32, Bytes32) {
    var temp := Hmac(ck, ikm);
    var o1 := Hmac(temp, [1]);
    (o1, Hmac(temp, o1 + [2]))
  }

  method Hkdf2Blake2s(ck: Bytes32, ikm: Bytes) returns (o1: Bytes32, o2: Bytes32)
    ensures (o1, o2) == Hkdf2(ck, ikm)
  {
    hide Hmac;
    var temp := HmacBlake2s(ck, ikm);
    o1 := HmacBlake2s(temp, [1]);
    o2 := HmacBlake2s(temp, o1 + [2]);
  }

  /** Everything the two outputs of one HKDF call hash. */
  ghost function HkdfInputs(ck: Bytes32, ikm: Bytes): set<Bytes> {
    var temp := Hmac(ck, ikm);
    var in1, in2 := Pad(temp, 0x36) + [1], Pad(temp, 0x36) + (Hmac(temp, [1]) + [2]);
    {in1, in2, Pad(temp, 0x5c) + Blake2s256(in1), Pad(temp, 0x5c) + Blake2s256(in2)}
  }

  /** The two derived keys differ unless the hash collides on its own inputs. */
  lemma HkdfOutputsDiffer(ck: Bytes32, ikm: Bytes)
    requires NoCollision(HkdfInputs(ck, ikm))
    ensures Hkdf2(ck, ikm).0 != Hkdf2(ck, ikm).1
  {
    hide Pad;
    var temp := Hmac(ck, ikm);
    var in1, in2 := Pad(temp, 0x36) + [1], Pad(temp, 0x36) + (Hmac(temp, [1]) + [2]);
    var out1, out2 := Pad(temp, 0x5c) + Blake2s256(in1), Pad(temp, 0x5c) + Blake2s256(in2);
    assert |in1| != |in2|;
    assert Blake2s256(in1) != Blake2s256(in2);
    assert out1[HMAC_BLOCK..] == Blake2s256(in1) && out2[HMAC_BLOCK..] == Blake2s256(in2);
    assert out1 != out2;
  }

  // Nonces -------------------------------------------------------------------

  /** Four zero bytes, then the counter, big-endian. */
  function TransportNonce(counter: uint64): (nonce: Bytes)
    ensures |nonce| == 12
  {
    Zeros(4) + BE(8, counter)
  }

  /** The nonce is the counter itself as a 12-byte big-endian number. */
  lemma NonceIsCounter(counter: uint64)
    ensures FromBE(TransportNonce(counter)) == counter
  {
    Widths();
    FromBEofBE(8, counter);
    LeadingZeros(4, BE(8, counter));
  }

  lemma {:induction false} LeadingZeros(n: nat, b: Bytes)
    ensures FromBE(Zeros(n) + b) == FromBE(b)
  {
    var s := Zeros(n) + b;
    if b != [] {
      assert s[..|s| - 1] == Zeros(n) + b[..|b| - 1];
      LeadingZeros(n, b[..|b| - 1]);
    } else if n > 0 {
      assert s == Zeros(n) && s[..n - 1] == Zeros(n - 1) + [];
      LeadingZeros(n - 1, []);
    }
  }

  lemma NonceInjective(a: uint64, b: uint64)
    ensures TransportNonce(a) == TransportNonce(b) ==> a == b
  {
    if TransportNonce(a) == TransportNonce(b) {
      assert TransportNonce(a)[4..] == BE(8, a) && TransportNonce(b)[4..] == BE(8, b);
      Widths();
      BEInjective(8, a, b);
    }
  }

  // The symmetric state ------------------------------------------------------

  datatype Sym = Sym(h: Bytes32, ck: Bytes32, k: Bytes32, n: uint64, hasKey: bool)

  // "Noise_IK_25519_ChaChaPoly_BLAKE2s"
  const PROTOCOL_NAME: Bytes := [
    78, 111, 105, 115, 101, 95, 73, 75, 95, 50, 53, 53, 49, 57, 95,
    67, 104, 97, 67, 104, 97, 80, 111, 108, 121, 95, 66, 76, 65, 75, 69, 50, 115
  ]

  function NewSym(): Sym {
    var h := Blake2s256(PROTOCOL_NAME);
    Sym(h, h, Zeros(32), 0, false)
  }

  function MixedHash(s: Sym, data: Bytes): Sym {
    s.(h := Blake2s256(s.h + data))
  }

  function MixedKey(s: Sym, ikm: Bytes): Sym {
    var (o1, o2) := Hkdf2(s.ck, ikm);
    Sym(s.h, o1, o2, 0, true)
  }

  function Bump(s: Sym): Sym {
    s.(n := (s.n + 1) % TWO_64)
  }

  function Encrypted(s: Sym, plaintext: Bytes): (Sym, Bytes) {
    if !s.hasKey then (MixedHash(s, plaintext), plaintext)
    else
      var ct := Seal(s.k, TransportNonce(s.n), plaintext, s.h);
      (MixedHash(Bump(s), ct), ct)
  }

  function Decrypted(s: Sym, ct: Bytes): Result<(Sym, Bytes)> {
    if !s.hasKey then Ok((MixedHash(s, ct), ct))
    else
      match Open(s.k, TransportNonce(s.n), ct, s.h)
      case None => Err(DecryptFailed)
      case Some(pt) => Ok((MixedHash(Bump(s), ct), pt))
  }

  function Split(s: Sym): (Bytes32, Bytes32) {
    Hkdf2(s.ck, [])
  }

  /** A peer in the same state recovers the plaintext and ends in the same state. */
  lemma DecryptsEncrypted(s: Sym, plaintext: Bytes)
    ensures Decrypted(s, Encrypted(s, plaintext).1) == Ok((Encrypted(s, plaintext).0, plaintext))
  {
  }

  lemma EncryptedLength(s: Sym, plaintext: Bytes)
    ensures |Encrypted(s, plaintext).1| == |plaintext| + if s.hasKey then 16 else 0
  {
  }

  class SymmetricState {
    var h: Bytes32
    var ck: Bytes32
    var k: Bytes32
    var n: uint64
    var hasKey: bool

    ghost function View(): Sym
      reads this
    {
      Sym(h, ck, k, n, hasKey)
    }

    constructor ()
      ensures View() == NewSym()
    {
      h := Blake2s256(PROTOCOL_NAME);
      ck := Blake2s256(PROTOCOL_NAME);
      k := Zeros(32);
      n := 0;
      hasKey := false;
    }

    method MixHash(data: Bytes)
      modifies this
      ensures View() == MixedHash(old(View()), data)
    {
      h := Blake2s256(h + data);
    }

    method MixKey(ikm: Bytes)
      modifies this
      ensures View() == MixedKey(old(View()), ikm)
    {
      hide Hkdf2;
      ck, k := Hkdf2Blake2s(ck, ikm);
      n := 0;
      hasKey := true;
    }

    method EncryptAndHash(plaintext: Bytes) returns (ct: Bytes)
      modifies this
      ensures (View(), ct) == Encrypted(old(View()), plaintext)
    {
      if !hasKey {
        MixHash(plaintext);
        return plaintext;
      }
      ct := Seal(k, TransportNonce(n), plaintext, h);
      n := (n + 1) % TWO_64;
      MixHash(ct);
    }

    /** A failed open leaves the state as it was. */
    method DecryptAndHash(ct: Bytes) returns (r: Result<Bytes>)
      modifies this
      ensures match Decrypted(old(View()), ct)
              case Ok(p) => r == Ok(p.1) && View() == p.0
              case Err(e) => r == Err(e) && View() == old(View())
    {
      if !hasKey {
        MixHash(ct);
        return Ok(ct);
      }
      var pt := Open(k, TransportNonce(n), ct, h);
      if pt.None? {
        return Err(DecryptFailed);
      }
      n := (n + 1) % TWO_64;
      MixHash(ct);
      return Ok(pt.value);
    }

    /** A Diffie-Hellman token: dh, then mixKey; a low-order point changes nothing. */
    method MixDh(secret: Bytes32, pub: Bytes32) returns (r: Result<()>)
      modifies this
      ensures match X25519(secret, pub)
              case None => r == Err(IdentityPoint) && View() == old(View())
              case Some(shared) => r == Ok(()) && View() == MixedKey(old(View()), shared) && hasKey
    {
      hide Hkdf2;
      var shared := X25519(secret, pub);
      if shared.None? {
        return Err(IdentityPoint);
      }
      MixKey(shared.value);
      return Ok(());
    }

    /** Bytes copied to a fixed offset of the message buffer, and mixHash of them. */
    method HashInto(out: array<byte>, off: nat, data: Bytes)
      requires off + |data| <= out.Length
      modifies this, out
      ensures View() == MixedHash(old(View()), data)
      ensures out[..] == Splice(old(out[..]), off, data)
    {
      hide MixedHash;
      CopyInto(out, off, data);
      MixHash(data);
    }

    /** encryptAndHash, the result copied to a fixed offset of the message buffer. */
    method SealInto(out: array<byte>, off: nat, plaintext: Bytes)
      requires off + |plaintext| + 16 <= out.Length
      modifies this, out
      ensures View() == Encrypted(old(View()), plaintext).0
      ensures |Encrypted(old(View()), plaintext).1| <= |plaintext| + 16
      ensures out[..] == Splice(old(out[..]), off, Encrypted(old(View()), plaintext).1)
    {
      hide MixedHash;
      var ct := EncryptAndHash(plaintext);
      CopyInto(out, off, ct);
    }
  }
}
