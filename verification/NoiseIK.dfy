/**
 Noise_IK: the two messages, their framing and mac1, and what an honest run of the
 handshake establishes.
 */
module NoiseIK {
  import opened Octets
  import opened Results
  import opened Crypto
  import opened Symmetric
  import opened Handshake

  const MSG1_SIZE := 144
  const MSG2_SIZE := 92

  const OFF1_SENDER_INDEX := 4
  const OFF1_EPHEMERAL := 8
  const OFF1_ENC_STATIC := 40
  const OFF1_ENC_TIME := 88
  const OFF1_MAC1 := 112
  const OFF1_MAC2 := 128

  const OFF2_SENDER_INDEX := 4
  const OFF2_RECEIVER_INDEX := 8
  const OFF2_EPHEMERAL := 12
  const OFF2_ENC_NOTHING := 44
  const OFF2_MAC1 := 60
  const OFF2_MAC2 := 76

  // "bolina-mac1-v2"
  const MAC1_LABEL: Bytes := [98, 111, 108, 105, 110, 97, 45, 109, 97, 99, 49, 45, 118, 50]

  function IK1(): Tokens {
    Then(E, Then(ES, Then(S, Then(SS, Payload))))
  }

  function IK2(): Tokens {
    Then(E, Then(EE, Then(SE, Payload)))
  }

  /** BLAKE2s-128 over the bytes before it, keyed from the responder's signing key. */
  function Mac1(responderSigPub: Bytes, preceding: Bytes): (m: Bytes)
    ensures |m| == 16
  {
    Blake2s128Keyed(Blake2s256(MAC1_LABEL + responderSigPub), preceding)
  }

  function Sealed(responderSigPub: Bytes, preceding: Bytes, mac2: Bytes): Bytes {
    preceding + (Mac1(responderSigPub, preceding) + mac2)
  }

  function Message1(senderIndex: uint32, body: Bytes, responderSigPub: Bytes, mac2: Bytes): Bytes {
    Sealed(responderSigPub, [1, 0, 0, 0] + BE(4, senderIndex) + body, mac2)
  }

  function Message2(senderIndex: uint32, receiverIndex: uint32, body: Bytes, responderSigPub: Bytes, mac2: Bytes): Bytes {
    Sealed(responderSigPub, [2, 0, 0, 0] + BE(4, senderIndex) + BE(4, receiverIndex) + body, mac2)
  }

  // The two parties, as values ------------------------------------------------

  function NewInitiator(s: Bytes32, sPub: Bytes32, responderStatic: Bytes32): Party {
    Party(true, MixedHash(NewSym(), responderStatic), s, sPub, Zeros(32), Zeros(32), responderStatic, Zeros(32))
  }

  function NewResponder(s: Bytes32, sPub: Bytes32): Party {
    Party(false, MixedHash(NewSym(), sPub), s, sPub, Zeros(32), Zeros(32), Zeros(32), Zeros(32))
  }

  function WriteInitiation(p: Party, senderIndex: uint32, timestampMS: uint64, eph: Bytes32,
                           responderSigPub: Bytes32, mac2: Bytes16): Progress {
    var a := Write(p, IK1(), eph, BE(8, timestampMS), []);
    if a.error.Some? then a else a.(bytes := Message1(senderIndex, a.bytes, responderSigPub, mac2))
  }

  function ReadInitiation(p: Party, msg: Bytes, responderSigPub: Bytes32): Progress {
    if |msg| < MSG1_SIZE then Progress(p, [], Some(BufferTooSmall))
    else if Mac1(responderSigPub, msg[..OFF1_MAC1]) != msg[OFF1_MAC1..OFF1_MAC2] then Progress(p, [], Some(Mac1Failed))
    else Read(p, IK1(), msg[OFF1_EPHEMERAL..OFF1_MAC1])
  }

  function WriteResponse(p: Party, senderIndex: uint32, receiverIndex: uint32, eph: Bytes32,
                         responderSigPub: Bytes32, mac2: Bytes16): Progress {
    var a := Write(p, IK2(), eph, [], []);
    if a.error.Some? then a else a.(bytes := Message2(senderIndex, receiverIndex, a.bytes, responderSigPub, mac2))
  }

  function ReadResponse(p: Party, msg: Bytes, responderSigPub: Bytes32): Progress {
    if |msg| < MSG2_SIZE then Progress(p, [], Some(BufferTooSmall))
    else if Mac1(responderSigPub, msg[..OFF2_MAC1]) != msg[OFF2_MAC1..OFF2_MAC2] then Progress(p, [], Some(Mac1Failed))
    else Read(p, IK2(), msg[OFF2_EPHEMERAL..OFF2_MAC1])
  }

  datatype Keys = Keys(send: Bytes32, recv: Bytes32, h: Bytes32)

  function Finalize(p: Party): Keys {
    var (c1, c2) := Split(p.sym);
    if p.initiator then Keys(c1, c2, p.sym.h) else Keys(c2, c1, p.sym.h)
  }

  // The two messages, token by token ------------------------------------------

  /** How message 1 is written: it stops at the first token that fails, with what is
      already on the buffer. */
  lemma IK1Written(p: Party, eph: Bytes32, payload: Bytes)
    ensures var w := Write(p, IK1(), eph, payload, []);
            var a := WriteToken(p, E, eph);
            var b := WriteToken(a.party, ES, eph);
            var c := WriteToken(b.party, S, eph);
            var d := WriteToken(c.party, SS, eph);
            var (sym, ct) := Encrypted(d.party.sym, payload);
            && (a.error.Some? ==> w == a.(bytes := []))
            && (a.error.None? && b.error.Some? ==> w == b.(bytes := a.bytes))
            && (a.error.None? && b.error.None? && d.error.Some? ==> w == d.(bytes := a.bytes + c.bytes))
            && (a.error.None? && b.error.None? && d.error.None? ==>
                  w == Progress(d.party.(sym := sym), a.bytes + c.bytes + ct, None))
  {
    hide MixedHash, MixedKey, Encrypted;
    var a := WriteToken(p, E, eph);
    var c := WriteToken(WriteToken(a.party, ES, eph).party, S, eph);
    assert [] + a.bytes == a.bytes;
    assert a.bytes + [] == a.bytes;
    assert a.bytes + c.bytes + [] == a.bytes + c.bytes;
  }

  lemma IK2Written(p: Party, eph: Bytes32)
    ensures var w := Write(p, IK2(), eph, [], []);
            var a := WriteToken(p, E, eph);
            var b := WriteToken(a.party, EE, eph);
            var c := WriteToken(b.party, SE, eph);
            var (sym, ct) := Encrypted(c.party.sym, []);
            && (a.error.Some? ==> w == a.(bytes := []))
            && (a.error.None? && b.error.Some? ==> w == b.(bytes := a.bytes))
            && (a.error.None? && b.error.None? && c.error.Some? ==> w == c.(bytes := a.bytes))
            && (a.error.None? && b.error.None? && c.error.None? ==>
                  w == Progress(c.party.(sym := sym), a.bytes + ct, None))
  {
    hide MixedHash, MixedKey, Encrypted;
    var a := WriteToken(p, E, eph);
    assert [] + a.bytes == a.bytes;
    assert a.bytes + [] == a.bytes;
  }

  /** How message 1 is read: it stops at the first token that fails. */
  lemma IK1Read(p: Party, body: Bytes)
    requires |body| == 104
    ensures var r := Read(p, IK1(), body);
            var a := ReadToken(p, E, body);
            var b := ReadToken(a.party, ES, body[32..]);
            var c := ReadToken(b.party, S, body[32..]);
            var d := ReadToken(c.party, SS, body[80..]);
            var e := Decrypted(d.party.sym, body[80..]);
            && (b.error.Some? ==> r.party == b.party && r.error == b.error)
            && (b.error.None? && c.error.Some? ==> r.party == c.party && r.error == c.error)
            && (b.error.None? && c.error.None? && d.error.Some? ==> r.party == d.party && r.error == d.error)
            && (b.error.None? && c.error.None? && d.error.None? ==>
                  (e.Err? ==> r.party == d.party && r.error == Some(e.error))
                  && (e.Ok? ==> r == Progress(d.party.(sym := e.value.0), e.value.1, None)))
  {
    hide MixedHash, Hkdf2, Decrypted;
    assert body[32..][48..] == body[80..];
  }

  lemma IK2Read(p: Party, body: Bytes)
    requires |body| == 48
    ensures var r := Read(p, IK2(), body);
            var a := ReadToken(p, E, body);
            var b := ReadToken(a.party, EE, body[32..]);
            var c := ReadToken(b.party, SE, body[32..]);
            var e := Decrypted(c.party.sym, body[32..]);
            && (b.error.Some? ==> r.party == b.party && r.error == b.error)
            && (b.error.None? && c.error.Some? ==> r.party == c.party && r.error == c.error)
            && (b.error.None? && c.error.None? ==>
                  (e.Err? ==> r.party == c.party && r.error == Some(e.error))
                  && (e.Ok? ==> r == Progress(c.party.(sym := e.value.0), e.value.1, None)))
  {
    hide MixedHash, Hkdf2, Decrypted;
  }

  // Framing ------------------------------------------------------------------

  lemma SealedParts(sigPub: Bytes, preceding: Bytes, mac2: Bytes16, t: Bytes)
    ensures var m, n := Sealed(sigPub, preceding, mac2) + t, |preceding|;
            && |m| == n + 32 + |t| && m[..n] == preceding
            && m[n..n + 16] == Mac1(sigPub, preceding) && m[n + 16..n + 32] == mac2
  {
    var m, n := Sealed(sigPub, preceding, mac2) + t, |preceding|;
    assert m == preceding + (Mac1(sigPub, preceding) + (mac2 + t));
  }

  /** A framed message passes the length and mac1 checks, and its body is where the
      reader looks for it, whatever follows the message in the buffer. */
  lemma Message1Opens(p: Party, idx: uint32, body: Bytes, sigPub: Bytes32, mac2: Bytes16, t: Bytes)
    requires |body| == 104
    ensures ReadInitiation(p, Message1(idx, body, sigPub, mac2) + t, sigPub) == Read(p, IK1(), body)
  {
    hide Read, Mac1, Sealed;
    var before := [1, 0, 0, 0] + BE(4, idx) + body;
    SealedParts(sigPub, before, mac2, t);
    var m := Message1(idx, body, sigPub, mac2) + t;
    assert m[8..112] == m[..112][8..] == body;
  }

  lemma Message2Opens(p: Party, idx: uint32, peer: uint32, body: Bytes, sigPub: Bytes32, mac2: Bytes16, t: Bytes)
    requires |body| == 48
    ensures ReadResponse(p, Message2(idx, peer, body, sigPub, mac2) + t, sigPub) == Read(p, IK2(), body)
  {
    hide Read, Mac1, Sealed;
    var before := [2, 0, 0, 0] + BE(4, idx) + BE(4, peer) + body;
    SealedParts(sigPub, before, mac2, t);
    var m := Message2(idx, peer, body, sigPub, mac2) + t;
    assert m[12..60] == m[..60][12..] == body;
  }

  /** Equal macs mean the same signing key and the same bytes before them, unless the keyed
      hash or the hash of the key collides. */
  lemma Mac1Binds(a: Bytes32, m: Bytes, b: Bytes32, n: Bytes)
    requires Mac1(a, m) == Mac1(b, n) && NoCollision({MAC1_LABEL + a, MAC1_LABEL + b})
    requires NoKeyedCollision(Blake2s256(MAC1_LABEL + a), m, Blake2s256(MAC1_LABEL + b), n)
    ensures a == b && m == n
  {
    var l := |MAC1_LABEL|;
    assert (MAC1_LABEL + a)[l..] == a && (MAC1_LABEL + b)[l..] == b;
  }

  /** Message 1 by position. */
  lemma Message1Bytes(idx: uint32, body: Bytes, sigPub: Bytes32, mac2: Bytes16)
    requires |body| == 104
    ensures var m := Message1(idx, body, sigPub, mac2);
            && |m| == MSG1_SIZE && m[..4] == [1, 0, 0, 0] && m[4..8] == BE(4, idx) && m[8..112] == body
            && m[112..128] == Mac1(sigPub, m[..112]) && m[128..144] == mac2
  {
    hide BE, Mac1;
    var m, before := Message1(idx, body, sigPub, mac2), [1, 0, 0, 0] + BE(4, idx) + body;
    SealedParts(sigPub, before, mac2, []);
    assert m + [] == m;
    assert m[..4] == m[..112][..4] && m[4..8] == m[..112][4..8] && m[8..112] == m[..112][8..];
  }

  /** Message 2 by position: the responder's own index before the one it answers. */
  lemma Message2Bytes(idx: uint32, peer: uint32, body: Bytes, sigPub: Bytes32, mac2: Bytes16)
    requires |body| == 48
    ensures var m := Message2(idx, peer, body, sigPub, mac2);
            && |m| == MSG2_SIZE && m[..4] == [2, 0, 0, 0] && m[4..8] == BE(4, idx) && m[8..12] == BE(4, peer)
            && m[12..60] == body && m[60..76] == Mac1(sigPub, m[..60]) && m[76..92] == mac2
  {
    hide BE, Mac1;
    var m, before := Message2(idx, peer, body, sigPub, mac2), [2, 0, 0, 0] + BE(4, idx) + BE(4, peer) + body;
    SealedParts(sigPub, before, mac2, []);
    assert m + [] == m;
    assert m[..4] == m[..60][..4] && m[4..8] == m[..60][4..8] && m[8..12] == m[..60][8..12] && m[12..60] == m[..60][12..];
  }

  // Agreement ----------------------------------------------------------------

  lemma Body1(p: Party, eph: Bytes32, ts: uint64)
    requires Write(p, IK1(), eph, BE(8, ts), []).error.None?
    ensures |Write(p, IK1(), eph, BE(8, ts), []).bytes| == 104
  {
    hide MixedHash, BE;
  }

  lemma Body2(p: Party, eph: Bytes32)
    requires Write(p, IK2(), eph, [], []).error.None?
    ensures |Write(p, IK2(), eph, [], []).bytes| == 48
  {
    hide MixedHash;
  }

  lemma IK1Legal()
    ensures LegalAll(IK1(), true, Known(false, false, false, true))
    ensures LearnAll(IK1(), true, Known(false, false, false, true)) == Known(true, false, true, true)
  {
    hide LegalAll, LearnAll;
    var k := Known(true, false, true, true);
    LegalStep(E, Then(ES, Then(S, Then(SS, Payload))), true, Known(false, false, false, true));
    LegalStep(ES, Then(S, Then(SS, Payload)), true, k.(sI := false));
    LegalStep(S, Then(SS, Payload), true, k.(sI := false));
    LegalStep(SS, Payload, true, k);
  }

  lemma IK2Legal()
    ensures LegalAll(IK2(), false, Known(true, false, true, true))
    ensures LearnAll(IK2(), false, Known(true, false, true, true)) == Known(true, true, true, true)
  {
    hide LegalAll, LearnAll;
    var k := Known(true, true, true, true);
    LegalStep(E, Then(EE, Then(SE, Payload)), false, k.(eR := false));
    LegalStep(EE, Then(SE, Payload), false, k);
    LegalStep(SE, Payload, false, k);
  }

  /** Message 1, honestly delivered: the responder learns the initiator's static key
      and both hold the same symmetric state. */
  lemma InitiationAgrees(i: Party, r: Party, idx: uint32, ts: uint64, eph: Bytes32, sigPub: Bytes32, mac2: Bytes16, t: Bytes)
    requires Mirror(i, r, Known(false, false, false, true))
    requires WriteInitiation(i, idx, ts, eph, sigPub, mac2).error.None?
    ensures var a := WriteInitiation(i, idx, ts, eph, sigPub, mac2);
            var b := ReadInitiation(r, a.bytes + t, sigPub);
            && b.error.None? && b.bytes == BE(8, ts)
            && Mirror(a.party, b.party, Known(true, false, true, true)) && a.party.sPub == i.sPub
  {
    hide Write, Read, Mirror, BE, ReadInitiation, Message1, LegalAll, LearnAll, IK1;
    var k := Known(false, false, false, true);
    IK1Legal();
    MirrorSides(i, r, k);
    LockStep(i, r, k, IK1(), eph, BE(8, ts));
    WriteKeepsKeys(i, IK1(), eph, BE(8, ts), []);
    Body1(i, eph, ts);
    Message1Opens(r, idx, Write(i, IK1(), eph, BE(8, ts), []).bytes, sigPub, mac2, t);
  }

  lemma ResponseAgrees(i: Party, r: Party, idx: uint32, peer: uint32, eph: Bytes32, sigPub: Bytes32, mac2: Bytes16, t: Bytes)
    requires Mirror(i, r, Known(true, false, true, true))
    requires WriteResponse(r, idx, peer, eph, sigPub, mac2).error.None?
    ensures var a := WriteResponse(r, idx, peer, eph, sigPub, mac2);
            var b := ReadResponse(i, a.bytes + t, sigPub);
            b.error.None? && Mirror(b.party, a.party, Known(true, true, true, true))
  {
    hide Write, Read, Mirror, BE, ReadResponse, Message2, LegalAll, LearnAll, IK2;
    var k := Known(true, false, true, true);
    IK2Legal();
    MirrorSides(i, r, k);
    LockStep(r, i, k, IK2(), eph, []);
    Body2(r, eph);
    Message2Opens(i, idx, peer, Write(r, IK2(), eph, [], []).bytes, sigPub, mac2, t);
  }

  lemma MirrorSides(i: Party, r: Party, k: Known)
    requires Mirror(i, r, k)
    ensures i.initiator && !r.initiator
  {
  }

  /** Message 1 can be written: no low-order point in the ephemeral pair, es or ss. */
  predicate CanInitiate(s: Bytes32, rs: Bytes32, eph: Bytes32) {
    X25519(eph, BASEPOINT).Some? && X25519(eph, rs).Some? && X25519(s, rs).Some?
  }

  /** Message 2 can be written, to an initiator with these public keys. */
  predicate CanRespond(eph: Bytes32, re: Bytes32, rs: Bytes32) {
    X25519(eph, BASEPOINT).Some? && X25519(eph, re).Some? && X25519(eph, rs).Some?
  }

  lemma InitiatesIff(p: Party, idx: uint32, ts: uint64, eph: Bytes32, sigPub: Bytes32, mac2: Bytes16)
    requires p.initiator
    ensures var a := WriteInitiation(p, idx, ts, eph, sigPub, mac2);
            && (a.error.None? <==> CanInitiate(p.s, p.rs, eph))
            && (a.error.Some? ==> a.error == Some(IdentityPoint))
            && (a.error.None? ==> X25519(eph, BASEPOINT) == Some(a.party.ePub))
  {
    hide MixedHash, MixedKey, Encrypted, Write, Message1;
    IK1Written(p, eph, BE(8, ts));
  }

  lemma RespondsIff(p: Party, idx: uint32, peer: uint32, eph: Bytes32, sigPub: Bytes32, mac2: Bytes16)
    requires !p.initiator
    ensures var a := WriteResponse(p, idx, peer, eph, sigPub, mac2);
            && (a.error.None? <==> CanRespond(eph, p.re, p.rs))
            && (a.error.Some? ==> a.error == Some(IdentityPoint))
  {
    hide MixedHash, MixedKey, Encrypted, Write, Message2;
    IK2Written(p, eph);
  }

  /** No Diffie-Hellman of the whole handshake meets a low-order point. */
  predicate Completes(sI: Bytes32, pI: Bytes32, pR: Bytes32, eI: Bytes32, eR: Bytes32) {
    CanInitiate(sI, pR, eI) && CanRespond(eR, X25519(eI, BASEPOINT).value, pI)
  }

  /** Handshake agreement, for all key pairs, ephemerals, timestamps, indices and
      cookies: a side can write its message exactly when its own key operations meet no
      low-order point; what is written the other side reads, the responder learns the
      initiator's static key, and the session keys cross. */
  lemma HandshakeAgrees(
    sI: Bytes32, pI: Bytes32, sR: Bytes32, pR: Bytes32, eI: Bytes32, eR: Bytes32, ts: uint64,
    idxI: uint32, idxR: uint32, echo: uint32, sigPub: Bytes32, mac2I: Bytes16, mac2R: Bytes16, t1: Bytes, t2: Bytes)
    requires KeyPair(sI, pI) && KeyPair(sR, pR)
    ensures var i1 := WriteInitiation(NewInitiator(sI, pI, pR), idxI, ts, eI, sigPub, mac2I);
            var r1 := ReadInitiation(NewResponder(sR, pR), i1.bytes + t1, sigPub);
            var r2 := WriteResponse(r1.party, idxR, echo, eR, sigPub, mac2R);
            var i2 := ReadResponse(i1.party, r2.bytes + t2, sigPub);
            && (i1.error.None? <==> CanInitiate(sI, pR, eI))
            && (i1.error.None? ==>
                  && r1.error.None? && r1.party.rs == pI && r1.party.sym == i1.party.sym
                  && (r2.error.None? <==> Completes(sI, pI, pR, eI, eR)))
            && (i1.error.None? && r2.error.None? ==>
                  && i2.error.None? && i2.party.sym == r2.party.sym
                  && Finalize(i2.party).send == Finalize(r2.party).recv
                  && Finalize(i2.party).recv == Finalize(r2.party).send
                  && Finalize(i2.party).h == Finalize(r2.party).h)
  {
    hide WriteInitiation, ReadInitiation, WriteResponse, ReadResponse, MixedHash, Split, CanInitiate, CanRespond;
    var i0, r0 := NewInitiator(sI, pI, pR), NewResponder(sR, pR);
    InitiatesIff(i0, idxI, ts, eI, sigPub, mac2I);
    var i1 := WriteInitiation(i0, idxI, ts, eI, sigPub, mac2I);
    if i1.error.None? {
      assert Mirror(i0, r0, Known(false, false, false, true));
      InitiationAgrees(i0, r0, idxI, ts, eI, sigPub, mac2I, t1);
      var r1 := ReadInitiation(r0, i1.bytes + t1, sigPub).party;
      RespondsIff(r1, idxR, echo, eR, sigPub, mac2R);
      if WriteResponse(r1, idxR, echo, eR, sigPub, mac2R).error.None? {
        ResponseAgrees(i1.party, r1, idxR, echo, eR, sigPub, mac2R, t2);
      }
    }
  }

  /** The two directions use different keys, unless the hash collides in the split. */
  lemma DirectionsDiffer(p: Party)
    requires NoCollision(HkdfInputs(p.sym.ck, []))
    ensures Finalize(p).send != Finalize(p).recv
  {
    hide Hkdf2, HkdfInputs;
    HkdfOutputsDiffer(p.sym.ck, []);
  }
}
