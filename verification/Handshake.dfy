/**
 Handshake processing as section 5.3 of the Noise Protocol Framework defines it: a
 party works through a list of tokens, writing or reading one message. Both sides of
 any legal token list stay in lock step; Noise_IK is two such lists.
 */
module Handshake {
  import opened Octets
  import opened Results
  import opened Crypto
  import opened Symmetric

  datatype Token = E | S | EE | ES | SE | SS

  datatype Tokens = Payload | Then(token: Token, rest: Tokens)

  // One party. Keys it has not got yet are whatever its fields hold.
  datatype Party = Party(
    initiator: bool, sym: Sym,
    s: Bytes32, sPub: Bytes32,       // own static pair
    e: Bytes32, ePub: Bytes32,       // own ephemeral pair
    rs: Bytes32, re: Bytes32)        // the peer's public keys

  // Where a run of tokens got to: the party's state, the bytes written so far or
  // the plaintext read, and what stopped it.
  datatype Progress = Progress(party: Party, bytes: Bytes, error: Option<Error>)

  /** The Diffie-Hellman a token stands for, from this party's side. */
  function SharedFor(p: Party, t: Token): Option<Bytes> {
    match t
    case EE => X25519(p.e, p.re)
    case ES => if p.initiator then X25519(p.e, p.rs) else X25519(p.s, p.re)
    case SE => if p.initiator then X25519(p.s, p.re) else X25519(p.e, p.rs)
    case SS => X25519(p.s, p.rs)
    case E => None
    case S => None
  }

  /** Writing one token; `eph` is the ephemeral secret the caller supplies. */
  function WriteToken(p: Party, t: Token, eph: Bytes32): Progress {
    match t
    case E => (
      match X25519(eph, BASEPOINT)
      case None => Progress(p.(e := eph), [], Some(IdentityPoint))
      case Some(pub) => Progress(p.(e := eph, ePub := pub, sym := MixedHash(p.sym, pub)), pub, None))
    case S =>
      var (sym, ct) := Encrypted(p.sym, p.sPub);
      Progress(p.(sym := sym), ct, None)
    case _ => (
      match SharedFor(p, t)
      case None => Progress(p, [], Some(IdentityPoint))
      case Some(k) => Progress(p.(sym := MixedKey(p.sym, k)), [], None))
  }

  /** Writes tokens, then the payload, onto `out`. */
  function Write(p: Party, ts: Tokens, eph: Bytes32, payload: Bytes, out: Bytes): Progress
    decreases ts
  {
    match ts
    case Payload =>
      var (sym, ct) := Encrypted(p.sym, payload);
      Progress(p.(sym := sym), out + ct, None)
    case Then(t, rest) =>
      var a := WriteToken(p, t, eph);
      if a.error.Some? then a.(bytes := out) else Write(a.party, rest, eph, payload, out + a.bytes)
  }

  function StaticLength(p: Party): nat {
    if p.sym.hasKey then 48 else 32
  }

  /** Reading one token; `bytes` is what is left of the message. */
  function ReadToken(p: Party, t: Token, msg: Bytes): Progress {
    match t
    case E =>
      if |msg| < 32 then Progress(p, msg, Some(Truncated))
      else Progress(p.(re := msg[..32], sym := MixedHash(p.sym, msg[..32])), msg[32..], None)
    case S => (
      if |msg| < StaticLength(p) then Progress(p, msg, Some(Truncated))
      else
        match Decrypted(p.sym, msg[..StaticLength(p)])
        case Err(e) => Progress(p, msg, Some(e))
        case Ok(d) => Progress(p.(rs := d.1, sym := d.0), msg[StaticLength(p)..], None))
    case _ => (
      match SharedFor(p, t)
      case None => Progress(p, msg, Some(IdentityPoint))
      case Some(k) => Progress(p.(sym := MixedKey(p.sym, k)), msg, None))
  }

  /** Reads tokens, then takes all that is left as the encrypted payload. */
  function Read(p: Party, ts: Tokens, msg: Bytes): Progress
    decreases ts
  {
    match ts
    case Payload => (
      match Decrypted(p.sym, msg)
      case Err(e) => Progress(p, [], Some(e))
      case Ok(d) => Progress(p.(sym := d.0), d.1, None))
    case Then(t, rest) =>
      var a := ReadToken(p, t, msg);
      if a.error.Some? then a.(bytes := []) else Read(a.party, rest, a.bytes)
  }

  // Lock step ----------------------------------------------------------------

  // Which public keys have crossed the wire (or were known beforehand).
  datatype Known = Known(eI: bool, eR: bool, sI: bool, sR: bool)

  predicate KeyPair(secret: Bytes, pub: Bytes) {
    X25519(secret, BASEPOINT) == Some(pub)
  }

  /** Initiator `i` and responder `r` agree: same symmetric state, and each holds the
      public keys the other has sent. */
  ghost predicate Mirror(i: Party, r: Party, k: Known) {
    && i.initiator && !r.initiator && i.sym == r.sym
    && KeyPair(i.s, i.sPub) && KeyPair(r.s, r.sPub)
    && (k.eI ==> KeyPair(i.e, i.ePub) && r.re == i.ePub)
    && (k.eR ==> KeyPair(r.e, r.ePub) && i.re == r.ePub)
    && (k.sI ==> r.rs == i.sPub)
    && (k.sR ==> i.rs == r.sPub)
  }

  /** A token may only use keys both sides have. */
  predicate Legal(t: Token, k: Known) {
    match t
    case E => true
    case S => true
    case EE => k.eI && k.eR
    case ES => k.eI && k.sR
    case SE => k.sI && k.eR
    case SS => k.sI && k.sR
  }

  function Learn(t: Token, byInitiator: bool, k: Known): Known {
    match t
    case E => if byInitiator then k.(eI := true) else k.(eR := true)
    case S => if byInitiator then k.(sI := true) else k.(sR := true)
    case _ => k
  }

  predicate LegalAll(ts: Tokens, byInitiator: bool, k: Known)
    decreases ts
  {
    match ts
    case Payload => true
    case Then(t, rest) => Legal(t, k) && LegalAll(rest, byInitiator, Learn(t, byInitiator, k))
  }

  function LearnAll(ts: Tokens, byInitiator: bool, k: Known): Known
    decreases ts
  {
    match ts
    case Payload => k
    case Then(t, rest) => LearnAll(rest, byInitiator, Learn(t, byInitiator, k))
  }

  lemma LegalStep(t: Token, rest: Tokens, byInitiator: bool, k: Known)
    ensures LegalAll(Then(t, rest), byInitiator, k) == (Legal(t, k) && LegalAll(rest, byInitiator, Learn(t, byInitiator, k)))
    ensures LearnAll(Then(t, rest), byInitiator, k) == LearnAll(rest, byInitiator, Learn(t, byInitiator, k))
    ensures LegalAll(Payload, byInitiator, k) && LearnAll(Payload, byInitiator, k) == k
  {
  }

  ghost predicate InStep(writer: Party, reader: Party, k: Known) {
    if writer.initiator then Mirror(writer, reader, k) else Mirror(reader, writer, k)
  }

  /** Both sides of a legal Diffie-Hellman token compute the same secret. */
  lemma SameSecret(i: Party, r: Party, k: Known, t: Token)
    requires Mirror(i, r, k) && Legal(t, k) && !t.E? && !t.S?
    ensures SharedFor(i, t) == SharedFor(r, t)
  {
    match t
    case EE => SharedSecret(i.e, r.e, i.ePub, r.ePub);
    case ES => SharedSecret(i.e, r.s, i.ePub, r.sPub);
    case SE => SharedSecret(i.s, r.e, i.sPub, r.ePub);
    case SS => SharedSecret(i.s, r.s, i.sPub, r.sPub);
  }

  /** One token: what was written is read, and the two sides stay in step. */
  lemma TokenInStep(w: Party, r: Party, k: Known, t: Token, eph: Bytes32, more: Bytes)
    requires InStep(w, r, k) && Legal(t, k) && WriteToken(w, t, eph).error.None?
    ensures var a := WriteToken(w, t, eph);
            var b := ReadToken(r, t, a.bytes + more);
            && b.error.None? && b.bytes == more && a.party.initiator == w.initiator
            && InStep(a.party, b.party, Learn(t, w.initiator, k))
  {
    hide MixedHash, MixedKey;
    var a := WriteToken(w, t, eph);
    match t
    case E =>
      assert (a.bytes + more)[..32] == a.bytes && (a.bytes + more)[32..] == more;
    case S =>
      DecryptsEncrypted(w.sym, w.sPub);
      var n := StaticLength(r);
      assert (a.bytes + more)[..n] == a.bytes && (a.bytes + more)[n..] == more;
    case EE => SameTokenSecret(w, r, k, t);
    case ES => SameTokenSecret(w, r, k, t);
    case SE => SameTokenSecret(w, r, k, t);
    case SS => SameTokenSecret(w, r, k, t);
  }

  lemma SameTokenSecret(w: Party, r: Party, k: Known, t: Token)
    requires InStep(w, r, k) && Legal(t, k) && !t.E? && !t.S?
    ensures SharedFor(w, t) == SharedFor(r, t)
  {
    hide SharedFor, Mirror;
    if w.initiator {
      SameSecret(w, r, k, t);
    } else {
      SameSecret(r, w, k, t);
    }
  }

  /** Whole messages, for every token list: if the writer gets through, the reader
      reads exactly that message, recovers the payload, and both end in step. */
  lemma {:induction false} LockStep(w: Party, r: Party, k: Known, ts: Tokens, eph: Bytes32, payload: Bytes)
    requires InStep(w, r, k) && LegalAll(ts, w.initiator, k) && Write(w, ts, eph, payload, []).error.None?
    ensures var a := Write(w, ts, eph, payload, []);
            var b := Read(r, ts, a.bytes);
            && b.error.None? && b.bytes == payload && a.party.initiator == w.initiator
            && InStep(a.party, b.party, LearnAll(ts, w.initiator, k))
    decreases ts
  {
    match ts
    case Payload =>
      var ct := Encrypted(w.sym, payload).1;
      assert [] + ct == ct;
      DecryptsEncrypted(w.sym, payload);
      assert InStep(w, r, k) ==> w.sym == r.sym;
    case Then(t, rest) =>
      hide WriteToken, ReadToken, InStep, Legal, Learn;
      var a := WriteToken(w, t, eph);
      var tail := Write(a.party, rest, eph, payload, []);
      assert [] + a.bytes == a.bytes;
      WriteShifts(a.party, rest, eph, payload, a.bytes);
      TokenInStep(w, r, k, t, eph, tail.bytes);
      var b := ReadToken(r, t, a.bytes + tail.bytes);
      LockStep(a.party, b.party, Learn(t, w.initiator, k), rest, eph, payload);
  }

  /** What is already on the buffer only goes in front. */
  lemma {:induction false} WriteShifts(p: Party, ts: Tokens, eph: Bytes32, payload: Bytes, out: Bytes)
    ensures var a := Write(p, ts, eph, payload, out);
            var b := Write(p, ts, eph, payload, []);
            a == b.(bytes := out + b.bytes)
    decreases ts
  {
    hide WriteToken;
    match ts
    case Payload =>
      var ct := Encrypted(p.sym, payload).1;
      assert [] + ct == ct;
    case Then(t, rest) =>
      var a := WriteToken(p, t, eph);
      assert out + [] == out;
      if a.error.None? {
        WriteShifts(a.party, rest, eph, payload, out + a.bytes);
        WriteShifts(a.party, rest, eph, payload, [] + a.bytes);
        assert [] + a.bytes == a.bytes;
        Associative(out, a.bytes, Write(a.party, rest, eph, payload, []).bytes);
      }
  }

  /** Writing never touches a party's own static pair or what it knows of the peer. */
  lemma {:induction false} WriteKeepsKeys(p: Party, ts: Tokens, eph: Bytes32, payload: Bytes, out: Bytes)
    ensures var q := Write(p, ts, eph, payload, out).party;
            q.initiator == p.initiator && q.s == p.s && q.sPub == p.sPub && q.rs == p.rs && q.re == p.re
    decreases ts
  {
    hide MixedHash, MixedKey, Encrypted, SharedFor;
    match ts
    case Payload =>
    case Then(t, rest) =>
      var a := WriteToken(p, t, eph);
      if a.error.None? {
        WriteKeepsKeys(a.party, rest, eph, payload, out + a.bytes);
      }
  }
}
