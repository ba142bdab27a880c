/**
 Transport packets, the binding frame, and the session they form after a handshake.
 */
module Transport {
  import opened Octets
  import opened Results
  import opened Crypto
  import opened Symmetric
  import opened Certs
  import opened Validation
  import opened Spans
  import Layout
  import Handshake
  import NoiseIK

  const TRANSPORT_TYPE: byte := 4
  const TRANSPORT_HDR_LEN := 16
  const TAG_LEN := 16

  // Packets ------------------------------------------------------------------

  function Header(receiverIndex: uint32, counter: uint64): (hdr: Bytes)
    ensures |hdr| == TRANSPORT_HDR_LEN
  {
    [TRANSPORT_TYPE, 0, 0, 0] + BE(4, receiverIndex) + BE(8, counter)
  }

  /** A type-4 packet: the header, then the payload sealed with the header as associated data. */
  function Packet(key: Bytes32, receiverIndex: uint32, counter: uint64, plaintext: Bytes): Bytes {
    Header(receiverIndex, counter)
    + Seal(key, TransportNonce(counter), plaintext, Header(receiverIndex, counter))
  }

  method SealTransport(key: Bytes32, receiverIndex: uint32, counter: uint64, plaintext: Bytes) returns (packet: Bytes)
    ensures packet == Packet(key, receiverIndex, counter, plaintext)
  {
    hide BE;
    var hdr := new byte[TRANSPORT_HDR_LEN](_ => 0);
    hdr[0] := TRANSPORT_TYPE;
    assert hdr[..4] == [TRANSPORT_TYPE, 0, 0, 0];
    CopyInto(hdr, 4, BE(4, receiverIndex));
    CopyInto(hdr, 8, BE(8, counter));
    assert hdr[..] == Header(receiverIndex, counter);
    packet := hdr[..] + Seal(key, TransportNonce(counter), plaintext, hdr[..]);
  }

  function OpenTransport(key: Bytes32, packet: Bytes): Result<(Bytes, uint64)> {
    if |packet| < TRANSPORT_HDR_LEN + TAG_LEN then Err(BufferTooSmall)
    else if packet[0] != TRANSPORT_TYPE then Err(NotTransport)
    else
      Widths();
      var counter: uint64 := FromBE(packet[8..16]);
      match Open(key, TransportNonce(counter), packet[TRANSPORT_HDR_LEN..], packet[..TRANSPORT_HDR_LEN])
      case None => Err(DecryptFailed)
      case Some(pt) => Ok((pt, counter))
  }

  /** Opening undoes sealing, for every index and counter. */
  lemma OpensSealed(key: Bytes32, receiverIndex: uint32, counter: uint64, plaintext: Bytes)
    ensures OpenTransport(key, Packet(key, receiverIndex, counter, plaintext)) == Ok((plaintext, counter))
  {
    hide BE, FromBE;
    var hdr := Header(receiverIndex, counter);
    var packet := Packet(key, receiverIndex, counter, plaintext);
    assert packet[..16] == hdr && packet[16..] == Seal(key, TransportNonce(counter), plaintext, hdr);
    assert packet[8..16] == hdr[8..16] == BE(8, counter);
    Widths();
    FromBEofBE(8, counter);
  }

  /** A packet opens only when its payload was sealed under its own header; apart
      from the three reserved bytes, which are not looked at, it is then the packet
      SealTransport builds. */
  lemma OpensOnlySealed(key: Bytes32, packet: Bytes, plaintext: Bytes, counter: uint64)
    requires OpenTransport(key, packet) == Ok((plaintext, counter))
    ensures |packet| == TRANSPORT_HDR_LEN + |plaintext| + TAG_LEN
    ensures packet[..16] == [TRANSPORT_TYPE] + packet[1..8] + BE(8, counter)
    ensures packet == packet[..16] + Seal(key, TransportNonce(counter), plaintext, packet[..16])
    ensures packet[1..4] == [0, 0, 0] ==>
              exists receiverIndex: uint32 :: packet == Packet(key, receiverIndex, counter, plaintext)
  {
    hide BE, FromBE;
    BEofFromBE(packet[8..16]);
    OpenedWasSealed(key, TransportNonce(counter), packet[16..], packet[..16]);
    if packet[1..4] == [0, 0, 0] {
      Widths();
      BEofFromBE(packet[4..8]);
      var receiverIndex: uint32 := FromBE(packet[4..8]);
      var hdr := Header(receiverIndex, counter);
      HeaderParts(packet);
      assert [packet[0]] + packet[1..4] == [TRANSPORT_TYPE, 0, 0, 0];
      assert packet[..16] == hdr;
      assert packet == Packet(key, receiverIndex, counter, plaintext);
    }
  }

  /** A packet by position: its fields, and what is sealed behind them. */
  lemma PacketBytes(key: Bytes32, receiverIndex: uint32, counter: uint64, plaintext: Bytes)
    ensures var m := Packet(key, receiverIndex, counter, plaintext);
            && |m| == 32 + |plaintext| && m[..4] == [4, 0, 0, 0]
            && m[4..8] == BE(4, receiverIndex) && m[8..16] == BE(8, counter)
            && m[16..] == Seal(key, TransportNonce(counter), plaintext, m[..16])
  {
    hide BE, TransportNonce;
    var m, hdr := Packet(key, receiverIndex, counter, plaintext), Header(receiverIndex, counter);
    assert m[..16] == hdr && m[16..] == Seal(key, TransportNonce(counter), plaintext, hdr);
    assert m[..4] == hdr[..4] && m[4..8] == hdr[4..8] && m[8..16] == hdr[8..16];
  }

  /** Opening gives exactly what was sealed under the packet's own counter and header,
      whatever the reserved bytes and the index; the refusals in order are too short, not a
      data packet, and nothing sealed so. */
  lemma OpenVerdict(key: Bytes32, packet: Bytes)
    ensures |packet| < 32 ==> OpenTransport(key, packet) == Err(BufferTooSmall)
    ensures |packet| >= 32 && packet[0] != 4 ==> OpenTransport(key, packet) == Err(NotTransport)
    ensures |packet| >= 32 && packet[0] == 4 ==>
              var r := OpenTransport(key, packet);
              && (r.Err? ==> r.error == DecryptFailed)
              && forall pt: Bytes, c: uint64 :: r == Ok((pt, c)) <==>
                   c == FromBE(packet[8..16]) && packet[16..] == Seal(key, TransportNonce(c), pt, packet[..16])
  {
    hide FromBE, TransportNonce;
    if |packet| >= 32 && packet[0] == 4 {
      Widths();
      var c: uint64 := FromBE(packet[8..16]);
      if Open(key, TransportNonce(c), packet[16..], packet[..16]).Some? {
        OpenedWasSealed(key, TransportNonce(c), packet[16..], packet[..16]);
      }
    }
  }

  lemma HeaderParts(s: Bytes)
    requires |s| >= 16
    ensures s[..16] == [s[0]] + s[1..4] + s[4..8] + s[8..16]
  {
    assert s[..4] == [s[0]] + s[1..4];
    assert s[..8] == s[..4] + s[4..8];
    assert s[..16] == s[..8] + s[8..16];
  }

  // Binding frames -----------------------------------------------------------

  /** u16be cert length (truncated to 16 bits), the cert, and a signature over (0x05 || h). */
  function BindingFrame(cert: Bytes, seed: Bytes, h: Bytes32): Bytes {
    BE(2, |cert|) + cert + SignTagged(DOMAIN_BINDING, h, seed)
  }

  method BuildBindingFrame(cert: Bytes, seed: Bytes, h: Bytes32) returns (frame: Bytes)
    ensures frame == BindingFrame(cert, seed, h)
  {
    hide BE;
    var sig := SignTagged(DOMAIN_BINDING, h, seed);
    var out := new byte[2 + |cert| + |sig|];
    CopyInto(out, 0, BE(2, |cert|));
    CopyInto(out, 2, cert);
    CopyInto(out, 2 + |cert|, sig);
    frame := out[..];
  }

  function ParseBindingFrame(frame: Bytes): Result<(Bytes, Bytes)> {
    if |frame| < 2 then Err(Truncated)
    else
      var certLen := FromBE(frame[..2]);
      if |frame| != 2 + certLen + LEN_SIG then Err(LengthMismatch)
      else Ok((frame[2..2 + certLen], frame[2 + certLen..]))
  }

  /** A frame splits back into its parts exactly when the 16-bit length held. */
  lemma BindingFrameSplits(cert: Bytes, seed: Bytes, h: Bytes32)
    ensures ParseBindingFrame(BindingFrame(cert, seed, h)) ==
            if |cert| < TWO_16 then Ok((cert, SignTagged(DOMAIN_BINDING, h, seed))) else Err(LengthMismatch)
  {
    hide BE, FromBE;
    var frame := BindingFrame(cert, seed, h);
    assert frame[..2] == BE(2, |cert|);
    Widths();
    if |cert| < TWO_16 {
      FromBEofBE(2, |cert|);
      assert frame[2..2 + |cert|] == cert;
    } else {
      assert FromBE(frame[..2]) < Pow256(2);
    }
  }

  /** Everything VerifyBindingFrame asks for before it returns `x`. */
  ghost predicate Binds(frame: Bytes, h: Bytes32, trusted: seq<Bytes>, x: Cert) {
    && ParseBindingFrame(frame).Ok?
    && var (cert, sig) := ParseBindingFrame(frame).value;
    && CertIn(x, cert) && PairsHeld(x)
    && ValidateCertChainNoClock(x, trusted).Ok?
    && VerifySigned(DOMAIN_BINDING, h, sig, x.sigPubkey).Ok?
  }

  /** The error of the first step that fails: splitting, parsing, the chain, the signature. */
  ghost predicate RefusedWith(frame: Bytes, h: Bytes32, trusted: seq<Bytes>, e: Error) {
    if ParseBindingFrame(frame).Err? then e == ParseBindingFrame(frame).error
    else
      var (cert, sig) := ParseBindingFrame(frame).value;
      || Layout.Decode(CertLayout(), cert) == Err(e)
      || exists x :: CertIn(x, cert) && PairsHeld(x) && ChainOrSignatureFails(x, h, sig, trusted, e)
  }

  ghost predicate ChainOrSignatureFails(x: Cert, h: Bytes32, sig: Bytes, trusted: seq<Bytes>, e: Error)
    requires PairsHeld(x)
  {
    match ValidateCertChainNoClock(x, trusted)
    case Err(f) => e == f
    case Ok(_) => VerifySigned(DOMAIN_BINDING, h, sig, x.sigPubkey).Err? && e == BadSignature
  }

  method VerifyBindingFrame(frame: Bytes, h: Bytes32, trusted: seq<Bytes>) returns (r: Result<Cert>)
    ensures r.Ok? ==> Binds(frame, h, trusted, r.value)
    ensures r.Err? ==> RefusedWith(frame, h, trusted, r.error) && forall x :: !Binds(frame, h, trusted, x)
  {
    hide CertIn, ValidateCertChainNoClock, VerifySigned, ParseBindingFrame;
    var parts :- ParseBindingFrame(frame);
    var parsed := ParseCert(parts.0);
    if parsed.Err? {
      forall x ensures !CertIn(x, parts.0) { RefusedCert(parts.0, x); }
      return Err(parsed.error);
    }
    var cert := parsed.value;
    CertInIff(cert, parts.0);
    forall x | CertIn(x, parts.0) ensures x == cert { CertInUnique(x, cert, parts.0); }
    var chain := ValidateCertChainNoClock(cert, trusted);
    if chain.Err? {
      assert ChainOrSignatureFails(cert, h, parts.1, trusted, chain.error);
      return Err(chain.error);
    }
    if VerifySigned(DOMAIN_BINDING, h, parts.1, cert.sigPubkey).Err? {
      assert ChainOrSignatureFails(cert, h, parts.1, trusted, BadSignature);
      return Err(BadSignature);
    }
    return Ok(cert);
  }

  /** A frame parses into a certificate and a signature exactly when it is their concatenation
      behind the certificate's length. */
  lemma FrameIff(frame: Bytes, cert: Bytes, sig: Bytes)
    ensures ParseBindingFrame(frame) == Ok((cert, sig)) <==>
            |cert| < TWO_16 && |sig| == 64 && frame == BE(2, |cert|) + cert + sig
  {
    hide ParseBindingFrame, BE;
    if ParseBindingFrame(frame) == Ok((cert, sig)) {
      FrameParsed(frame, cert, sig);
    }
    if |cert| < TWO_16 && |sig| == 64 && frame == BE(2, |cert|) + cert + sig {
      FrameParses(cert, sig);
    }
  }

  lemma FrameParsed(frame: Bytes, cert: Bytes, sig: Bytes)
    requires ParseBindingFrame(frame) == Ok((cert, sig))
    ensures |cert| < TWO_16 && |sig| == 64 && frame == BE(2, |cert|) + cert + sig
  {
    hide BE, FromBE, Pow256;
    Widths();
    var front := frame[..2];
    BEofFromBE(front);
    assert |front| == 2 && |cert| == FromBE(front);
    ThreeParts(frame, 2, 2 + |cert|);
  }

  lemma FrameParses(cert: Bytes, sig: Bytes)
    requires |cert| < TWO_16 && |sig| == 64
    ensures ParseBindingFrame(BE(2, |cert|) + cert + sig) == Ok((cert, sig))
  {
    hide BE, FromBE, Pow256;
    Widths();
    FromBEofBE(2, |cert|);
    PartsBack(BE(2, |cert|), cert, sig);
  }

  /** A frame binds a certificate exactly when it is the length, the certificate's bytes and a
      signature under the binding tag over this H by the certificate's key, and the
      clock-free chain accepts the certificate. */
  lemma BindsIff(frame: Bytes, h: Bytes32, trusted: seq<Bytes>, x: Cert)
    ensures Binds(frame, h, trusted, x) <==>
            exists cert: Bytes, sig: Bytes ::
              && |cert| < TWO_16 && |sig| == 64 && frame == BE(2, |cert|) + cert + sig
              && CertIn(x, cert) && PairsHeld(x) && ValidateCertChainNoClock(x, trusted).Ok?
              && VerifySigned(0x05, h, sig, x.sigPubkey).Ok?
  {
    hide CertIn, ValidateCertChainNoClock, VerifySigned, ParseBindingFrame, BE;
    if Binds(frame, h, trusted, x) {
      var parts := ParseBindingFrame(frame).value;
      FrameIff(frame, parts.0, parts.1);
    }
    forall cert: Bytes, sig: Bytes | |cert| < TWO_16 && |sig| == 64 && frame == BE(2, |cert|) + cert + sig
      ensures ParseBindingFrame(frame) == Ok((cert, sig))
    {
      FrameIff(frame, cert, sig);
    }
  }

  /** A frame can only bind one certificate. */
  lemma BindsOne(frame: Bytes, h: Bytes32, trusted: seq<Bytes>, x: Cert, y: Cert)
    requires Binds(frame, h, trusted, x) && Binds(frame, h, trusted, y)
    ensures x == y
  {
    hide CertIn, ValidateCertChainNoClock, VerifySigned, ParseBindingFrame;
    CertInUnique(x, y, ParseBindingFrame(frame).value.0);
  }

  lemma RefusedCert(s: Bytes, x: Cert)
    ensures CertIn(x, s) ==> Layout.Decode(CertLayout(), s).Ok?
  {
    hide Layout.ReadAll, CertLayout;
  }

  // The session --------------------------------------------------------------

  /** A frame bound to one side's H passes on the other side when the two agree on H. */
  lemma FrameBinds(cert: Bytes, x: Cert, seed: Bytes, h: Bytes32, trusted: seq<Bytes>)
    requires CertIn(x, cert) && PairsHeld(x) && ValidateCertChainNoClock(x, trusted).Ok? && x.sigPubkey == EdPublic(seed)
    ensures Binds(BindingFrame(cert, seed, h), h, trusted, x)
  {
    hide CertIn, ValidateCertChainNoClock, BindingFrame, ParseBindingFrame, VerifySigned;
    CertLength(x, cert);
    BindingFrameSplits(cert, seed, h);
    SignedVerifies(DOMAIN_BINDING, h, seed);
  }

  /** A frame made for one H binds under that H alone, as long as its signature verifies
      over nothing else. */
  lemma FrameBindsOneSession(cert: Bytes, x: Cert, seed: Bytes, h: Bytes32, asH: Bytes32, trusted: seq<Bytes>)
    requires CertIn(x, cert) && PairsHeld(x) && ValidateCertChainNoClock(x, trusted).Ok? && x.sigPubkey == EdPublic(seed)
    requires SignatureBinds(seed, [0x05] + h, [0x05] + asH)
    ensures Binds(BindingFrame(cert, seed, h), asH, trusted, x) <==> asH == h
  {
    hide CertIn, ValidateCertChainNoClock, BindingFrame, ParseBindingFrame, VerifySigned, SignatureBinds;
    CertLength(x, cert);
    BindingFrameSplits(cert, seed, h);
    SignedOnlyAs(0x05, h, 0x05, asH, seed);
  }

  /** One side's binding frame, sealed under its send key, opens under the peer's
      receive key with that counter and verifies to the same certificate. */
  ghost predicate Delivers(from: NoiseIK.Keys, to: NoiseIK.Keys, cert: Bytes, x: Cert, seed: Bytes,
                           trusted: seq<Bytes>, index: uint32, counter: uint64) {
    var frame := BindingFrame(cert, seed, from.h);
    && OpenTransport(to.recv, Packet(from.send, index, counter, frame)) == Ok((frame, counter))
    && Binds(frame, to.h, trusted, x)
  }

  lemma DeliversAcross(from: NoiseIK.Keys, to: NoiseIK.Keys, cert: Bytes, x: Cert, seed: Bytes,
                       trusted: seq<Bytes>, index: uint32, counter: uint64)
    requires from.send == to.recv && from.h == to.h
    requires CertIn(x, cert) && PairsHeld(x) && ValidateCertChainNoClock(x, trusted).Ok? && x.sigPubkey == EdPublic(seed)
    ensures Delivers(from, to, cert, x, seed, trusted, index, counter)
  {
    hide CertIn, ValidateCertChainNoClock, BindingFrame, Binds, OpenTransport, Packet;
    OpensSealed(from.send, index, counter, BindingFrame(cert, seed, from.h));
    FrameBinds(cert, x, seed, from.h, trusted);
  }

  /** The whole session: whenever no key operation of the honest handshake meets a
      low-order point it completes, and then each side can bind itself to the other with
      any certificate the parser and the chain accept. */
  lemma SessionBinds(
    sI: Bytes32, pI: Bytes32, sR: Bytes32, pR: Bytes32, eI: Bytes32, eR: Bytes32, ts: uint64,
    idxI: uint32, idxR: uint32, echo: uint32, sigPub: Bytes32, mac2I: Bytes16, mac2R: Bytes16,
    cert: Bytes, x: Cert, seed: Bytes, trusted: seq<Bytes>, index: uint32, counter: uint64)
    requires Handshake.KeyPair(sI, pI) && Handshake.KeyPair(sR, pR) && NoiseIK.Completes(sI, pI, pR, eI, eR)
    requires CertIn(x, cert) && PairsHeld(x) && ValidateCertChainNoClock(x, trusted).Ok? && x.sigPubkey == EdPublic(seed)
    ensures var i1 := NoiseIK.WriteInitiation(NoiseIK.NewInitiator(sI, pI, pR), idxI, ts, eI, sigPub, mac2I);
            var r1 := NoiseIK.ReadInitiation(NoiseIK.NewResponder(sR, pR), i1.bytes, sigPub);
            var r2 := NoiseIK.WriteResponse(r1.party, idxR, echo, eR, sigPub, mac2R);
            var i2 := NoiseIK.ReadResponse(i1.party, r2.bytes, sigPub);
            && i1.error.None? && r1.error.None? && r2.error.None? && i2.error.None?
            && Delivers(NoiseIK.Finalize(i2.party), NoiseIK.Finalize(r2.party), cert, x, seed, trusted, index, counter)
            && Delivers(NoiseIK.Finalize(r2.party), NoiseIK.Finalize(i2.party), cert, x, seed, trusted, index, counter)
  {
    hide NoiseIK.WriteInitiation, NoiseIK.ReadInitiation, NoiseIK.WriteResponse, NoiseIK.ReadResponse, NoiseIK.Finalize,
         Handshake.KeyPair, CertIn, ValidateCertChainNoClock, Delivers, NoiseIK.NewInitiator, NoiseIK.NewResponder,
         NoiseIK.CanInitiate, NoiseIK.CanRespond;
    NoiseIK.HandshakeAgrees(sI, pI, sR, pR, eI, eR, ts, idxI, idxR, echo, sigPub, mac2I, mac2R, [], []);
    var i1 := NoiseIK.WriteInitiation(NoiseIK.NewInitiator(sI, pI, pR), idxI, ts, eI, sigPub, mac2I);
    assert i1.bytes + [] == i1.bytes;
    var r1 := NoiseIK.ReadInitiation(NoiseIK.NewResponder(sR, pR), i1.bytes, sigPub);
    var r2 := NoiseIK.WriteResponse(r1.party, idxR, echo, eR, sigPub, mac2R);
    assert r2.bytes + [] == r2.bytes;
    var i2 := NoiseIK.ReadResponse(i1.party, r2.bytes, sigPub);
    var ik, rk := NoiseIK.Finalize(i2.party), NoiseIK.Finalize(r2.party);
    DeliversAcross(ik, rk, cert, x, seed, trusted, index, counter);
    DeliversAcross(rk, ik, cert, x, seed, trusted, index, counter);
  }
}
