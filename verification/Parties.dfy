/**
 The initiator and responder objects, writing their messages in place at fixed
 offsets. Each method is proved to do what the token lists of Noise_IK prescribe.
 */
module Parties {
  import opened Octets
  import opened Results
  import opened Crypto
  import opened Symmetric
  import opened Handshake
  import NoiseIK

  class Initiator {
    const sym: SymmetricState
    const staticSecret: Bytes32
    const staticPublic: Bytes32
    const responderStatic: Bytes32
    var ephSecret: Bytes32
    var ephPublic: Bytes32
    var re: Bytes32

    ghost function View(): Party
      reads this, sym
    {
      Party(true, sym.View(), staticSecret, staticPublic, ephSecret, ephPublic, responderStatic, re)
    }

    constructor (staticSecret: Bytes32, staticPublic: Bytes32, responderStatic: Bytes32)
      ensures fresh(sym) && View() == NoiseIK.NewInitiator(staticSecret, staticPublic, responderStatic)
    {
      this.sym := new SymmetricState();
      this.staticSecret := staticSecret;
      this.staticPublic := staticPublic;
      this.responderStatic := responderStatic;
      ephSecret := Zeros(32);
      ephPublic := Zeros(32);
      re := Zeros(32);
      new;
      sym.MixHash(responderStatic);
    }

    /** Tokens e, es, s, ss and the encrypted timestamp, at offsets 8, 40 and 88. A write
        that fails leaves the parts before it in place. */
    method WriteInitiationBody(out: array<byte>, eph: Bytes32, ts: Bytes8) returns (r: Result<()>)
      requires out.Length >= NoiseIK.MSG1_SIZE
      modifies this, sym, out
      ensures var a := Write(old(View()), NoiseIK.IK1(), eph, ts, []);
              && View() == a.party && |a.bytes| <= 104 && out[..] == Splice(old(out[..]), 8, a.bytes)
              && (a.error.None? ==> r == Ok(()) && |a.bytes| == 104)
              && (a.error.Some? ==> r == Err(a.error.value))
    {
      hide MixedHash, MixedKey, Encrypted, Splice, Write;
      ghost var before := out[..];
      NoiseIK.IK1Written(View(), eph, ts);
      SpliceNothing(before, 8);
      ephSecret := eph;
      var pub := X25519(eph, BASEPOINT);
      if pub.None? {
        return Err(IdentityPoint);
      }
      ephPublic := pub.value;
      sym.HashInto(out, NoiseIK.OFF1_EPHEMERAL, ephPublic);
      var _ :- sym.MixDh(ephSecret, responderStatic);
      EncryptedLength(sym.View(), staticPublic);
      ghost var encS := Encrypted(sym.View(), staticPublic).1;
      sym.SealInto(out, NoiseIK.OFF1_ENC_STATIC, staticPublic);
      AdjacentSplices(before, 8, ephPublic, encS);
      var _ :- sym.MixDh(staticSecret, responderStatic);
      EncryptedLength(sym.View(), ts);
      ghost var encT := Encrypted(sym.View(), ts).1;
      sym.SealInto(out, NoiseIK.OFF1_ENC_TIME, ts);
      AdjacentSplices(before, 8, ephPublic + encS, encT);
      return Ok(());
    }

    method WriteInitiation(out: array<byte>, senderIndex: uint32, timestampMS: uint64, eph: Bytes32,
                           responderSigPub: Bytes32, mac2Cookie: Bytes16) returns (r: Result<()>)
      modifies this, sym, out
      ensures out.Length < NoiseIK.MSG1_SIZE ==>
                r == Err(BufferTooSmall) && View() == old(View()) && out[..] == old(out[..])
      ensures out.Length >= NoiseIK.MSG1_SIZE ==>
                var a := NoiseIK.WriteInitiation(old(View()), senderIndex, timestampMS, eph, responderSigPub, mac2Cookie);
                && View() == a.party
                && (a.error.Some? ==> r == Err(a.error.value) && |a.bytes| <= 104 && out[..] == Splice(old(out[..]), 8, a.bytes))
                && (a.error.None? ==> r == Ok(()) && out[..] == a.bytes + old(out[NoiseIK.MSG1_SIZE..]))
    {
      hide Write, NoiseIK.Message1;
      if out.Length < NoiseIK.MSG1_SIZE {
        return Err(BufferTooSmall);
      }
      var _ :- WriteInitiationBody(out, eph, BE(8, timestampMS));
      ghost var body := Write(old(View()), NoiseIK.IK1(), eph, BE(8, timestampMS), []).bytes;
      assert out[8..112] == body;
      assert out[144..] == old(out[144..]);
      FrameInitiation(out, senderIndex, responderSigPub, mac2Cookie);
      return Ok(());
    }

    /** Tokens e, ee, se and the empty payload, once the length and mac1 check out. */
    method ReadResponse(msg2: Bytes, responderSigPub: Bytes32) returns (r: Result<()>)
      modifies this, sym
      ensures var a := NoiseIK.ReadResponse(old(View()), msg2, responderSigPub);
              View() == a.party && r == if a.error.Some? then Err(a.error.value) else Ok(())
    {
      hide MixedHash, MixedKey, Decrypted, Read, NoiseIK.Mac1;
      if |msg2| < NoiseIK.MSG2_SIZE {
        return Err(BufferTooSmall);
      }
      var m1in := msg2[NoiseIK.OFF2_MAC1..NoiseIK.OFF2_MAC2];
      if NoiseIK.Mac1(responderSigPub, msg2[..NoiseIK.OFF2_MAC1]) != m1in {
        return Err(Mac1Failed);
      }
      ghost var body := msg2[NoiseIK.OFF2_EPHEMERAL..NoiseIK.OFF2_MAC1];
      NoiseIK.IK2Read(View(), body);
      assert body[..32] == msg2[12..44] && body[32..] == msg2[44..60];
      re := msg2[NoiseIK.OFF2_EPHEMERAL..NoiseIK.OFF2_EPHEMERAL + 32];
      sym.MixHash(re);
      var _ :- sym.MixDh(ephSecret, re);
      var _ :- sym.MixDh(staticSecret, re);
      var _ :- sym.DecryptAndHash(msg2[NoiseIK.OFF2_ENC_NOTHING..NoiseIK.OFF2_ENC_NOTHING + 16]);
      return Ok(());
    }

    method Finalize() returns (keys: NoiseIK.Keys)
      ensures keys == NoiseIK.Finalize(View())
    {
      hide Hkdf2;
      var c1, c2 := Hkdf2Blake2s(sym.ck, []);
      keys := NoiseIK.Keys(c1, c2, sym.h);
    }
  }

  class Responder {
    const sym: SymmetricState
    const staticSecret: Bytes32
    const staticPublic: Bytes32
    var ephSecret: Bytes32
    var ephPublic: Bytes32
    var re: Bytes32
    var remoteStaticPub: Bytes32

    ghost function View(): Party
      reads this, sym
    {
      Party(false, sym.View(), staticSecret, staticPublic, ephSecret, ephPublic, remoteStaticPub, re)
    }

    constructor (staticSecret: Bytes32, staticPublic: Bytes32)
      ensures fresh(sym) && View() == NoiseIK.NewResponder(staticSecret, staticPublic)
    {
      this.sym := new SymmetricState();
      this.staticSecret := staticSecret;
      this.staticPublic := staticPublic;
      ephSecret := Zeros(32);
      ephPublic := Zeros(32);
      re := Zeros(32);
      remoteStaticPub := Zeros(32);
      new;
      sym.MixHash(staticPublic);
    }

    /** Tokens e, es, s, ss and the timestamp, once the length and mac1 check out. */
    method ReadInitiation(msg1: Bytes, responderSigPub: Bytes32) returns (r: Result<()>)
      modifies this, sym
      ensures var a := NoiseIK.ReadInitiation(old(View()), msg1, responderSigPub);
              View() == a.party && r == if a.error.Some? then Err(a.error.value) else Ok(())
    {
      hide Read, NoiseIK.Mac1;
      if |msg1| < NoiseIK.MSG1_SIZE {
        return Err(BufferTooSmall);
      }
      var m1in := msg1[NoiseIK.OFF1_MAC1..NoiseIK.OFF1_MAC2];
      if NoiseIK.Mac1(responderSigPub, msg1[..NoiseIK.OFF1_MAC1]) != m1in {
        return Err(Mac1Failed);
      }
      r := ReadInitiationBody(msg1);
    }

    method ReadInitiationBody(msg1: Bytes) returns (r: Result<()>)
      requires |msg1| >= NoiseIK.MSG1_SIZE
      modifies this, sym
      ensures var a := Read(old(View()), NoiseIK.IK1(), msg1[NoiseIK.OFF1_EPHEMERAL..NoiseIK.OFF1_MAC1]);
              View() == a.party && r == if a.error.Some? then Err(a.error.value) else Ok(())
    {
      hide MixedHash, MixedKey, Read, Decrypted;
      ghost var body := msg1[NoiseIK.OFF1_EPHEMERAL..NoiseIK.OFF1_MAC1];
      NoiseIK.IK1Read(View(), body);
      BodyParts(msg1);
      re := msg1[NoiseIK.OFF1_EPHEMERAL..NoiseIK.OFF1_EPHEMERAL + 32];
      sym.MixHash(re);
      var _ :- sym.MixDh(staticSecret, re);
      var staticI :- sym.DecryptAndHash(msg1[NoiseIK.OFF1_ENC_STATIC..NoiseIK.OFF1_ENC_STATIC + 48]);
      remoteStaticPub := staticI;
      var _ :- sym.MixDh(staticSecret, remoteStaticPub);
      var _ :- sym.DecryptAndHash(msg1[NoiseIK.OFF1_ENC_TIME..NoiseIK.OFF1_ENC_TIME + 24]);
      return Ok(());
    }

    /** Tokens e, ee, se and the empty payload, at offsets 12 and 44, for a responder that
        was `start` before it took its ephemeral pair. */
    method WriteResponseBody(out: array<byte>, ghost start: Party) returns (r: Result<()>)
      requires out.Length >= NoiseIK.MSG2_SIZE && KeyPair(ephSecret, ephPublic)
      requires View() == start.(e := ephSecret, ePub := ephPublic)
      modifies this, sym, out
      ensures ephSecret == old(ephSecret)
      ensures var a := Write(start, NoiseIK.IK2(), ephSecret, [], []);
              && View() == a.party && 32 <= |a.bytes| <= 48 && out[..] == Splice(old(out[..]), 12, a.bytes)
              && (a.error.None? ==> r == Ok(()) && |a.bytes| == 48)
              && (a.error.Some? ==> r == Err(a.error.value))
    {
      hide MixedHash, MixedKey, Encrypted, Splice, Write;
      ghost var before := out[..];
      NoiseIK.IK2Written(start, ephSecret);
      sym.HashInto(out, NoiseIK.OFF2_EPHEMERAL, ephPublic);
      var _ :- sym.MixDh(ephSecret, re);
      var _ :- sym.MixDh(ephSecret, remoteStaticPub);
      EncryptedLength(sym.View(), []);
      ghost var enc := Encrypted(sym.View(), []).1;
      sym.SealInto(out, NoiseIK.OFF2_ENC_NOTHING, []);
      AdjacentSplices(before, 12, ephPublic, enc);
      return Ok(());
    }

    method WriteResponse(out: array<byte>, senderIndex: uint32, receiverIndex: uint32, eph: Bytes32,
                         responderSigPub: Bytes32, mac2Cookie: Bytes16) returns (r: Result<()>)
      modifies this, sym, out
      ensures out.Length < NoiseIK.MSG2_SIZE ==>
                r == Err(BufferTooSmall) && View() == old(View()) && out[..] == old(out[..])
      ensures out.Length >= NoiseIK.MSG2_SIZE ==>
                var a := NoiseIK.WriteResponse(old(View()), senderIndex, receiverIndex, eph, responderSigPub, mac2Cookie);
                && View() == a.party
                && (a.error.Some? ==> r == Err(a.error.value))
                && (a.error.Some? && a.bytes == [] ==> out[..] == old(out[..]))
                && (a.error.Some? && a.bytes != [] ==> |a.bytes| <= 48)
                && (a.error.Some? && a.bytes != [] ==>
                      out[..] == Splice(old(out[..]), 0, ResponseHeader(senderIndex, receiverIndex) + a.bytes))
                && (a.error.None? ==> r == Ok(()) && out[..] == a.bytes + old(out[NoiseIK.MSG2_SIZE..]))
    {
      hide Write, NoiseIK.Mac1, NoiseIK.Message2, ResponseHeader, BE, Splice, MixedHash;
      if out.Length < NoiseIK.MSG2_SIZE {
        return Err(BufferTooSmall);
      }
      ghost var start, before := View(), out[..];
      NoiseIK.IK2Written(start, eph);
      ephSecret := eph;
      var pub := X25519(eph, BASEPOINT);
      if pub.None? {
        return Err(IdentityPoint);
      }
      ephPublic := pub.value;
      ghost var header := ResponseHeader(senderIndex, receiverIndex);
      FillResponseHeader(out, senderIndex, receiverIndex);
      ghost var body := Write(start, NoiseIK.IK2(), eph, [], []).bytes;
      r := WriteResponseBody(out, start);
      AdjacentSplices(before, 0, header, body);
      if r.Ok? {
        FillMacs(out, NoiseIK.OFF2_MAC1, responderSigPub, mac2Cookie);
        ResponseAssembled(before, senderIndex, receiverIndex, body, responderSigPub, mac2Cookie);
      }
    }

    method Finalize() returns (keys: NoiseIK.Keys)
      ensures keys == NoiseIK.Finalize(View())
    {
      hide Hkdf2;
      var c1, c2 := Hkdf2Blake2s(sym.ck, []);
      keys := NoiseIK.Keys(c2, c1, sym.h);
    }
  }

  lemma BodyParts(msg1: Bytes)
    requires |msg1| >= NoiseIK.MSG1_SIZE
    ensures var body := msg1[NoiseIK.OFF1_EPHEMERAL..NoiseIK.OFF1_MAC1];
            body[..32] == msg1[8..40] && body[32..][..48] == msg1[40..88] && body[80..] == msg1[88..112]
  {
  }

  /** The framing of message 1: type, sender index, mac1 over everything before it, mac2. */
  method FrameInitiation(out: array<byte>, senderIndex: uint32, responderSigPub: Bytes32, mac2Cookie: Bytes16)
    requires out.Length >= NoiseIK.MSG1_SIZE
    modifies out
    ensures out[..] == NoiseIK.Message1(senderIndex, old(out[8..112]), responderSigPub, mac2Cookie) + old(out[144..])
  {
    hide NoiseIK.Mac1, BE, Splice;
    ghost var before, header := out[..], [1, 0, 0, 0] + BE(4, senderIndex);
    FillType(out, 1);
    CopyInto(out, NoiseIK.OFF1_SENDER_INDEX, BE(4, senderIndex));
    AdjacentSplices(before, 0, [1, 0, 0, 0], BE(4, senderIndex));
    FillMacs(out, NoiseIK.OFF1_MAC1, responderSigPub, mac2Cookie);
    ghost var macs := NoiseIK.Mac1(responderSigPub, Splice(before, 0, header)[..112]) + mac2Cookie;
    HeaderAndTrailer(before, header, NoiseIK.OFF1_MAC1, macs);
    assert before[8..112] == old(out[8..112]) && before[144..] == old(out[144..]);
  }

  /** mac1 over everything before offset `n`, then mac2. */
  method FillMacs(out: array<byte>, n: nat, responderSigPub: Bytes32, mac2Cookie: Bytes16)
    requires n + 32 <= out.Length
    modifies out
    ensures out[..] == Splice(old(out[..]), n, NoiseIK.Mac1(responderSigPub, old(out[..])[..n]) + mac2Cookie)
  {
    hide NoiseIK.Mac1, Splice;
    ghost var before := out[..];
    assert out[..n] == before[..n];
    var m1 := NoiseIK.Mac1(responderSigPub, out[..n]);
    CopyInto(out, n, m1);
    CopyInto(out, n + 16, mac2Cookie);
    AdjacentSplices(before, n, m1, mac2Cookie);
  }

  /** The type byte and three reserved zero bytes. */
  method FillType(out: array<byte>, t: byte)
    requires out.Length >= 4
    modifies out
    ensures out[..] == Splice(old(out[..]), 0, [t, 0, 0, 0])
  {
    out[0] := t;
    out[1], out[2], out[3] := 0, 0, 0;
  }

  /** The header of message 2: type and both indices. */
  function ResponseHeader(senderIndex: uint32, receiverIndex: uint32): (h: Bytes)
    ensures |h| == NoiseIK.OFF2_EPHEMERAL
  {
    [2, 0, 0, 0] + BE(4, senderIndex) + BE(4, receiverIndex)
  }

  /** Header and body at the start and the macs behind them are message 2. */
  lemma ResponseAssembled(before: Bytes, senderIndex: uint32, receiverIndex: uint32, body: Bytes,
                          responderSigPub: Bytes32, mac2Cookie: Bytes16)
    requires |before| >= NoiseIK.MSG2_SIZE && |body| == 48
    ensures var out := Splice(before, 0, ResponseHeader(senderIndex, receiverIndex) + body);
            Splice(out, NoiseIK.OFF2_MAC1, NoiseIK.Mac1(responderSigPub, out[..NoiseIK.OFF2_MAC1]) + mac2Cookie) ==
            NoiseIK.Message2(senderIndex, receiverIndex, body, responderSigPub, mac2Cookie) + before[NoiseIK.MSG2_SIZE..]
  {
    hide NoiseIK.Mac1, BE, Splice;
    var front := ResponseHeader(senderIndex, receiverIndex) + body;
    var macs := NoiseIK.Mac1(responderSigPub, front) + mac2Cookie;
    SpliceAtStart(before, front);
    AdjacentSplices(before, 0, front, macs);
    SpliceAtStart(before, front + macs);
  }

  method FillResponseHeader(out: array<byte>, senderIndex: uint32, receiverIndex: uint32)
    requires out.Length >= NoiseIK.MSG2_SIZE
    modifies out
    ensures out[..] == Splice(old(out[..]), 0, ResponseHeader(senderIndex, receiverIndex))
  {
    hide BE, Splice;
    ghost var before := out[..];
    FillType(out, 2);
    CopyInto(out, NoiseIK.OFF2_SENDER_INDEX, BE(4, senderIndex));
    AdjacentSplices(before, 0, [2, 0, 0, 0], BE(4, senderIndex));
    CopyInto(out, NoiseIK.OFF2_RECEIVER_INDEX, BE(4, receiverIndex));
    AdjacentSplices(before, 0, [2, 0, 0, 0] + BE(4, senderIndex), BE(4, receiverIndex));
  }

  /** Message 1 on the objects: written into a buffer, handed over whole, read. */
  method ExchangeInitiation(i: Initiator, q: Responder, index: uint32, timestampMS: uint64, eph: Bytes32,
                            sigPub: Bytes32, cookie: Bytes16) returns (r: Result<()>)
    requires i.sym != q.sym && Mirror(i.View(), q.View(), Known(false, false, false, true))
    modifies i, i.sym, q, q.sym
    ensures r == if NoiseIK.CanInitiate(i.staticSecret, i.responderStatic, eph) then Ok(()) else Err(IdentityPoint)
    ensures var a := NoiseIK.WriteInitiation(old(i.View()), index, timestampMS, eph, sigPub, cookie);
            r.Ok? ==> i.View() == a.party && q.View() == NoiseIK.ReadInitiation(old(q.View()), a.bytes, sigPub).party
  {
    hide NoiseIK.WriteInitiation, NoiseIK.ReadInitiation, NoiseIK.CanInitiate, Mirror;
    var msg := new byte[NoiseIK.MSG1_SIZE];
    ghost var i0, q0 := i.View(), q.View();
    ghost var a := NoiseIK.WriteInitiation(i0, index, timestampMS, eph, sigPub, cookie);
    NoiseIK.InitiatesIff(i0, index, timestampMS, eph, sigPub, cookie);
    r := i.WriteInitiation(msg, index, timestampMS, eph, sigPub, cookie);
    if r.Ok? {
      assert a.bytes + [] == a.bytes;
      NoiseIK.InitiationAgrees(i0, q0, index, timestampMS, eph, sigPub, cookie, []);
      r := q.ReadInitiation(msg[..], sigPub);
    }
  }

  method ExchangeResponse(i: Initiator, q: Responder, index: uint32, echo: uint32, eph: Bytes32,
                          sigPub: Bytes32, cookie: Bytes16) returns (r: Result<()>)
    requires i.sym != q.sym && Mirror(i.View(), q.View(), Known(true, false, true, true))
    modifies i, i.sym, q, q.sym
    ensures r == if NoiseIK.CanRespond(eph, old(q.re), old(q.remoteStaticPub)) then Ok(()) else Err(IdentityPoint)
    ensures var a := NoiseIK.WriteResponse(old(q.View()), index, echo, eph, sigPub, cookie);
            r.Ok? ==> q.View() == a.party && i.View() == NoiseIK.ReadResponse(old(i.View()), a.bytes, sigPub).party
  {
    hide NoiseIK.WriteResponse, NoiseIK.ReadResponse, NoiseIK.CanRespond, Mirror;
    var msg := new byte[NoiseIK.MSG2_SIZE];
    ghost var i0, q0 := i.View(), q.View();
    ghost var a := NoiseIK.WriteResponse(q0, index, echo, eph, sigPub, cookie);
    NoiseIK.RespondsIff(q0, index, echo, eph, sigPub, cookie);
    r := q.WriteResponse(msg, index, echo, eph, sigPub, cookie);
    if r.Ok? {
      assert a.bytes + [] == a.bytes;
      NoiseIK.ResponseAgrees(i0, q0, index, echo, eph, sigPub, cookie, []);
      r := i.ReadResponse(msg[..], sigPub);
    }
  }

  /** The handshake on the objects themselves: it completes exactly when no key operation
      meets a low-order point, and then gives each side the keys of the handshake on
      values: crossed, with one H, and the initiator's static key at the responder. */
  method RunHandshake(
    staticI: Bytes32, pubI: Bytes32, staticR: Bytes32, pubR: Bytes32, ephI: Bytes32, ephR: Bytes32,
    timestampMS: uint64, indexI: uint32, indexR: uint32, sigPub: Bytes32, cookie1: Bytes16, cookie2: Bytes16)
    returns (r: Result<(NoiseIK.Keys, NoiseIK.Keys, Bytes32)>)
    requires KeyPair(staticI, pubI) && KeyPair(staticR, pubR)
    ensures r.Ok? <==> NoiseIK.Completes(staticI, pubI, pubR, ephI, ephR)
    ensures r.Err? ==> r.error == IdentityPoint
    ensures var i1 := NoiseIK.WriteInitiation(NoiseIK.NewInitiator(staticI, pubI, pubR), indexI, timestampMS, ephI, sigPub, cookie1);
            var r1 := NoiseIK.ReadInitiation(NoiseIK.NewResponder(staticR, pubR), i1.bytes, sigPub);
            var r2 := NoiseIK.WriteResponse(r1.party, indexR, indexI, ephR, sigPub, cookie2);
            var i2 := NoiseIK.ReadResponse(i1.party, r2.bytes, sigPub);
            r.Ok? ==> r.value == (NoiseIK.Finalize(i2.party), NoiseIK.Finalize(r2.party), pubI)
    ensures r.Ok? ==>
              r.value.0.send == r.value.1.recv && r.value.0.recv == r.value.1.send && r.value.0.h == r.value.1.h
  {
    hide MixedHash, Split, NoiseIK.WriteInitiation, NoiseIK.ReadInitiation, NoiseIK.WriteResponse, NoiseIK.ReadResponse,
         NoiseIK.CanInitiate, NoiseIK.CanRespond;
    ghost var i0, r0 := NoiseIK.NewInitiator(staticI, pubI, pubR), NoiseIK.NewResponder(staticR, pubR);
    ghost var i1 := NoiseIK.WriteInitiation(i0, indexI, timestampMS, ephI, sigPub, cookie1);
    ghost var r1 := NoiseIK.ReadInitiation(r0, i1.bytes, sigPub).party;
    NoiseIK.InitiatesIff(i0, indexI, timestampMS, ephI, sigPub, cookie1);
    if i1.error.None? {
      assert i1.bytes + [] == i1.bytes;
      NoiseIK.InitiationAgrees(i0, r0, indexI, timestampMS, ephI, sigPub, cookie1, []);
      NoiseIK.RespondsIff(r1, indexR, indexI, ephR, sigPub, cookie2);
      ghost var r2 := NoiseIK.WriteResponse(r1, indexR, indexI, ephR, sigPub, cookie2);
      if r2.error.None? {
        assert r2.bytes + [] == r2.bytes;
        NoiseIK.ResponseAgrees(i1.party, r1, indexR, indexI, ephR, sigPub, cookie2, []);
      }
    }
    var i := new Initiator(staticI, pubI, pubR);
    var q := new Responder(staticR, pubR);
    var _ :- ExchangeInitiation(i, q, indexI, timestampMS, ephI, sigPub, cookie1);
    var _ :- ExchangeResponse(i, q, indexR, indexI, ephR, sigPub, cookie2);
    var ik := i.Finalize();
    var rk := q.Finalize();
    return Ok((ik, rk, q.remoteStaticPub));
  }
}
