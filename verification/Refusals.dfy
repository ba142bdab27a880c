/**
 What refused handshake messages do to the party that refuses them: those that fail the
 length or mac1 check do nothing, and every other message does something.
 */
module Refusals {
  import opened Octets
  import opened Crypto
  import opened Symmetric
  import opened KeyChain
  import opened Handshake
  import opened NoiseIK
  import opened Discipline
  import IKTranscript

  /** Delivers messages one after another, keeping whatever state each leaves. */
  function FeedResponder(p: Party, msgs: seq<Bytes>, sigPub: Bytes32): Party
    decreases |msgs|
  {
    if msgs == [] then p
    else FeedResponder(ReadInitiation(p, msgs[0], sigPub).party, msgs[1..], sigPub)
  }

  function FeedInitiator(p: Party, msgs: seq<Bytes>, sigPub: Bytes32): Party
    decreases |msgs|
  {
    if msgs == [] then p
    else FeedInitiator(ReadResponse(p, msgs[0], sigPub).party, msgs[1..], sigPub)
  }

  /** Fails the length check or the mac1 check at this offset. */
  predicate Unauthenticated(msg: Bytes, size: nat, mac1At: nat, sigPub: Bytes32)
    requires mac1At + 16 <= size
  {
    |msg| < size || Mac1(sigPub, msg[..mac1At]) != msg[mac1At..mac1At + 16]
  }

  predicate BadInitiation(msg: Bytes, sigPub: Bytes32) {
    Unauthenticated(msg, MSG1_SIZE, OFF1_MAC1, sigPub)
  }

  predicate BadResponse(msg: Bytes, sigPub: Bytes32) {
    Unauthenticated(msg, MSG2_SIZE, OFF2_MAC1, sigPub)
  }

  // Harmless -----------------------------------------------------------------

  /** Any number of messages that fail the length or mac1 check leave the responder
      as it was: the next message gets exactly the answer it would have got. */
  lemma {:induction false} RejectedInitiationsHarmless(p: Party, bad: seq<Bytes>, next: Bytes, sigPub: Bytes32)
    requires forall m :: m in bad ==> BadInitiation(m, sigPub)
    ensures FeedResponder(p, bad, sigPub) == p
    ensures ReadInitiation(FeedResponder(p, bad, sigPub), next, sigPub) == ReadInitiation(p, next, sigPub)
    decreases |bad|
  {
    hide Mac1, Read;
    if bad != [] {
      assert BadInitiation(bad[0], sigPub);
      RejectedInitiationsHarmless(p, bad[1..], next, sigPub);
    }
  }

  lemma {:induction false} RejectedResponsesHarmless(p: Party, bad: seq<Bytes>, next: Bytes, sigPub: Bytes32)
    requires forall m :: m in bad ==> BadResponse(m, sigPub)
    ensures FeedInitiator(p, bad, sigPub) == p
    ensures ReadResponse(FeedInitiator(p, bad, sigPub), next, sigPub) == ReadResponse(p, next, sigPub)
    decreases |bad|
  {
    hide Mac1, Read;
    if bad != [] {
      assert BadResponse(bad[0], sigPub);
      RejectedResponsesHarmless(p, bad[1..], next, sigPub);
    }
  }

  // The responder --------------------------------------------------------------

  /** The ephemerals of the messages that got past the length and mac1 checks. */
  function Ephemerals(msgs: seq<Bytes>, sigPub: Bytes32): seq<Bytes> {
    if msgs == [] then []
    else if BadInitiation(msgs[0], sigPub) then Ephemerals(msgs[1..], sigPub)
    else [msgs[0][OFF1_EPHEMERAL..OFF1_ENC_STATIC]] + Ephemerals(msgs[1..], sigPub)
  }

  lemma {:induction false} EphemeralsOf(msgs: seq<Bytes>, sigPub: Bytes32)
    ensures var es := Ephemerals(msgs, sigPub);
            && (es == [] <==> forall m :: m in msgs ==> BadInitiation(m, sigPub))
            && forall e :: e in es ==> |e| == 32
  {
    if msgs != [] {
      EphemeralsOf(msgs[1..], sigPub);
      assert msgs == [msgs[0]] + msgs[1..];
    }
  }

  /** Past mac1 a message either gives the responder a key for good or moves its hash. */
  lemma OneInitiation(p: Party, msg: Bytes, sigPub: Bytes32)
    ensures var q := ReadInitiation(p, msg, sigPub).party;
            && (BadInitiation(msg, sigPub) ==> q == p)
            && (p.sym.hasKey ==> q.sym.hasKey)
            && (!BadInitiation(msg, sigPub) ==> |msg| >= MSG1_SIZE)
            && (!BadInitiation(msg, sigPub) ==>
                  q.sym.hasKey || q.sym.h == Blake2s256(p.sym.h + msg[OFF1_EPHEMERAL..OFF1_ENC_STATIC]))
  {
    hide Mac1, Read, Hkdf2, TransportNonce;
    if !BadInitiation(msg, sigPub) {
      var body := msg[OFF1_EPHEMERAL..OFF1_MAC1];
      IK1Read(p, body);
      assert body[..32] == msg[OFF1_EPHEMERAL..OFF1_ENC_STATIC];
    }
  }

  lemma FoldMore(ds: seq<Bytes>, d: Bytes)
    ensures FoldHash(START, ds + [d]) == Blake2s256(FoldHash(START, ds) + d)
  {
    assert (ds + [d])[..|ds|] == ds;
  }

  lemma {:induction false} FedResponder(p: Party, msgs: seq<Bytes>, sigPub: Bytes32, ds: seq<Bytes>)
    requires p.sym.hasKey || p.sym.h == FoldHash(START, ds)
    ensures var q := FeedResponder(p, msgs, sigPub);
            q.sym.hasKey || q.sym.h == FoldHash(START, ds + Ephemerals(msgs, sigPub))
    decreases |msgs|
  {
    hide ReadInitiation, BadInitiation, FoldHash;
    if msgs == [] {
      assert ds + [] == ds;
    } else {
      var q := ReadInitiation(p, msgs[0], sigPub).party;
      OneInitiation(p, msgs[0], sigPub);
      if BadInitiation(msgs[0], sigPub) {
        FedResponder(q, msgs[1..], sigPub, ds);
      } else {
        var e := msgs[0][OFF1_EPHEMERAL..OFF1_ENC_STATIC];
        FoldMore(ds, e);
        FedResponder(q, msgs[1..], sigPub, ds + [e]);
        assert (ds + [e]) + Ephemerals(msgs[1..], sigPub) == ds + ([e] + Ephemerals(msgs[1..], sigPub));
      }
    }
  }

  /** A responder is as fresh as new after some messages exactly when every one of them
      failed the length or mac1 check, unless the hash collides. */
  lemma ResponderFreshIff(s: Bytes32, sPub: Bytes32, msgs: seq<Bytes>, sigPub: Bytes32)
    requires NoCollision({PROTOCOL_NAME} + ChainInputs(START, [sPub] + Ephemerals(msgs, sigPub)))
    ensures FeedResponder(NewResponder(s, sPub), msgs, sigPub) == NewResponder(s, sPub) <==>
            forall m :: m in msgs ==> BadInitiation(m, sigPub)
  {
    hide FeedResponder, BadInitiation, FoldHash, NoCollision, ChainInputs, Ephemerals;
    var p, es := NewResponder(s, sPub), Ephemerals(msgs, sigPub);
    EphemeralsOf(msgs, sigPub);
    if es == [] {
      RejectedInitiationsHarmless(p, msgs, [], sigPub);
    } else {
      FoldMore([], sPub);
      assert [] + [sPub] == [sPub];
      FoldNothing();
      FedResponder(p, msgs, sigPub, [sPub]);
      Differs([sPub], es);
    }
  }

  lemma FoldNothing()
    ensures FoldHash(START, []) == START
  {
  }

  /** A longer hash chain ends elsewhere. */
  lemma Differs(ds: seq<Bytes>, more: seq<Bytes>)
    requires more != [] && forall d :: d in ds + more ==> |d| != 1
    requires NoCollision({PROTOCOL_NAME} + ChainInputs(START, ds + more))
    ensures FoldHash(START, ds + more) != FoldHash(START, ds)
  {
    hide FoldHash, ChainInputs, NoCollision;
    var all := ds + more;
    if FoldHash(START, all) == FoldHash(START, ds) {
      InputsOfPrefix(START, all, |ds|);
      assert all[..|ds|] == ds;
      FewerInputs({PROTOCOL_NAME} + ChainInputs(START, all),
                  {PROTOCOL_NAME} + ChainInputs(START, all) + ChainInputs(START, ds));
      LengthBinds(all, ds);
    }
  }

  /** Anyone who knows the responder's public signing key can send such a message: every
      framed message 1, whatever its body, gets past mac1 and moves a fresh responder. */
  lemma ForgedInitiationMoves(s: Bytes32, sPub: Bytes32, idx: uint32, body: Bytes, sigPub: Bytes32, mac2: Bytes16)
    requires |body| == 104 && NoCollision({PROTOCOL_NAME} + ChainInputs(START, [sPub, body[..32]]))
    ensures ReadInitiation(NewResponder(s, sPub), Message1(idx, body, sigPub, mac2), sigPub).party != NewResponder(s, sPub)
  {
    hide ReadInitiation, Message1, NoCollision, ChainInputs;
    var m := Message1(idx, body, sigPub, mac2);
    Message1Bytes(idx, body, sigPub, mac2);
    FramedPasses1(idx, body, sigPub, mac2);
    assert m[8..40] == m[8..112][..32];
    assert Ephemerals([m], sigPub) == [body[..32]];
    assert [sPub] + [body[..32]] == [sPub, body[..32]];
    assert m in [m];
    ResponderFreshIff(s, sPub, [m], sigPub);
  }

  lemma FramedPasses1(idx: uint32, body: Bytes, sigPub: Bytes32, mac2: Bytes16)
    requires |body| == 104
    ensures !BadInitiation(Message1(idx, body, sigPub, mac2), sigPub)
  {
    hide Message1, Mac1;
    Message1Bytes(idx, body, sigPub, mac2);
  }

  // The initiator --------------------------------------------------------------

  /** What the messages that got past the checks mix into the initiator's hash. */
  function Mixed(p: Party, msgs: seq<Bytes>, sigPub: Bytes32): (ds: seq<Bytes>)
    ensures ds == [] <==> forall m :: m in msgs ==> BadResponse(m, sigPub)
    ensures forall d :: d in ds ==> |d| != 1
    decreases |msgs|
  {
    if msgs == [] then []
    else
      var a := ReadResponse(p, msgs[0], sigPub);
      var more := Mixed(a.party, msgs[1..], sigPub);
      if BadResponse(msgs[0], sigPub) then
        assert msgs == [msgs[0]] + msgs[1..];
        more
      else
        assert msgs[0] in msgs;
        MixedBy(msgs[0], a.error.None?) + more
  }

  function MixedBy(msg: Bytes, complete: bool): (ds: seq<Bytes>)
    requires |msg| >= MSG2_SIZE
    ensures ds != [] && forall d :: d in ds ==> |d| != 1
  {
    [msg[OFF2_EPHEMERAL..OFF2_ENC_NOTHING]] + if complete then [msg[OFF2_ENC_NOTHING..OFF2_MAC1]] else []
  }

  lemma OneResponse(p: Party, msg: Bytes, sigPub: Bytes32, ds: seq<Bytes>)
    requires p.sym.h == FoldHash(START, ds)
    ensures var a := ReadResponse(p, msg, sigPub);
            && (BadResponse(msg, sigPub) ==> a.party == p)
            && (!BadResponse(msg, sigPub) ==> |msg| >= MSG2_SIZE)
            && (!BadResponse(msg, sigPub) ==> a.party.sym.h == FoldHash(START, ds + MixedBy(msg, a.error.None?)))
  {
    hide Mac1, Read, Hkdf2, TransportNonce, FoldHash;
    if !BadResponse(msg, sigPub) {
      var body := msg[OFF2_EPHEMERAL..OFF2_MAC1];
      IK2Read(p, body);
      var e, ct := msg[OFF2_EPHEMERAL..OFF2_ENC_NOTHING], msg[OFF2_ENC_NOTHING..OFF2_MAC1];
      assert body[..32] == e && body[32..] == ct;
      FoldMore(ds, e);
      FoldMore(ds + [e], ct);
      assert ds + ([e] + []) == ds + [e] && ds + ([e] + [ct]) == (ds + [e]) + [ct];
    }
  }

  lemma {:induction false} FedInitiator(p: Party, msgs: seq<Bytes>, sigPub: Bytes32, ds: seq<Bytes>)
    requires p.sym.h == FoldHash(START, ds)
    ensures FeedInitiator(p, msgs, sigPub).sym.h == FoldHash(START, ds + Mixed(p, msgs, sigPub))
    decreases |msgs|
  {
    hide ReadResponse, BadResponse, MixedBy, FoldHash;
    if msgs == [] {
      assert ds + [] == ds;
    } else {
      var a := ReadResponse(p, msgs[0], sigPub);
      OneResponse(p, msgs[0], sigPub, ds);
      if BadResponse(msgs[0], sigPub) {
        FedInitiator(a.party, msgs[1..], sigPub, ds);
      } else {
        var es, more := MixedBy(msgs[0], a.error.None?), Mixed(a.party, msgs[1..], sigPub);
        FedInitiator(a.party, msgs[1..], sigPub, ds + es);
        assert (ds + es) + more == ds + (es + more);
      }
    }
  }

  /** What an initiator has hashed once `msg1` is out. */
  function SentInputs(rStatic: Bytes, msg1: Bytes): seq<Bytes> {
    if |msg1| < MSG1_SIZE then [rStatic]
    else [rStatic, msg1[OFF1_EPHEMERAL..OFF1_ENC_STATIC], msg1[OFF1_ENC_STATIC..OFF1_ENC_TIME], msg1[OFF1_ENC_TIME..OFF1_MAC1]]
  }

  lemma SentHash(s: Bytes32, sPub: Bytes32, rStatic: Bytes32, idx: uint32, ts: uint64, eph: Bytes32,
                 sigPub: Bytes32, mac2: Bytes16)
    requires WriteInitiation(NewInitiator(s, sPub, rStatic), idx, ts, eph, sigPub, mac2).error.None?
    ensures var a := WriteInitiation(NewInitiator(s, sPub, rStatic), idx, ts, eph, sigPub, mac2);
            |a.bytes| == MSG1_SIZE && a.party.sym.h == FoldHash(START, SentInputs(rStatic, a.bytes))
  {
    hide Write, Message1, FoldHash, BE, IK1;
    var w := Write(NewInitiator(s, sPub, rStatic), IK1(), eph, BE(8, ts), []);
    IKTranscript.InitiationTranscript(s, sPub, rStatic, ts, eph);
    Message1Bytes(idx, w.bytes, sigPub, mac2);
    var m, b := Message1(idx, w.bytes, sigPub, mac2), w.bytes;
    assert m[8..40] == m[8..112][..32] && m[40..88] == m[8..112][32..80] && m[88..112] == m[8..112][80..];
  }

  /** An initiator that has sent message 1 still awaits its answer unchanged exactly when
      every message it received failed the length or mac1 check, unless the hash collides. */
  lemma InitiatorFreshIff(s: Bytes32, sPub: Bytes32, rStatic: Bytes32, idx: uint32, ts: uint64, eph: Bytes32,
                          mac2: Bytes16, msgs: seq<Bytes>, sigPub: Bytes32)
    requires var a := WriteInitiation(NewInitiator(s, sPub, rStatic), idx, ts, eph, sigPub, mac2);
             && a.error.None?
             && NoCollision({PROTOCOL_NAME} + ChainInputs(START, SentInputs(rStatic, a.bytes) + Mixed(a.party, msgs, sigPub)))
    ensures var p := WriteInitiation(NewInitiator(s, sPub, rStatic), idx, ts, eph, sigPub, mac2).party;
            FeedInitiator(p, msgs, sigPub) == p <==> forall m :: m in msgs ==> BadResponse(m, sigPub)
  {
    hide WriteInitiation, FeedInitiator, BadResponse, FoldHash, NoCollision, ChainInputs, Mixed, NewInitiator;
    var a := WriteInitiation(NewInitiator(s, sPub, rStatic), idx, ts, eph, sigPub, mac2);
    var p, ds := a.party, Mixed(a.party, msgs, sigPub);
    if ds == [] {
      RejectedResponsesHarmless(p, msgs, [], sigPub);
    } else {
      SentHash(s, sPub, rStatic, idx, ts, eph, sigPub, mac2);
      FedInitiator(p, msgs, sigPub, SentInputs(rStatic, a.bytes));
      Differs(SentInputs(rStatic, a.bytes), ds);
    }
  }

  /** Again anyone can send such a message: every framed message 2 moves the initiator. */
  lemma ForgedResponseMoves(s: Bytes32, sPub: Bytes32, rStatic: Bytes32, idx: uint32, ts: uint64, eph: Bytes32,
                            mac2: Bytes16, sigPub: Bytes32, idxR: uint32, echo: uint32, body: Bytes, mac2R: Bytes16)
    requires |body| == 48
    requires var a := WriteInitiation(NewInitiator(s, sPub, rStatic), idx, ts, eph, sigPub, mac2);
             && a.error.None?
             && NoCollision({PROTOCOL_NAME} + ChainInputs(START, SentInputs(rStatic, a.bytes)
                              + Mixed(a.party, [Message2(idxR, echo, body, sigPub, mac2R)], sigPub)))
    ensures var p := WriteInitiation(NewInitiator(s, sPub, rStatic), idx, ts, eph, sigPub, mac2).party;
            ReadResponse(p, Message2(idxR, echo, body, sigPub, mac2R), sigPub).party != p
  {
    hide WriteInitiation, ReadResponse, BadResponse, NoCollision, ChainInputs, Mixed, NewInitiator, Message2, SentInputs;
    var m := Message2(idxR, echo, body, sigPub, mac2R);
    FramedPasses2(idxR, echo, body, sigPub, mac2R);
    assert m in [m];
    InitiatorFreshIff(s, sPub, rStatic, idx, ts, eph, mac2, [m], sigPub);
  }

  lemma FramedPasses2(idx: uint32, peer: uint32, body: Bytes, sigPub: Bytes32, mac2: Bytes16)
    requires |body| == 48
    ensures !BadResponse(Message2(idx, peer, body, sigPub, mac2), sigPub)
  {
    hide Message2, Mac1;
    Message2Bytes(idx, peer, body, sigPub, mac2);
  }
}
