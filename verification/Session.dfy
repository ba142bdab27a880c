/**
 Nonces over a whole session: the handshake and the transport share one nonce function,
 and no key and nonce reach the AEAD twice as long as each direction counts.
 */
module Session {
  import opened Octets
  import opened Crypto
  import opened Symmetric
  import opened KeyChain
  import opened Handshake
  import opened Discipline
  import NoiseIK
  import IKTranscript
  import Transport

  predicate Distinct<T(==)>(s: seq<T>) {
    forall i, j :: 0 <= i < j < |s| ==> s[i] != s[j]
  }

  /** The AEAD calls that seal packets with these counters under one key. */
  function PacketCalls(key: Bytes32, counters: seq<uint64>): (cs: seq<Call>)
    ensures |cs| == |counters|
  {
    seq(|counters|, i requires 0 <= i < |counters| => Call(key, TransportNonce(counters[i])))
  }

  /** Those are the calls SealTransport makes. */
  lemma PacketIsCall(key: Bytes32, counters: seq<uint64>, i: nat, receiverIndex: uint32, plaintext: Bytes)
    requires i < |counters|
    ensures var m, call := Transport.Packet(key, receiverIndex, counters[i], plaintext), PacketCalls(key, counters)[i];
            |m| >= 16 && m[16..] == Seal(call.key, call.nonce, plaintext, m[..16])
  {
    hide TransportNonce;
    Transport.PacketBytes(key, receiverIndex, counters[i], plaintext);
  }

  lemma PacketsDistinct(key: Bytes32, counters: seq<uint64>)
    ensures Distinct(PacketCalls(key, counters)) <==> Distinct(counters)
  {
    hide TransportNonce;
    var cs := PacketCalls(key, counters);
    forall i, j | 0 <= i < j < |counters|
      ensures cs[i] == cs[j] <==> counters[i] == counters[j]
    {
      NonceInjective(counters[i], counters[j]);
    }
  }

  /** No call of `a` is under the key of any call of `b`. */
  predicate KeysApart(a: seq<Call>, b: seq<Call>) {
    forall i, j :: 0 <= i < |a| && 0 <= j < |b| ==> a[i].key != b[j].key
  }

  lemma JoinDistinct(a: seq<Call>, b: seq<Call>)
    requires KeysApart(a, b)
    ensures Distinct(a + b) <==> Distinct(a) && Distinct(b)
  {
    var c := a + b;
    assert forall i :: 0 <= i < |a| ==> c[i] == a[i];
    assert forall j :: 0 <= j < |b| ==> c[|a| + j] == b[j];
    if Distinct(c) {
      forall i, j | 0 <= i < j < |b|
        ensures b[i] != b[j]
      {
        assert c[|a| + i] != c[|a| + j];
      }
    }
    if Distinct(a) && Distinct(b) {
      forall i, j | 0 <= i < j < |c|
        ensures c[i] != c[j]
      {
        if |a| <= i {
          assert b[i - |a|] != b[j - |a|];
        } else if |a| <= j {
          assert a[i].key != b[j - |a|].key;
        }
      }
    }
  }

  /** Neither output of one more key step is a cipher key of the chain before it. */
  lemma SplitKeysNew(ikms: seq<Bytes>, i: nat)
    requires 0 < i <= |ikms| && NoCollision(KeyInputs(ikms + [[]]))
    ensures CipherKey(ikms[..i]) != CipherKey(ikms + [[]]) && CipherKey(ikms[..i]) != ChainKey(ikms + [[]])
  {
    hide ChainKey, CipherKey, KeyInputs, NoCollision, TempKey, Hmac, Outer;
    var xs, ys := ikms[..i], ikms + [[]];
    assert ys[..i] == xs && ys[..|ys|] == ys;
    CipherKeysDistinct(ys, i, |ys|);
    InputsGrow(ys, i);
    InputsGrow(ys, i - 1);
    InputsGrow(ys, |ikms|);
    var xs' := xs[..i - 1];
    assert xs' == ys[..i - 1] && ys[..|ikms|] == ikms;
    FewerInputs(KeyInputs(ys), KeyInputs(xs) + KeyInputs(ys));
    FewerInputs(KeyInputs(ys), KeyInputs(xs') + KeyInputs(ikms));
    if ChainKey(xs') == ChainKey(ikms) {
      ChainKeyBinds(xs', ikms);
    }
    if CipherKey(xs) == ChainKey(ys) {
      LastStep(xs);
      LastStep(ys);
      HmacBindsKey(KeyInputs(ys), TempKey(xs), ChainKey(xs) + [2], TempKey(ys), [1]);
      TempBinds(xs, ys);
    }
  }

  /** What the keys of a session hash: the chain with the split, and the split itself. */
  ghost function SessionInputs(t: Trace): set<Bytes> {
    KeyInputs(t.ikms + [[]]) + HkdfInputs(t.sym.ck, [])
  }

  /** The session keys are new to the run and differ from each other. */
  lemma SplitApart(ops: seq<Op>, p: Party, sent: seq<uint64>, received: seq<uint64>)
    requires RunOps(Start(), ops).sym == p.sym && NoCollision(SessionInputs(RunOps(Start(), ops)))
    ensures var t, keys := RunOps(Start(), ops), NoiseIK.Finalize(p);
            var a, b := PacketCalls(keys.send, sent), PacketCalls(keys.recv, received);
            KeysApart(t.calls, a) && KeysApart(t.calls, b) && KeysApart(a, b)
  {
    hide RunOps, KeyInputs, NoCollision, HkdfInputs, TransportNonce, Hkdf2;
    var t := RunOps(Start(), ops);
    RunKeyed(ops);
    FewerInputs(SessionInputs(t), KeyInputs(t.ikms + [[]]));
    FewerInputs(SessionInputs(t), HkdfInputs(t.sym.ck, []));
    HkdfOutputsDiffer(t.sym.ck, []);
    IKTranscript.SplitIsNextStep(t.ikms);
    forall i | 0 <= i < |t.calls|
      ensures t.calls[i].key != Split(t.sym).0 && t.calls[i].key != Split(t.sym).1
    {
      SplitKeysNew(t.ikms, t.uses[i].epoch);
    }
  }

  /** Over everything a party's run of the symmetric state and the two directions after it
      seal, no key and nonce repeat exactly when neither direction repeats a counter and
      no handshake key is used more than 2^64 times, unless the hash collides. */
  lemma SessionFreshIff(ops: seq<Op>, p: Party, sent: seq<uint64>, received: seq<uint64>)
    requires RunOps(Start(), ops).sym == p.sym && NoCollision(SessionInputs(RunOps(Start(), ops)))
    ensures var t, keys := RunOps(Start(), ops), NoiseIK.Finalize(p);
            Distinct(t.calls + (PacketCalls(keys.send, sent) + PacketCalls(keys.recv, received))) <==>
            Distinct(sent) && Distinct(received) && forall e :: Count(t.uses, e) <= TWO_64
  {
    hide RunOps, KeyInputs, NoCollision, HkdfInputs, Count, PacketCalls, NoiseIK.Finalize;
    var t, keys := RunOps(Start(), ops), NoiseIK.Finalize(p);
    var a, b := PacketCalls(keys.send, sent), PacketCalls(keys.recv, received);
    SplitApart(ops, p, sent, received);
    InputsGrow(t.ikms + [[]], |t.ikms|);
    assert (t.ikms + [[]])[..|t.ikms|] == t.ikms;
    FewerInputs(SessionInputs(t), KeyInputs(t.ikms));
    CallsFreshIff(ops);
    PacketsDistinct(keys.send, sent);
    PacketsDistinct(keys.recv, received);
    JoinDistinct(a, b);
    JoinApart(t.calls, a, b);
    JoinDistinct(t.calls, a + b);
  }

  lemma JoinApart(c: seq<Call>, a: seq<Call>, b: seq<Call>)
    requires KeysApart(c, a) && KeysApart(c, b)
    ensures KeysApart(c, a + b)
  {
  }

  /** For either side of a completed Noise_IK handshake: its three AEAD calls and all the
      packets under its two transport keys never share a key and nonce exactly when
      neither direction repeats a counter. */
  lemma IKSessionFreshIff(ops: seq<Op>, p: Party, rStatic: Bytes, iStatic: Bytes, stamp: Bytes, body1: Bytes, body2: Bytes,
                          sent: seq<uint64>, received: seq<uint64>)
    requires IKTranscript.Completed(ops, p.sym, rStatic, iStatic, stamp, body1, body2)
    requires NoCollision(SessionInputs(RunOps(Start(), ops)))
    ensures var t, keys := RunOps(Start(), ops), NoiseIK.Finalize(p);
            Distinct(t.calls + (PacketCalls(keys.send, sent) + PacketCalls(keys.recv, received))) <==>
            Distinct(sent) && Distinct(received)
  {
    hide RunOps, NoCollision, SessionInputs, PacketCalls, Distinct, NoiseIK.Finalize;
    SessionFreshIff(ops, p, sent, received);
    assert |RunOps(Start(), ops).uses| == 3;
  }
}
