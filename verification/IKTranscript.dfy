/**
 What each side of Noise_IK does to its symmetric state, operation by operation.
 */
module IKTranscript {
  import opened Octets
  import opened Results
  import opened Crypto
  import opened Symmetric
  import opened KeyChain
  import opened Handshake
  import opened NoiseIK
  import opened Discipline
  import opened Operations

  lemma IK1Prescribes(body: Bytes, iStatic: Bytes, stamp: Bytes)
    requires |body| == 104
    ensures UsesOf(IK1(), 0, 0, false) == [Use(1, 0), Use(2, 0)] && Rekeys(IK1()) == 2
    ensures Cut(IK1(), false, body) == [body[..32], body[32..80], body[80..]]
    ensures TextsOf(IK1(), 1, false, [iStatic, stamp]) == [Text(2, iStatic), Text(3, stamp)]
  {
    var rest := body[32..];
    assert rest[..48] == body[32..80] && rest[48..] == body[80..];
    assert [iStatic, stamp][1..] == [stamp];
  }

  lemma IK2Prescribes(n: uint64, hasKey: bool, body: Bytes)
    requires |body| == 48
    ensures UsesOf(IK2(), 2, n, hasKey) == [Use(4, 0)] && Rekeys(IK2()) == 2
    ensures Cut(IK2(), hasKey, body) == [body[..32], body[32..]]
    ensures TextsOf(IK2(), 4, hasKey, [[]]) == [Text(5, [])]
  {
  }

  /** The six mixHash inputs: the responder's static key, both ephemerals, all three ciphertexts. */
  function Inputs(rStatic: Bytes, body1: Bytes, body2: Bytes): seq<Bytes>
    requires |body1| == 104 && |body2| == 48
  {
    [rStatic, body1[..32], body1[32..80], body1[80..], body2[..32], body2[32..]]
  }

  /** Running `ops` from the start ends in the state `end`, after four keys, exactly three
      AEAD calls, each at n = 0 under its own key, on the initiator's static key, its
      timestamp and nothing, and exactly the six mixHash inputs. */
  ghost predicate Completed(ops: seq<Op>, end: Sym, rStatic: Bytes, iStatic: Bytes, stamp: Bytes, body1: Bytes, body2: Bytes) {
    && |body1| == 104 && |body2| == 48
    && var t := RunOps(Start(), ops);
    && t.sym == end && t.Epoch() == 4
    && t.uses == [Use(1, 0), Use(2, 0), Use(4, 0)]
    && t.texts == [Text(2, iStatic), Text(3, stamp), Text(5, [])]
    && t.hashed == Inputs(rStatic, body1, body2)
  }

  /** The trace of a party that has only hashed the responder's static key. */
  function Opened(rStatic: Bytes): Trace {
    Apply(Start(), Hash(rStatic))
  }

  lemma Opening(rStatic: Bytes, ops: seq<Op>)
    ensures RunOps(Start(), [Hash(rStatic)] + ops) == RunOps(Opened(rStatic), ops)
    ensures Opened(rStatic) == Trace(MixedHash(NewSym(), rStatic), [], [], [], [], [rStatic])
  {
    RunOne(Start(), Hash(rStatic), ops);
  }

  lemma Closing(rStatic: Bytes, iStatic: Bytes, stamp: Bytes, ops1: seq<Op>, ops2: seq<Op>, body1: Bytes, body2: Bytes)
    requires |body1| == 104 && |body2| == 48
    requires var t1 := RunOps(Opened(rStatic), ops1);
             && AsPrescribed(IK1(), Opened(rStatic), body1, [iStatic, stamp], t1)
             && AsPrescribed(IK2(), t1, body2, [[]], RunOps(t1, ops2))
    ensures Completed([Hash(rStatic)] + (ops1 + ops2), RunOps(RunOps(Opened(rStatic), ops1), ops2).sym,
                      rStatic, iStatic, stamp, body1, body2)
  {
    hide RunOps, UsesOf, Cut, Rekeys, TextsOf;
    var t := Opened(rStatic);
    var t1 := RunOps(t, ops1);
    Opening(rStatic, ops1 + ops2);
    RunSplits(t, ops1, ops2);
    IK1Prescribes(body1, iStatic, stamp);
    IK2Prescribes(t1.sym.n, t1.sym.hasKey, body2);
  }

  // The two sides --------------------------------------------------------------

  /** Everything an initiator does from NewInitiator to the end of ReadResponse. */
  function InitiatorOps(p: Party, ts: uint64, eph: Bytes32, msg2: Bytes): seq<Op>
    requires |msg2| >= MSG2_SIZE
  {
    [Hash(p.rs)] + (WriteOps(p, IK1(), eph, BE(8, ts))
                    + ReadOps(Write(p, IK1(), eph, BE(8, ts), []).party, IK2(), msg2[12..60]))
  }

  function ResponderOps(p: Party, msg1: Bytes, eph: Bytes32): seq<Op>
    requires |msg1| >= MSG1_SIZE
  {
    [Hash(p.sPub)] + (ReadOps(p, IK1(), msg1[8..112])
                      + WriteOps(Read(p, IK1(), msg1[8..112]).party, IK2(), eph, []))
  }

  // Secrets ------------------------------------------------------------------

  /** The Diffie-Hellman results `os` all came out, as `ikms`. */
  ghost predicate Are(ikms: seq<Bytes>, os: seq<Option<Bytes>>) {
    |ikms| == |os| && forall i :: 0 <= i < |os| ==> os[i] == Some(ikms[i])
  }

  /** Writing message 1 mixes in es and ss. */
  lemma WrittenSecrets1(p: Party, eph: Bytes32, payload: Bytes)
    requires p.initiator && Write(p, IK1(), eph, payload, []).error.None?
    ensures Are(Ikms(WriteOps(p, IK1(), eph, payload)), [X25519(eph, p.rs), X25519(p.s, p.rs)])
    ensures var q := Write(p, IK1(), eph, payload, []).party; q.e == eph && q.s == p.s && q.initiator
  {
    hide Ikms, MixedHash, MixedKey, Encrypted;
    IK1Written(p, eph, payload);
    var a := WriteToken(p, E, eph);
    var b := WriteToken(a.party, ES, eph);
    var c := WriteToken(b.party, S, eph);
    var d := WriteToken(c.party, SS, eph);
    var last := [Enc(payload)];
    var o4 := [Key(X25519(p.s, p.rs).value)] + last;
    var o3, o2 := [Enc(p.sPub)] + o4, [Key(X25519(eph, p.rs).value)] + ([Enc(p.sPub)] + o4);
    assert WriteOps(p, IK1(), eph, payload) == [Hash(a.bytes)] + o2;
    IkmsOne(Hash(a.bytes), o2);
    IkmsOne(Key(X25519(eph, p.rs).value), o3);
    IkmsOne(Enc(p.sPub), o4);
    IkmsOne(Key(X25519(p.s, p.rs).value), last);
    NoIkms(last[0]);
  }

  lemma NoIkms(op: Op)
    requires !op.Key?
    ensures Ikms([op]) == []
  {
    IkmsOne(op, []);
    assert [op] + [] == [op];
    assert Ikms([]) == [];
  }

  /** Reading message 1 mixes in es and ss, from the responder's static key. */
  lemma ReadSecrets1(p: Party, msg: Bytes)
    requires !p.initiator && |msg| == 104 && Read(p, IK1(), msg).error.None?
    ensures var r := Read(p, IK1(), msg);
            && Are(Ikms(ReadOps(p, IK1(), msg)), [X25519(p.s, msg[..32]), X25519(p.s, r.party.rs)])
            && r.party.re == msg[..32] && !r.party.initiator
            && RecoveredTexts(p, IK1(), msg) == [r.party.rs, r.bytes]
  {
    hide Ikms, MixedHash, MixedKey, Decrypted;
    var a := ReadToken(p, E, msg);
    var b := ReadToken(a.party, ES, a.bytes);
    var c := ReadToken(b.party, S, b.bytes);
    var d := ReadToken(c.party, SS, c.bytes);
    var last := [Dec(d.bytes)];
    var o4 := [Key(X25519(p.s, c.party.rs).value)] + last;
    var o3 := [ReadOp(b.party, S, b.bytes)] + o4;
    var o2 := [Key(X25519(p.s, msg[..32]).value)] + o3;
    assert ReadOps(p, IK1(), msg) == [Hash(msg[..32])] + o2;
    IkmsOne(Hash(msg[..32]), o2);
    IkmsOne(Key(X25519(p.s, msg[..32]).value), o3);
    IkmsOne(ReadOp(b.party, S, b.bytes), o4);
    IkmsOne(Key(X25519(p.s, c.party.rs).value), last);
    NoIkms(last[0]);
  }

  /** Writing message 2 mixes in ee and se, from the responder's ephemeral key. */
  lemma {:induction false} WrittenSecrets2(p: Party, eph: Bytes32)
    requires !p.initiator && Write(p, IK2(), eph, [], []).error.None?
    ensures Are(Ikms(WriteOps(p, IK2(), eph, [])), [X25519(eph, p.re), X25519(eph, p.rs)])
  {
    hide Ikms, Are, MixedHash, MixedKey, Encrypted, Write;
    IK2Written(p, eph);
    var a := WriteToken(p, E, eph);
    var b := WriteToken(a.party, EE, eph);
    var c := WriteToken(b.party, SE, eph);
    var last := [Enc([])];
    var o3 := [Key(X25519(eph, p.rs).value)] + last;
    var o2 := [Key(X25519(eph, p.re).value)] + o3;
    assert WriteOps(p, IK2(), eph, []) == [Hash(a.bytes)] + o2;
    IkmsOne(Hash(a.bytes), o2);
    IkmsOne(Key(X25519(eph, p.re).value), o3);
    IkmsOne(Key(X25519(eph, p.rs).value), last);
    NoIkms(last[0]);
    assert Ikms(WriteOps(p, IK2(), eph, [])) == [X25519(eph, p.re).value, X25519(eph, p.rs).value];
    PairAre(X25519(eph, p.re), X25519(eph, p.rs));
  }

  /** Reading message 2 mixes in ee and se, from the initiator's keys. */
  lemma ReadSecrets2(p: Party, msg: Bytes)
    requires p.initiator && |msg| == 48 && Read(p, IK2(), msg).error.None?
    ensures Are(Ikms(ReadOps(p, IK2(), msg)), [X25519(p.e, msg[..32]), X25519(p.s, msg[..32])])
    ensures RecoveredTexts(p, IK2(), msg) == [[]] && Read(p, IK2(), msg).party.initiator
  {
    hide Ikms, MixedHash, MixedKey, Hkdf2;
    var a := ReadToken(p, E, msg);
    var b := ReadToken(a.party, EE, a.bytes);
    var c := ReadToken(b.party, SE, b.bytes);
    KeyedAfter(b.party.sym, X25519(p.s, msg[..32]).value);
    assert |Read(c.party, Payload, c.bytes).bytes| == 0;
    var last := [Dec(c.bytes)];
    var o3 := [Key(X25519(p.s, msg[..32]).value)] + last;
    var o2 := [Key(X25519(p.e, msg[..32]).value)] + o3;
    assert ReadOps(p, IK2(), msg) == [Hash(msg[..32])] + o2;
    IkmsOne(Hash(msg[..32]), o2);
    IkmsOne(Key(X25519(p.e, msg[..32]).value), o3);
    IkmsOne(Key(X25519(p.s, msg[..32]).value), last);
    NoIkms(last[0]);
  }

  lemma PairAre(o: Option<Bytes>, q: Option<Bytes>)
    requires o.Some? && q.Some?
    ensures Are([o.value, q.value], [o, q])
  {
  }

  lemma KeyedAfter(s: Sym, ikm: Bytes)
    ensures MixedKey(s, ikm).hasKey
  {
  }

  lemma JoinAre(a: seq<Bytes>, b: seq<Bytes>, os: seq<Option<Bytes>>, qs: seq<Option<Bytes>>)
    requires Are(a, os) && Are(b, qs)
    ensures Are(a + b, os + qs)
  {
  }

  /** The secrets of a whole run: those of its two messages. */
  lemma RunSecrets(rStatic: Bytes, ops1: seq<Op>, ops2: seq<Op>)
    ensures RunOps(Start(), [Hash(rStatic)] + (ops1 + ops2)).ikms == Ikms(ops1) + Ikms(ops2)
  {
    hide Ikms, RunOps;
    RunIkms(Start(), [Hash(rStatic)] + (ops1 + ops2));
    IkmsOne(Hash(rStatic), ops1 + ops2);
    IkmsJoin(ops1, ops2);
  }

  // What a run hands out --------------------------------------------------------

  /** The keys and H of a completed run: one more key step splits the chain of the four
      secrets, the initiator sending under its chaining key and the responder under its
      cipher key, and H is the chain of the six inputs. */
  ghost predicate HandsOut(ops: seq<Op>, initiator: bool, inputs: seq<Bytes>, keys: Keys) {
    var ikms := RunOps(Start(), ops).ikms;
    && keys.h == FoldHash(START, inputs)
    && keys.send == (if initiator then ChainKey(ikms + [[]]) else CipherKey(ikms + [[]]))
    && keys.recv == (if initiator then CipherKey(ikms + [[]]) else ChainKey(ikms + [[]]))
  }

  lemma SplitIsNextStep(ikms: seq<Bytes>)
    ensures Hkdf2(ChainKey(ikms), []) == (ChainKey(ikms + [[]]), CipherKey(ikms + [[]]))
  {
    hide Hkdf2;
    assert (ikms + [[]])[..|ikms|] == ikms;
  }

  lemma FinalizeHandsOut(ops: seq<Op>, p: Party)
    requires RunOps(Start(), ops).sym == p.sym
    ensures HandsOut(ops, p.initiator, RunOps(Start(), ops).hashed, Finalize(p))
  {
    hide RunOps, FoldHash, ChainKey, CipherKey, Hkdf2;
    RunKeyed(ops);
    HashIsFold(ops);
    SplitIsNextStep(RunOps(Start(), ops).ikms);
  }

  // The transcripts ------------------------------------------------------------

  /** After message 1 the initiator's h is the hash chain of four inputs. */
  lemma InitiationTranscript(s: Bytes32, sPub: Bytes32, rStatic: Bytes32, ts: uint64, eph: Bytes32)
    requires Write(NewInitiator(s, sPub, rStatic), IK1(), eph, BE(8, ts), []).error.None?
    ensures var p := NewInitiator(s, sPub, rStatic);
            var w := Write(p, IK1(), eph, BE(8, ts), []);
            var t1 := RunOps(Opened(rStatic), WriteOps(p, IK1(), eph, BE(8, ts)));
            && |w.bytes| == 104 && t1.sym == w.party.sym
            && AsPrescribed(IK1(), Opened(rStatic), w.bytes, [sPub, BE(8, ts)], t1)
            && w.party.sym.h == FoldHash(START, [rStatic, w.bytes[..32], w.bytes[32..80], w.bytes[80..]])
  {
    hide Write, WriteOps, RunOps, BE, FoldHash, UsesOf, Cut, Rekeys, TextsOf;
    var p := NewInitiator(s, sPub, rStatic);
    var ops, w := WriteOps(p, IK1(), eph, BE(8, ts)), Write(p, IK1(), eph, BE(8, ts), []);
    Opening(rStatic, ops);
    Body1(p, eph, ts);
    WriteRuns(p, IK1(), eph, BE(8, ts), Opened(rStatic));
    TextsOfIK1(sPub, BE(8, ts));
    IK1Prescribes(w.bytes, sPub, BE(8, ts));
    HashIsFold([Hash(rStatic)] + ops);
    assert [rStatic] + [w.bytes[..32], w.bytes[32..80], w.bytes[80..]] ==
           [rStatic, w.bytes[..32], w.bytes[32..80], w.bytes[80..]];
  }

  lemma TextsOfIK1(sPub: Bytes, payload: Bytes)
    ensures WrittenTexts(sPub, IK1(), payload) == [sPub, payload]
  {
  }

  lemma TextsOfIK2(sPub: Bytes)
    ensures WrittenTexts(sPub, IK2(), []) == [[]]
  {
  }

  /** Any completed initiator, whoever answered: the operations it performed end in its
      own symmetric state, with three AEAD calls and the bytes of both messages hashed;
      its keys come from es, ss, ee and se and nothing else, and Finalize hands them out. */
  lemma InitiatorTranscript(s: Bytes32, sPub: Bytes32, rStatic: Bytes32, idx: uint32, ts: uint64, eph: Bytes32,
                            sigPub: Bytes32, mac2: Bytes16, msg2: Bytes)
    requires var a := WriteInitiation(NewInitiator(s, sPub, rStatic), idx, ts, eph, sigPub, mac2);
             a.error.None? && ReadResponse(a.party, msg2, sigPub).error.None?
    ensures var p := NewInitiator(s, sPub, rStatic);
            var a := WriteInitiation(p, idx, ts, eph, sigPub, mac2);
            var q := ReadResponse(a.party, msg2, sigPub).party;
            && |a.bytes| == MSG1_SIZE && |msg2| >= MSG2_SIZE
            && var ops := InitiatorOps(p, ts, eph, msg2);
            && Completed(ops, q.sym, rStatic, sPub, BE(8, ts), a.bytes[8..112], msg2[12..60])
            && Are(RunOps(Start(), ops).ikms,
                   [X25519(eph, rStatic), X25519(s, rStatic), X25519(eph, msg2[12..44]), X25519(s, msg2[12..44])])
            && HandsOut(ops, true, Inputs(rStatic, a.bytes[8..112], msg2[12..60]), Finalize(q))
  {
    hide Write, Read, WriteOps, ReadOps, RunOps, Mac1, BE, AsPrescribed, Message1, IK1, IK2, Opened, FoldHash, Ikms,
         HandsOut, Finalize, RecoveredTexts;
    var p := NewInitiator(s, sPub, rStatic);
    var w, body2 := Write(p, IK1(), eph, BE(8, ts), []), msg2[12..60];
    var ops1, ops2 := WriteOps(p, IK1(), eph, BE(8, ts)), ReadOps(w.party, IK2(), body2);
    InitiationTranscript(s, sPub, rStatic, ts, eph);
    Message1Bytes(idx, w.bytes, sigPub, mac2);
    WrittenSecrets1(p, eph, BE(8, ts));
    ReadSecrets2(w.party, body2);
    ReadRuns(w.party, IK2(), body2, RunOps(Opened(rStatic), ops1));
    Closing(rStatic, sPub, BE(8, ts), ops1, ops2, w.bytes, body2);
    RunSecrets(rStatic, ops1, ops2);
    assert body2[..32] == msg2[12..44];
    JoinAre(Ikms(ops1), Ikms(ops2), [X25519(eph, rStatic), X25519(s, rStatic)],
            [X25519(eph, msg2[12..44]), X25519(s, msg2[12..44])]);
    FinalizeHandsOut([Hash(rStatic)] + (ops1 + ops2), Read(w.party, IK2(), body2).party);
  }

  /** Any completed responder, whoever initiated. */
  lemma ResponderTranscript(s: Bytes32, sPub: Bytes32, msg1: Bytes, idx: uint32, peer: uint32, eph: Bytes32,
                            sigPub: Bytes32, mac2: Bytes16)
    requires var a := ReadInitiation(NewResponder(s, sPub), msg1, sigPub);
             a.error.None? && WriteResponse(a.party, idx, peer, eph, sigPub, mac2).error.None?
    ensures var p := NewResponder(s, sPub);
            var a := ReadInitiation(p, msg1, sigPub);
            var b := WriteResponse(a.party, idx, peer, eph, sigPub, mac2);
            && |b.bytes| == MSG2_SIZE && |msg1| >= MSG1_SIZE
            && var ops := ResponderOps(p, msg1, eph);
            && Completed(ops, b.party.sym, sPub, a.party.rs, a.bytes, msg1[8..112], b.bytes[12..60])
            && Are(RunOps(Start(), ops).ikms,
                   [X25519(s, msg1[8..40]), X25519(s, a.party.rs), X25519(eph, msg1[8..40]), X25519(eph, a.party.rs)])
            && HandsOut(ops, false, Inputs(sPub, msg1[8..112], b.bytes[12..60]), Finalize(b.party))
  {
    hide Write, Read, WriteOps, ReadOps, RunOps, Mac1, BE, AsPrescribed, Message2, IK1, Opened, FoldHash, Ikms,
         HandsOut, Finalize, RecoveredTexts;
    var p, body1 := NewResponder(s, sPub), msg1[8..112];
    var a := Read(p, IK1(), body1);
    var q := a.party;
    var w := Write(q, IK2(), eph, [], []);
    var ops1, ops2 := ReadOps(p, IK1(), body1), WriteOps(q, IK2(), eph, []);
    Opening(sPub, []);
    ReadSecrets1(p, body1);
    WrittenSecrets2(q, eph);
    ReadRuns(p, IK1(), body1, Opened(sPub));
    WriteRuns(q, IK2(), eph, [], RunOps(Opened(sPub), ops1));
    TextsOfIK2(q.sPub);
    WriteKeepsKeys(q, IK2(), eph, [], []);
    Body2(q, eph);
    Message2Bytes(idx, peer, w.bytes, sigPub, mac2);
    Closing(sPub, q.rs, a.bytes, ops1, ops2, body1, w.bytes);
    RunSecrets(sPub, ops1, ops2);
    assert body1[..32] == msg1[8..40];
    JoinAre(Ikms(ops1), Ikms(ops2), [X25519(s, msg1[8..40]), X25519(s, q.rs)],
            [X25519(eph, msg1[8..40]), X25519(eph, q.rs)]);
    FinalizeHandsOut([Hash(sPub)] + (ops1 + ops2), w.party);
  }

  // Binding ------------------------------------------------------------------

  /** Two completed runs, on either side, that hand out the same H had the same
      conversation: the same responder key and handshake bytes, unless the hash collides. */
  lemma SameHashSameConversation(opsA: seq<Op>, initiatorA: bool, keysA: Keys, staticA: Bytes, a1: Bytes, a2: Bytes,
                                 opsB: seq<Op>, initiatorB: bool, keysB: Keys, staticB: Bytes, b1: Bytes, b2: Bytes)
    requires |a1| == |b1| == 104 && |a2| == |b2| == 48
    requires HandsOut(opsA, initiatorA, Inputs(staticA, a1, a2), keysA)
    requires HandsOut(opsB, initiatorB, Inputs(staticB, b1, b2), keysB) && keysA.h == keysB.h
    requires NoCollision(ChainInputs(START, Inputs(staticA, a1, a2)) + ChainInputs(START, Inputs(staticB, b1, b2)))
    ensures staticA == staticB && a1 == b1 && a2 == b2
  {
    hide FoldHash, ChainInputs, NoCollision, RunOps, ChainKey, CipherKey;
    var ds, es := Inputs(staticA, a1, a2), Inputs(staticB, b1, b2);
    TranscriptBinds(START, ds, es);
    assert ds[0] == es[0] && ds[1] == es[1] && ds[2] == es[2] && ds[3] == es[3] && ds[4] == es[4] && ds[5] == es[5];
    assert a1 == a1[..32] + a1[32..80] + a1[80..] && b1 == b1[..32] + b1[32..80] + b1[80..];
    assert a2 == a2[..32] + a2[32..] && b2 == b2[..32] + b2[32..];
  }
}
