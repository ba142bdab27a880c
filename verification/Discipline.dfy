/**
 What every sequence of symmetric-state operations keeps: nonces are never reused
 under one key, and the hash binds everything mixed into it.
 */
module Discipline {
  import opened Octets
  import opened Results
  import opened Crypto
  import opened Symmetric
  import opened KeyChain

  datatype Op = Hash(data: Bytes) | Key(ikm: Bytes) | Enc(plaintext: Bytes) | Dec(ct: Bytes)

  // One successful AEAD call: under which key (counting mixKey calls), at which n.
  datatype Use = Use(epoch: nat, n: uint64)

  // The same call by the key and nonce bytes it was made with.
  datatype Call = Call(key: Bytes, nonce: Bytes)

  // What the same call sealed or opened, and the place of its ciphertext among the inputs
  // of mixHash.
  datatype Text = Text(at: nat, plaintext: Bytes)

  datatype Trace = Trace(sym: Sym, ikms: seq<Bytes>, uses: seq<Use>, calls: seq<Call>, texts: seq<Text>, hashed: seq<Bytes>) {
    function Epoch(): nat {
      |ikms|
    }
  }

  function Start(): Trace {
    Trace(NewSym(), [], [], [], [], [])
  }

  function Used(t: Trace, sym: Sym, plaintext: Bytes, ct: Bytes): Trace {
    if t.sym.hasKey then
      Trace(sym, t.ikms, t.uses + [Use(t.Epoch(), t.sym.n)],
            t.calls + [Call(t.sym.k, TransportNonce(t.sym.n))], t.texts + [Text(|t.hashed|, plaintext)],
            t.hashed + [ct])
    else
      t.(sym := sym, hashed := t.hashed + [ct])
  }

  /** One operation; a failed open changes nothing. */
  function Apply(t: Trace, op: Op): Trace {
    match op
    case Hash(data) => t.(sym := MixedHash(t.sym, data), hashed := t.hashed + [data])
    case Key(ikm) => t.(sym := MixedKey(t.sym, ikm), ikms := t.ikms + [ikm])
    case Enc(plaintext) =>
      var (sym, ct) := Encrypted(t.sym, plaintext);
      Used(t, sym, plaintext, ct)
    case Dec(ct) => (
      match Decrypted(t.sym, ct)
      case Err(_) => t
      case Ok(d) => Used(t, d.0, d.1, ct))
  }

  function RunOps(t: Trace, ops: seq<Op>): Trace {
    if ops == [] then t else Apply(RunOps(t, ops[..|ops| - 1]), ops[|ops| - 1])
  }

  /** The secrets a run mixes into its keys. */
  function Ikms(ops: seq<Op>): seq<Bytes> {
    if ops == [] then []
    else Ikms(ops[..|ops| - 1]) + if ops[|ops| - 1].Key? then [ops[|ops| - 1].ikm] else []
  }

  lemma {:induction false} RunIkms(t: Trace, ops: seq<Op>)
    ensures RunOps(t, ops).ikms == t.ikms + Ikms(ops)
  {
    hide MixedHash, MixedKey, Encrypted, Decrypted;
    if ops != [] {
      RunIkms(t, ops[..|ops| - 1]);
    }
  }

  // Nonces -------------------------------------------------------------------

  function Count(uses: seq<Use>, epoch: nat): (n: nat)
    ensures n <= |uses|
  {
    if uses == [] then 0
    else Count(uses[..|uses| - 1], epoch) + if uses[|uses| - 1].epoch == epoch then 1 else 0
  }

  /** Use i is the (Count of earlier uses)-th of its epoch, and epochs never go back. */
  ghost predicate Numbered(uses: seq<Use>, epoch: nat) {
    && (forall i :: 0 <= i < |uses| ==> uses[i].epoch <= epoch)
    && (forall i, j :: 0 <= i < j < |uses| ==> uses[i].epoch <= uses[j].epoch)
    && (forall i :: 0 <= i < |uses| ==> uses[i].n == Count(uses[..i], uses[i].epoch) % TWO_64)
  }

  ghost predicate Disciplined(t: Trace) {
    Numbered(t.uses, t.Epoch()) && t.sym.n == Count(t.uses, t.Epoch()) % TWO_64
  }

  lemma {:induction false} CountNone(uses: seq<Use>, epoch: nat)
    requires forall i :: 0 <= i < |uses| ==> uses[i].epoch != epoch
    ensures Count(uses, epoch) == 0
  {
    if uses != [] {
      CountNone(uses[..|uses| - 1], epoch);
    }
  }

  lemma NumberedAppend(uses: seq<Use>, epoch: nat, n: uint64)
    requires Numbered(uses, epoch) && n == Count(uses, epoch) % TWO_64
    ensures Numbered(uses + [Use(epoch, n)], epoch)
    ensures Count(uses + [Use(epoch, n)], epoch) == Count(uses, epoch) + 1
  {
    hide Count;
    var more := uses + [Use(epoch, n)];
    CountAppend(uses, epoch, n);
    assert more[..|uses|] == uses;
    forall i | 0 <= i < |uses|
      ensures more[i] == uses[i] && more[..i] == uses[..i]
    {
    }
  }

  lemma CountAppend(uses: seq<Use>, epoch: nat, n: uint64)
    ensures Count(uses + [Use(epoch, n)], epoch) == Count(uses, epoch) + 1
  {
    assert (uses + [Use(epoch, n)])[..|uses|] == uses;
  }

  lemma UseDisciplined(t: Trace, sym: Sym, plaintext: Bytes, ct: Bytes)
    requires Disciplined(t) && sym.n == if t.sym.hasKey then (t.sym.n + 1) % TWO_64 else t.sym.n
    ensures Disciplined(Used(t, sym, plaintext, ct))
  {
    hide Numbered, Count, TransportNonce;
    if t.sym.hasKey {
      NumberedAppend(t.uses, t.Epoch(), t.sym.n);
      NextCount(Count(t.uses, t.Epoch()));
    }
  }

  lemma NextCount(c: nat)
    ensures (c % TWO_64 + 1) % TWO_64 == (c + 1) % TWO_64
  {
  }

  lemma KeyDisciplined(t: Trace, sym: Sym, ikm: Bytes)
    requires Disciplined(t) && sym.n == 0
    ensures Disciplined(t.(sym := sym, ikms := t.ikms + [ikm]))
  {
    CountNone(t.uses, t.Epoch() + 1);
  }

  lemma StepDisciplined(t: Trace, op: Op)
    requires Disciplined(t)
    ensures Disciplined(Apply(t, op))
  {
    hide Numbered, Count, Used, Hkdf2;
    match op
    case Hash(data) =>
    case Key(ikm) =>
      KeyDisciplined(t, MixedKey(t.sym, ikm), ikm);
    case Enc(plaintext) =>
      var (sym, out) := Encrypted(t.sym, plaintext);
      UseDisciplined(t, sym, plaintext, out);
    case Dec(ct) =>
      if Decrypted(t.sym, ct).Ok? {
        UseDisciplined(t, Decrypted(t.sym, ct).value.0, Decrypted(t.sym, ct).value.1, ct);
      }
  }

  lemma {:induction false} RunDisciplined(ops: seq<Op>)
    ensures Disciplined(RunOps(Start(), ops))
  {
    hide Apply, Disciplined;
    if ops == [] {
      StartDisciplined();
    } else {
      RunDisciplined(ops[..|ops| - 1]);
      StepDisciplined(RunOps(Start(), ops[..|ops| - 1]), ops[|ops| - 1]);
    }
  }

  lemma StartDisciplined()
    ensures Disciplined(Start())
  {
  }

  predicate Before(a: Use, b: Use) {
    a.epoch < b.epoch || (a.epoch == b.epoch && a.n < b.n)
  }

  lemma {:induction false} CountGrows(uses: seq<Use>, i: nat, j: nat, epoch: nat)
    requires i <= j <= |uses|
    ensures Count(uses[..i], epoch) <= Count(uses[..j], epoch)
    ensures i < j && uses[i].epoch == epoch ==> Count(uses[..i], epoch) < Count(uses[..j], epoch)
    decreases j
  {
    if i < j {
      assert uses[..j][..j - 1] == uses[..j - 1];
      CountGrows(uses, i, j - 1, epoch);
    }
  }

  /** Nonces strictly increase under each key as long as no key is used more than
      2^64 times. */
  lemma NoncesIncrease(ops: seq<Op>, i: nat, j: nat)
    requires var uses := RunOps(Start(), ops).uses;
             i < j < |uses| && forall e :: Count(uses, e) <= TWO_64
    ensures Before(RunOps(Start(), ops).uses[i], RunOps(Start(), ops).uses[j])
  {
    hide RunOps, Count;
    var uses := RunOps(Start(), ops).uses;
    RunDisciplined(ops);
    var e := uses[j].epoch;
    assert uses[..|uses|] == uses;
    CountGrows(uses, i, j, e);
    CountGrows(uses, j, |uses|, e);
  }

  lemma {:induction false} FindUse(uses: seq<Use>, epoch: nat, c: nat) returns (i: nat)
    requires c < Count(uses, epoch)
    ensures i < |uses| && uses[i].epoch == epoch && Count(uses[..i], epoch) == c
  {
    var n := |uses| - 1;
    var init := uses[..n];
    if c == Count(init, epoch) {
      i := n;
    } else {
      i := FindUse(init, epoch, c);
      assert init[..i] == uses[..i];
    }
  }

  /** No (epoch, n) pair is used twice exactly when no epoch has more than 2^64 uses. */
  lemma NoncesFreshIff(ops: seq<Op>)
    ensures var uses := RunOps(Start(), ops).uses;
            (forall i, j :: 0 <= i < j < |uses| ==> uses[i] != uses[j]) <==> (forall e :: Count(uses, e) <= TWO_64)
  {
    hide RunOps, Count;
    var uses := RunOps(Start(), ops).uses;
    RunDisciplined(ops);
    if forall e :: Count(uses, e) <= TWO_64 {
      forall i, j | 0 <= i < j < |uses|
        ensures uses[i] != uses[j]
      {
        NoncesIncrease(ops, i, j);
      }
    } else {
      var e :| Count(uses, e) > TWO_64;
      var i := FindUse(uses, e, 0);
      var j := FindUse(uses, e, TWO_64);
      assert uses[i] == uses[j] == Use(e, 0);
    }
  }

  // Keys ---------------------------------------------------------------------

  /** The call a use stands for, given everything mixed into the keys. */
  function CallOf(ikms: seq<Bytes>, u: Use): Call
    requires 0 < u.epoch <= |ikms|
  {
    Call(CipherKey(ikms[..u.epoch]), TransportNonce(u.n))
  }

  ghost predicate CallsMatch(t: Trace) {
    && |t.calls| == |t.uses|
    && forall i :: 0 <= i < |t.uses| ==>
         0 < t.uses[i].epoch <= |t.ikms| && t.calls[i] == CallOf(t.ikms, t.uses[i])
  }

  /** The symmetric state holds the keys of its chain, and used no others. */
  ghost predicate Keyed(t: Trace) {
    && t.sym.ck == ChainKey(t.ikms) && (t.sym.hasKey <==> t.ikms != [])
    && (t.ikms != [] ==> t.sym.k == CipherKey(t.ikms))
    && CallsMatch(t)
  }

  lemma KeyKeyed(t: Trace, ikm: Bytes)
    requires Keyed(t)
    ensures Keyed(Apply(t, Key(ikm)))
  {
    hide Hkdf2, TransportNonce;
    var u := Apply(t, Key(ikm));
    assert u.ikms[..|t.ikms|] == t.ikms;
    assert forall e :: 0 <= e <= |t.ikms| ==> u.ikms[..e] == t.ikms[..e];
  }

  lemma UseKeyed(t: Trace, sym: Sym, plaintext: Bytes, ct: Bytes)
    requires Keyed(t) && sym.ck == t.sym.ck && sym.k == t.sym.k && sym.hasKey == t.sym.hasKey
    ensures Keyed(Used(t, sym, plaintext, ct))
  {
    hide ChainKey, CipherKey, TransportNonce;
    assert t.ikms[..|t.ikms|] == t.ikms;
  }

  lemma StepKeyed(t: Trace, op: Op)
    requires Keyed(t)
    ensures Keyed(Apply(t, op))
  {
    hide Keyed, Used, Hkdf2, TransportNonce;
    match op
    case Hash(data) => HashKeyed(t, data);
    case Key(ikm) => KeyKeyed(t, ikm);
    case Enc(plaintext) =>
      var (sym, out) := Encrypted(t.sym, plaintext);
      UseKeyed(t, sym, plaintext, out);
    case Dec(ct) =>
      if Decrypted(t.sym, ct).Ok? {
        UseKeyed(t, Decrypted(t.sym, ct).value.0, Decrypted(t.sym, ct).value.1, ct);
      }
  }

  lemma HashKeyed(t: Trace, data: Bytes)
    requires Keyed(t)
    ensures Keyed(Apply(t, Hash(data)))
  {
    hide ChainKey, CipherKey, CallOf;
  }

  lemma {:induction false} RunKeyed(ops: seq<Op>)
    ensures Keyed(RunOps(Start(), ops))
  {
    hide Apply;
    if ops != [] {
      hide Keyed;
      RunKeyed(ops[..|ops| - 1]);
      StepKeyed(RunOps(Start(), ops[..|ops| - 1]), ops[|ops| - 1]);
    }
  }

  lemma CallsApart(ikms: seq<Bytes>, u: Use, v: Use)
    requires 0 < u.epoch <= v.epoch <= |ikms| && NoCollision(KeyInputs(ikms))
    ensures CallOf(ikms, u) == CallOf(ikms, v) <==> u == v
  {
    hide CipherKey, TransportNonce, NoCollision, KeyInputs;
    if u.epoch < v.epoch {
      CipherKeysDistinct(ikms, u.epoch, v.epoch);
    }
    NonceInjective(u.n, v.n);
  }

  /** No key and nonce, as bytes, are ever handed to the AEAD twice exactly when no key
      is used more than 2^64 times, unless the hash collides in the key chain. */
  lemma CallsFreshIff(ops: seq<Op>)
    requires NoCollision(KeyInputs(RunOps(Start(), ops).ikms))
    ensures var t := RunOps(Start(), ops);
            (forall i, j :: 0 <= i < j < |t.calls| ==> t.calls[i] != t.calls[j]) <==>
            (forall e :: Count(t.uses, e) <= TWO_64)
  {
    hide RunOps, Count, CallOf, NoCollision, KeyInputs, ChainKey, CipherKey;
    var t := RunOps(Start(), ops);
    RunDisciplined(ops);
    RunKeyed(ops);
    NoncesFreshIff(ops);
    forall i, j | 0 <= i < j < |t.uses|
      ensures t.calls[i] == t.calls[j] <==> t.uses[i] == t.uses[j]
    {
      CallsApart(t.ikms, t.uses[i], t.uses[j]);
    }
  }

  // Transcript ---------------------------------------------------------------

  function FoldHash(h: Bytes, ds: seq<Bytes>): Bytes {
    if ds == [] then h else Blake2s256(FoldHash(h, ds[..|ds| - 1]) + ds[|ds| - 1])
  }

  /** Everything the chain of mixHash calls hashes. */
  ghost function ChainInputs(h: Bytes, ds: seq<Bytes>): set<Bytes> {
    set i | 0 <= i < |ds| :: FoldHash(h, ds[..i]) + ds[i]
  }

  lemma {:induction false} HashIsFold(ops: seq<Op>)
    ensures RunOps(Start(), ops).sym.h == FoldHash(START, RunOps(Start(), ops).hashed)
  {
    if ops != [] {
      var t, op := RunOps(Start(), ops[..|ops| - 1]), ops[|ops| - 1];
      HashIsFold(ops[..|ops| - 1]);
      StepFolds(t, op);
    }
  }

  lemma StepFolds(t: Trace, op: Op)
    ensures var u := Apply(t, op);
            || (u.hashed == t.hashed && u.sym.h == t.sym.h)
            || (|u.hashed| == |t.hashed| + 1 && u.hashed[..|t.hashed|] == t.hashed
                && u.sym.h == Blake2s256(t.sym.h + u.hashed[|t.hashed|]))
  {
    hide Hkdf2;
  }

  /** Recorded call i is the one that made its ciphertext: under that key and nonce, with
      everything hashed before as associated data, it seals that plaintext. */
  ghost predicate MadeBy(t: Trace, i: nat)
    requires i < |t.calls| && |t.texts| == |t.calls|
  {
    && t.texts[i].at < |t.hashed|
    && var ad := FoldHash(START, t.hashed[..t.texts[i].at]);
    && t.hashed[t.texts[i].at] == Seal(t.calls[i].key, t.calls[i].nonce, t.texts[i].plaintext, ad)
    && Open(t.calls[i].key, t.calls[i].nonce, t.hashed[t.texts[i].at], ad) == Some(t.texts[i].plaintext)
  }

  ghost predicate AllMade(t: Trace) {
    && |t.texts| == |t.calls|
    && (forall i :: 0 <= i < |t.calls| ==> MadeBy(t, i))
    && forall i, j :: 0 <= i < j < |t.texts| ==> t.texts[i].at < t.texts[j].at
  }

  /** What one operation records. */
  lemma StepRecords(t: Trace, op: Op)
    ensures var u := Apply(t, op);
            || (u.hashed == t.hashed && u.calls == t.calls && u.texts == t.texts)
            || (exists piece :: u.hashed == t.hashed + [piece] && u.calls == t.calls && u.texts == t.texts)
            || (exists piece, plaintext ::
                  && u.hashed == t.hashed + [piece]
                  && u.calls == t.calls + [Call(t.sym.k, TransportNonce(t.sym.n))]
                  && u.texts == t.texts + [Text(|t.hashed|, plaintext)]
                  && piece == Seal(t.sym.k, TransportNonce(t.sym.n), plaintext, t.sym.h))
  {
    hide TransportNonce, Hkdf2;
    match op
    case Hash(data) =>
      assert Apply(t, op).hashed == t.hashed + [data];
    case Key(ikm) =>
    case Enc(plaintext) =>
      assert Apply(t, op).hashed == t.hashed + [Encrypted(t.sym, plaintext).1];
    case Dec(ct) =>
      if Decrypted(t.sym, ct).Ok? {
        assert Apply(t, op).hashed == t.hashed + [ct];
        if t.sym.hasKey {
          OpenedWasSealed(t.sym.k, TransportNonce(t.sym.n), ct, t.sym.h);
        }
      }
  }

  lemma MadeStays(t: Trace, u: Trace, i: nat)
    requires i < |t.calls| && |t.texts| == |t.calls| && |u.texts| == |u.calls| && MadeBy(t, i)
    requires t.hashed <= u.hashed && t.calls <= u.calls && t.texts <= u.texts
    ensures MadeBy(u, i)
  {
    hide FoldHash;
    assert u.hashed[..t.texts[i].at] == t.hashed[..t.texts[i].at];
  }

  lemma StepMade(t: Trace, op: Op)
    requires AllMade(t) && t.sym.h == FoldHash(START, t.hashed)
    ensures AllMade(Apply(t, op))
  {
    hide FoldHash, TransportNonce, Apply, MadeBy;
    var u := Apply(t, op);
    StepRecords(t, op);
    forall i | 0 <= i < |t.calls|
      ensures MadeBy(u, i)
    {
      MadeStays(t, u, i);
    }
    assert forall i :: 0 <= i < |t.texts| ==> u.texts[i] == t.texts[i];
    BelowHashed(t);
    if |u.calls| > |t.calls| {
      LastMade(t, u);
    }
  }

  lemma BelowHashed(t: Trace)
    requires AllMade(t)
    ensures forall i :: 0 <= i < |t.texts| ==> t.texts[i].at < |t.hashed|
  {
    forall i | 0 <= i < |t.texts|
      ensures t.texts[i].at < |t.hashed|
    {
      assert MadeBy(t, i);
    }
  }

  lemma LastMade(t: Trace, u: Trace)
    requires t.sym.h == FoldHash(START, t.hashed) && |t.texts| == |t.calls|
    requires exists piece, plaintext ::
               && u.hashed == t.hashed + [piece]
               && u.calls == t.calls + [Call(t.sym.k, TransportNonce(t.sym.n))]
               && u.texts == t.texts + [Text(|t.hashed|, plaintext)]
               && piece == Seal(t.sym.k, TransportNonce(t.sym.n), plaintext, t.sym.h)
    ensures |u.texts| == |u.calls| == |t.calls| + 1 && MadeBy(u, |t.calls|)
  {
    hide FoldHash, TransportNonce;
    assert u.hashed[..|t.hashed|] == t.hashed;
  }

  lemma StartMade()
    ensures AllMade(Start())
  {
  }

  /** Over any run every recorded key, nonce and plaintext are those of the AEAD call that
      made the ciphertext hashed next, with the transcript so far as associated data. */
  lemma {:induction false} RunMade(ops: seq<Op>)
    ensures AllMade(RunOps(Start(), ops))
  {
    hide Apply, MadeBy, AllMade;
    StartMade();
    if ops != [] {
      var init := ops[..|ops| - 1];
      RunMade(init);
      HashIsFold(init);
      StepMade(RunOps(Start(), init), ops[|ops| - 1]);
    }
  }

  /** An operation records what it worked on: the caller's plaintext, or the one it returns. */
  lemma RecordsItsText(t: Trace, plaintext: Bytes)
    requires t.sym.hasKey
    ensures var u := Apply(t, Enc(plaintext));
            u.texts == t.texts + [Text(|t.hashed|, plaintext)] && u.hashed == t.hashed + [Encrypted(t.sym, plaintext).1]
    ensures var ct := Encrypted(t.sym, plaintext).1;
            Apply(t, Dec(ct)) == Apply(t, Enc(plaintext))
  {
  }

  /** Equal hashes at the end mean equal inputs all along, unless the hash collides
      on one of the inputs: h is always 32 bytes, so h || data splits one way. */
  lemma {:induction false} TranscriptBinds(h: Bytes32, ds: seq<Bytes>, es: seq<Bytes>)
    requires |ds| == |es| && FoldHash(h, ds) == FoldHash(h, es)
    requires NoCollision(ChainInputs(h, ds) + ChainInputs(h, es))
    ensures ds == es
  {
    hide FoldHash, ChainInputs;
    if ds != [] {
      var n := |ds| - 1;
      LastBinds(h, ds, es);
      InputsOfPrefix(h, ds, n);
      InputsOfPrefix(h, es, n);
      TranscriptBinds(h, ds[..n], es[..n]);
      assert ds == ds[..n] + [ds[n]] && es == es[..n] + [es[n]];
    }
  }

  /** Not even transcripts of different lengths share a hash, unless some input is a
      single byte and so as long as the protocol name. */
  lemma {:induction false} LengthBinds(ds: seq<Bytes>, es: seq<Bytes>)
    requires forall d :: d in ds + es ==> |d| != 1
    requires FoldHash(START, ds) == FoldHash(START, es)
    requires NoCollision({PROTOCOL_NAME} + ChainInputs(START, ds) + ChainInputs(START, es))
    ensures ds == es
  {
    hide FoldHash, ChainInputs, NoCollision;
    var ms := {PROTOCOL_NAME} + ChainInputs(START, ds) + ChainInputs(START, es);
    if ds != [] && es != [] {
      var m, n := |ds| - 1, |es| - 1;
      FewerInputs(ms, ChainInputs(START, ds) + ChainInputs(START, es));
      LastBinds(START, ds, es);
      InputsOfPrefix(START, ds, m);
      InputsOfPrefix(START, es, n);
      FewerInputs(ms, {PROTOCOL_NAME} + ChainInputs(START, ds[..m]) + ChainInputs(START, es[..n]));
      LengthBinds(ds[..m], es[..n]);
      assert ds == ds[..m] + [ds[m]] && es == es[..n] + [es[n]];
    } else if ds != [] {
      FewerInputs(ms, {PROTOCOL_NAME} + ChainInputs(START, ds));
      NotTheName(ds);
    } else if es != [] {
      FewerInputs(ms, {PROTOCOL_NAME} + ChainInputs(START, es));
      NotTheName(es);
    }
  }

  lemma NotTheName(ds: seq<Bytes>)
    requires ds != [] && |ds[|ds| - 1]| != 1 && NoCollision({PROTOCOL_NAME} + ChainInputs(START, ds))
    ensures FoldHash(START, ds) != FoldHash(START, [])
  {
    var n := |ds| - 1;
    var a := FoldHash(START, ds[..n]);
    FoldLength(START, ds[..n]);
    assert a + ds[n] in ChainInputs(START, ds);
    assert |a + ds[n]| != |PROTOCOL_NAME|;
  }

  lemma LastBinds(h: Bytes32, ds: seq<Bytes>, es: seq<Bytes>)
    requires ds != [] && es != [] && FoldHash(h, ds) == FoldHash(h, es)
    requires NoCollision(ChainInputs(h, ds) + ChainInputs(h, es))
    ensures ds[|ds| - 1] == es[|es| - 1]
    ensures FoldHash(h, ds[..|ds| - 1]) == FoldHash(h, es[..|es| - 1])
  {
    var m, n := |ds| - 1, |es| - 1;
    var a, b := FoldHash(h, ds[..m]), FoldHash(h, es[..n]);
    FoldLength(h, ds[..m]);
    FoldLength(h, es[..n]);
    assert a + ds[m] in ChainInputs(h, ds) && b + es[n] in ChainInputs(h, es);
    assert Blake2s256(a + ds[m]) == Blake2s256(b + es[n]);
    SplitsOneWay(a, ds[m], b, es[n]);
  }

  lemma SplitsOneWay(a: Bytes, x: Bytes, b: Bytes, y: Bytes)
    requires |a| == |b| && a + x == b + y
    ensures a == b && x == y
  {
    assert (a + x)[..|a|] == a && (b + y)[..|b|] == b;
    assert (a + x)[|a|..] == x && (b + y)[|b|..] == y;
  }

  lemma FoldLength(h: Bytes32, ds: seq<Bytes>)
    ensures |FoldHash(h, ds)| == 32
  {
  }

  lemma InputsOfPrefix(h: Bytes, ds: seq<Bytes>, n: nat)
    requires n <= |ds|
    ensures ChainInputs(h, ds[..n]) <= ChainInputs(h, ds)
  {
    hide FoldHash;
    assert forall i :: 0 <= i < n ==> ds[..n][..i] == ds[..i];
  }
}
