/**
 Handshake processing as operations on the symmetric state: each token list, on either
 side, is a definite sequence of them, and the list alone says which AEAD calls it makes
 and how it cuts the message into hashed pieces.
 */
module Operations {
  import opened Octets
  import opened Symmetric
  import opened Handshake
  import opened Discipline

  /** What writing a token does to the symmetric state. */
  function WriteOp(p: Party, t: Token, eph: Bytes32): Op
    requires WriteToken(p, t, eph).error.None?
  {
    match t
    case E => Hash(WriteToken(p, t, eph).bytes)
    case S => Enc(p.sPub)
    case _ => Key(SharedFor(p, t).value)
  }

  function ReadOp(p: Party, t: Token, msg: Bytes): Op
    requires ReadToken(p, t, msg).error.None?
  {
    match t
    case E => Hash(msg[..32])
    case S => Dec(msg[..StaticLength(p)])
    case _ => Key(SharedFor(p, t).value)
  }

  /** The operations of a whole message, up to the first failure. */
  function WriteOps(p: Party, ts: Tokens, eph: Bytes32, payload: Bytes): seq<Op>
    decreases ts
  {
    match ts
    case Payload => [Enc(payload)]
    case Then(t, rest) =>
      var a := WriteToken(p, t, eph);
      if a.error.Some? then [] else [WriteOp(p, t, eph)] + WriteOps(a.party, rest, eph, payload)
  }

  function ReadOps(p: Party, ts: Tokens, msg: Bytes): seq<Op>
    decreases ts
  {
    match ts
    case Payload => [Dec(msg)]
    case Then(t, rest) =>
      var a := ReadToken(p, t, msg);
      if a.error.None? then [ReadOp(p, t, msg)] + ReadOps(a.party, rest, a.bytes)
      else if t.S? && |msg| >= StaticLength(p) then [Dec(msg[..StaticLength(p)])]
      else []
  }

  // What a token list says about its operations --------------------------------

  /** The AEAD calls of a message, from the token list alone. */
  function UsesOf(ts: Tokens, epoch: nat, n: uint64, hasKey: bool): seq<Use>
    decreases ts
  {
    match ts
    case Payload => if hasKey then [Use(epoch, n)] else []
    case Then(t, rest) =>
      match t
      case E => UsesOf(rest, epoch, n, hasKey)
      case S =>
        if hasKey then [Use(epoch, n)] + UsesOf(rest, epoch, (n + 1) % TWO_64, hasKey) else UsesOf(rest, epoch, n, hasKey)
      case _ => UsesOf(rest, epoch + 1, 0, true)
  }

  /** The hashed pieces of a message, which make it up whole. */
  function Cut(ts: Tokens, hasKey: bool, msg: Bytes): seq<Bytes>
    decreases ts
  {
    match ts
    case Payload => [msg]
    case Then(t, rest) =>
      match t
      case E => if |msg| < 32 then [] else [msg[..32]] + Cut(rest, hasKey, msg[32..])
      case S =>
        var n := if hasKey then 48 else 32;
        if |msg| < n then [] else [msg[..n]] + Cut(rest, hasKey, msg[n..])
      case _ => Cut(rest, true, msg)
  }

  /** What the AEAD calls of a message work on and where their ciphertexts are hashed, from
      the token list, the texts it carries and the number of inputs hashed before. */
  function TextsOf(ts: Tokens, at: nat, hasKey: bool, plains: seq<Bytes>): seq<Text>
    decreases ts
  {
    match ts
    case Payload => if hasKey && plains != [] then [Text(at, plains[0])] else []
    case Then(t, rest) =>
      match t
      case E => TextsOf(rest, at + 1, hasKey, plains)
      case S =>
        if plains == [] then []
        else (if hasKey then [Text(at, plains[0])] else []) + TextsOf(rest, at + 1, hasKey, plains[1..])
      case _ => TextsOf(rest, at, true, plains)
  }

  /** The texts a written message carries: the static key at each s, then the payload. */
  function WrittenTexts(sPub: Bytes, ts: Tokens, payload: Bytes): seq<Bytes>
    decreases ts
  {
    match ts
    case Payload => [payload]
    case Then(t, rest) => (if t.S? then [sPub] else []) + WrittenTexts(sPub, rest, payload)
  }

  /** The texts recovered from a message: the peer's static key at each s, then the payload. */
  function RecoveredTexts(p: Party, ts: Tokens, msg: Bytes): seq<Bytes>
    decreases ts
  {
    match ts
    case Payload => [Read(p, Payload, msg).bytes]
    case Then(t, rest) =>
      var a := ReadToken(p, t, msg);
      (if t.S? then [a.party.rs] else []) + RecoveredTexts(a.party, rest, a.bytes)
  }

  function Rekeys(ts: Tokens): nat
    decreases ts
  {
    match ts
    case Payload => 0
    case Then(t, rest) => (if t.E? || t.S? then 0 else 1) + Rekeys(rest)
  }

  /** From trace `t`, message `msg` under `ts` made exactly the calls, cuts and rekeyings
      the list prescribes, on the texts `plains`. */
  ghost predicate AsPrescribed(ts: Tokens, t: Trace, msg: Bytes, plains: seq<Bytes>, u: Trace) {
    && u.uses == t.uses + UsesOf(ts, t.Epoch(), t.sym.n, t.sym.hasKey)
    && u.hashed == t.hashed + Cut(ts, t.sym.hasKey, msg)
    && u.Epoch() == t.Epoch() + Rekeys(ts)
    && u.texts == t.texts + TextsOf(ts, |t.hashed|, t.sym.hasKey, plains)
  }

  // Runs ---------------------------------------------------------------------

  lemma {:induction false} RunSplits(t: Trace, a: seq<Op>, b: seq<Op>)
    ensures RunOps(t, a + b) == RunOps(RunOps(t, a), b)
  {
    hide Apply;
    if b == [] {
      assert a + b == a;
    } else {
      var init := b[..|b| - 1];
      assert (a + b)[..|a + b| - 1] == a + init;
      RunSplits(t, a, init);
    }
  }

  lemma RunOne(t: Trace, op: Op, ops: seq<Op>)
    ensures RunOps(t, [op]) == Apply(t, op)
    ensures RunOps(t, [op] + ops) == RunOps(Apply(t, op), ops)
  {
    hide Apply;
    RunSplits(t, [op], ops);
    assert [op][..0] == [];
  }

  /** `mid` is `tr` after one token that put `piece` on the wire, for the text `plain` if
      it was s. */
  ghost predicate TokenDone(t: Token, tr: Trace, piece: Bytes, plain: Bytes, mid: Trace) {
    match t
    case E =>
      && |piece| == 32 && mid.sym.n == tr.sym.n && mid.sym.hasKey == tr.sym.hasKey
      && mid.ikms == tr.ikms && mid.uses == tr.uses && mid.texts == tr.texts && mid.hashed == tr.hashed + [piece]
    case S =>
      && |piece| == (if tr.sym.hasKey then 48 else 32) && mid.sym.hasKey == tr.sym.hasKey
      && mid.sym.n == (if tr.sym.hasKey then (tr.sym.n + 1) % TWO_64 else tr.sym.n)
      && mid.ikms == tr.ikms && mid.hashed == tr.hashed + [piece]
      && mid.uses == tr.uses + (if tr.sym.hasKey then [Use(tr.Epoch(), tr.sym.n)] else [])
      && mid.texts == tr.texts + (if tr.sym.hasKey then [Text(|tr.hashed|, plain)] else [])
    case _ =>
      && piece == [] && mid.sym.n == 0 && mid.sym.hasKey
      && mid.Epoch() == tr.Epoch() + 1 && mid.uses == tr.uses && mid.texts == tr.texts && mid.hashed == tr.hashed
  }

  /** One token in front of a message that went as prescribed. */
  lemma Prescribe(t: Token, rest: Tokens, tr: Trace, piece: Bytes, plain: Bytes, msg: Bytes, plains: seq<Bytes>,
                  mid: Trace, u: Trace)
    requires TokenDone(t, tr, piece, plain, mid) && AsPrescribed(rest, mid, msg, plains, u)
    ensures AsPrescribed(Then(t, rest), tr, piece + msg, (if t.S? then [plain] else []) + plains, u)
  {
    hide TextsOf;
    var whole, n := piece + msg, |piece|;
    PrescribeTexts(t, rest, tr, piece, plain, plains, mid, u);
    assert whole[..n] == piece && whole[n..] == msg;
    assert t.E? || t.S? || whole == msg;
  }

  lemma PrescribeTexts(t: Token, rest: Tokens, tr: Trace, piece: Bytes, plain: Bytes, plains: seq<Bytes>,
                       mid: Trace, u: Trace)
    requires TokenDone(t, tr, piece, plain, mid)
    requires u.texts == mid.texts + TextsOf(rest, |mid.hashed|, mid.sym.hasKey, plains)
    ensures u.texts == tr.texts + TextsOf(Then(t, rest), |tr.hashed|, tr.sym.hasKey, (if t.S? then [plain] else []) + plains)
  {
    hide TextsOf;
    assert [] + plains == plains;
    TextsStep(t, rest, |tr.hashed|, tr.sym.hasKey, plain, plains);
  }

  /** What one token adds to the texts of the rest. */
  lemma TextsStep(t: Token, rest: Tokens, at: nat, hasKey: bool, plain: Bytes, plains: seq<Bytes>)
    ensures TextsOf(Then(E, rest), at, hasKey, plains) == TextsOf(rest, at + 1, hasKey, plains)
    ensures TextsOf(Then(S, rest), at, hasKey, [plain] + plains) ==
            (if hasKey then [Text(at, plain)] else []) + TextsOf(rest, at + 1, hasKey, plains)
    ensures !t.E? && !t.S? ==> TextsOf(Then(t, rest), at, hasKey, plains) == TextsOf(rest, at, true, plains)
  {
    assert ([plain] + plains)[1..] == plains;
  }

  lemma WriteStep(p: Party, t: Token, eph: Bytes32, tr: Trace)
    requires tr.sym == p.sym
    ensures var a := WriteToken(p, t, eph);
            && (a.error.Some? ==> a.party.sym == p.sym)
            && (a.error.None? ==>
                  var mid := Apply(tr, WriteOp(p, t, eph));
                  mid.sym == a.party.sym && a.party.sPub == p.sPub && TokenDone(t, tr, a.bytes, p.sPub, mid))
  {
    hide Hkdf2, TransportNonce;
    assert tr.uses + [] == tr.uses && tr.texts + [] == tr.texts;
  }

  /** Writing any token list, finished or not, is running its operations; a finished
      message made just the calls and hashed just the pieces the list prescribes. */
  lemma {:induction false} WriteRuns(p: Party, ts: Tokens, eph: Bytes32, payload: Bytes, tr: Trace)
    requires tr.sym == p.sym
    ensures var w := Write(p, ts, eph, payload, []);
            var u := RunOps(tr, WriteOps(p, ts, eph, payload));
            u.sym == w.party.sym && (w.error.None? ==> AsPrescribed(ts, tr, w.bytes, WrittenTexts(p.sPub, ts, payload), u))
    decreases ts
  {
    match ts
    case Payload =>
      hide TransportNonce, MixedHash;
      RunOne(tr, Enc(payload), []);
      assert [] + Encrypted(p.sym, payload).1 == Encrypted(p.sym, payload).1;
    case Then(t, rest) =>
      hide WriteToken, WriteOp, AsPrescribed, TokenDone, Apply;
      var a := WriteToken(p, t, eph);
      WriteStep(p, t, eph, tr);
      if a.error.None? {
        var op, ops := WriteOp(p, t, eph), WriteOps(a.party, rest, eph, payload);
        var mid, tail := Apply(tr, op), Write(a.party, rest, eph, payload, []);
        RunOne(tr, op, ops);
        WriteRuns(a.party, rest, eph, payload, mid);
        WriteShifts(a.party, rest, eph, payload, a.bytes);
        assert [] + a.bytes == a.bytes;
        if tail.error.None? {
          Prescribe(t, rest, tr, a.bytes, p.sPub, tail.bytes, WrittenTexts(p.sPub, rest, payload), mid, RunOps(mid, ops));
        }
      }
  }

  lemma ReadStep(p: Party, t: Token, msg: Bytes, tr: Trace)
    requires tr.sym == p.sym
    ensures var a := ReadToken(p, t, msg);
            && (a.error.Some? ==> a.party.sym == p.sym)
            && (a.error.Some? && t.S? && |msg| >= StaticLength(p) ==> Apply(tr, Dec(msg[..StaticLength(p)])) == tr)
            && (a.error.None? ==>
                  && Apply(tr, ReadOp(p, t, msg)).sym == a.party.sym && |a.bytes| <= |msg|
                  && TokenDone(t, tr, msg[..|msg| - |a.bytes|], a.party.rs, Apply(tr, ReadOp(p, t, msg)))
                  && msg == msg[..|msg| - |a.bytes|] + a.bytes)
  {
    hide Hkdf2, TransportNonce;
    assert tr.uses + [] == tr.uses && tr.texts + [] == tr.texts;
    assert forall n :: 0 <= n <= |msg| ==> msg[..n] + msg[n..] == msg;
  }

  /** Reading any token list, finished or not, likewise; a failed open is an operation
      that changes nothing. */
  lemma {:induction false} ReadRuns(p: Party, ts: Tokens, msg: Bytes, tr: Trace)
    requires tr.sym == p.sym
    ensures var r := Read(p, ts, msg);
            var u := RunOps(tr, ReadOps(p, ts, msg));
            u.sym == r.party.sym && (r.error.None? ==> AsPrescribed(ts, tr, msg, RecoveredTexts(p, ts, msg), u))
    decreases ts
  {
    match ts
    case Payload =>
      hide TransportNonce, MixedHash;
      RunOne(tr, Dec(msg), []);
    case Then(t, rest) =>
      hide ReadToken, ReadOp, AsPrescribed, TokenDone, Apply;
      var a := ReadToken(p, t, msg);
      ReadStep(p, t, msg, tr);
      if a.error.None? {
        var op, ops := ReadOp(p, t, msg), ReadOps(a.party, rest, a.bytes);
        var mid := Apply(tr, op);
        RunOne(tr, op, ops);
        ReadRuns(a.party, rest, a.bytes, mid);
        if Read(a.party, rest, a.bytes).error.None? {
          Prescribe(t, rest, tr, msg[..|msg| - |a.bytes|], a.party.rs, a.bytes, RecoveredTexts(a.party, rest, a.bytes),
                    mid, RunOps(mid, ops));
        }
      } else if t.S? && |msg| >= StaticLength(p) {
        RunOne(tr, Dec(msg[..StaticLength(p)]), []);
      }
  }

  // Secrets ------------------------------------------------------------------

  lemma {:induction false} IkmsJoin(a: seq<Op>, b: seq<Op>)
    ensures Ikms(a + b) == Ikms(a) + Ikms(b)
  {
    if b == [] {
      assert a + b == a;
    } else {
      var init := b[..|b| - 1];
      assert (a + b)[..|a + b| - 1] == a + init;
      IkmsJoin(a, init);
    }
  }

  lemma IkmsOne(op: Op, ops: seq<Op>)
    ensures Ikms([op] + ops) == (if op.Key? then [op.ikm] else []) + Ikms(ops)
  {
    IkmsJoin([op], ops);
    assert [op][..0] == [];
  }
}
