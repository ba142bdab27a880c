/**
 The chain of keys a run of mixKey calls derives: successive keys never repeat unless
 the hash collides on an input of the chain.
 */
module KeyChain {
  import opened Octets
  import opened Crypto
  import opened Symmetric

  const START: Bytes32 := Blake2s256(PROTOCOL_NAME)

  /** The chaining key after mixing in `ikms`, oldest first. */
  function ChainKey(ikms: seq<Bytes>): Bytes32 {
    if ikms == [] then START else Hkdf2(ChainKey(ikms[..|ikms| - 1]), ikms[|ikms| - 1]).0
  }

  /** The cipher key the last of `ikms` installed. */
  function CipherKey(ikms: seq<Bytes>): Bytes32
    requires ikms != []
  {
    Hkdf2(ChainKey(ikms[..|ikms| - 1]), ikms[|ikms| - 1]).1
  }

  /** The intermediate HKDF key the last of `ikms` went through. */
  function TempKey(ikms: seq<Bytes>): Bytes32
    requires ikms != []
  {
    Hmac(ChainKey(ikms[..|ikms| - 1]), ikms[|ikms| - 1])
  }

  /** What the outer hash of an HMAC hashes. */
  function Outer(key: Bytes, data: Bytes): Bytes {
    Pad(key, 0x5c) + Blake2s256(Pad(key, 0x36) + data)
  }

  ghost function StepInputs(ikms: seq<Bytes>): set<Bytes>
    requires ikms != []
  {
    var n := |ikms| - 1;
    {Outer(ChainKey(ikms[..n]), ikms[n]), Outer(TempKey(ikms), [1]), Outer(TempKey(ikms), ChainKey(ikms) + [2])}
  }

  /** Every outer hash input of the chain, and the protocol name it starts from. */
  ghost function KeyInputs(ikms: seq<Bytes>): set<Bytes> {
    if ikms == [] then {PROTOCOL_NAME} else KeyInputs(ikms[..|ikms| - 1]) + StepInputs(ikms)
  }

  lemma PadTellsKeys(a: Bytes32, b: Bytes32, x: byte)
    requires Pad(a, x) == Pad(b, x)
    ensures a == b
  {
    hide Xor;
    forall i | 0 <= i < 32
      ensures a[i] == b[i]
    {
      assert BlockKey(a)[i] == a[i] && BlockKey(b)[i] == b[i];
      assert Pad(a, x)[i] == Pad(b, x)[i];
      XorCancels(a[i], b[i], x);
    }
  }

  /** Equal HMACs come from equal keys, unless their outer hashes collide. */
  lemma HmacBindsKey(ms: set<Bytes>, a: Bytes32, d: Bytes, b: Bytes32, e: Bytes)
    requires Hmac(a, d) == Hmac(b, e) && NoCollision(ms) && Outer(a, d) in ms && Outer(b, e) in ms
    ensures a == b
  {
    hide Pad;
    assert Outer(a, d) == Outer(b, e);
    assert Outer(a, d)[..HMAC_BLOCK] == Pad(a, 0x5c) && Outer(b, e)[..HMAC_BLOCK] == Pad(b, 0x5c);
    PadTellsKeys(a, b, 0x5c);
  }

  /** The three outer inputs of the last step, and what they give. */
  lemma LastStep(xs: seq<Bytes>)
    requires xs != []
    ensures var n := |xs| - 1;
            && Outer(ChainKey(xs[..n]), xs[n]) in KeyInputs(xs)
            && Outer(TempKey(xs), [1]) in KeyInputs(xs)
            && Outer(TempKey(xs), ChainKey(xs) + [2]) in KeyInputs(xs)
            && KeyInputs(xs[..n]) <= KeyInputs(xs)
    ensures ChainKey(xs) == Hmac(TempKey(xs), [1]) && CipherKey(xs) == Hmac(TempKey(xs), ChainKey(xs) + [2])
  {
    hide Hmac, Outer;
  }

  /** Chains with the same intermediate key had the same chaining key before it. */
  lemma TempBinds(xs: seq<Bytes>, ys: seq<Bytes>)
    requires xs != [] && ys != [] && TempKey(xs) == TempKey(ys)
    requires NoCollision(KeyInputs(xs) + KeyInputs(ys))
    ensures ChainKey(xs[..|xs| - 1]) == ChainKey(ys[..|ys| - 1])
  {
    hide Hmac, Outer, ChainKey, KeyInputs, NoCollision;
    var m, n := |xs| - 1, |ys| - 1;
    LastStep(xs);
    LastStep(ys);
    HmacBindsKey(KeyInputs(xs) + KeyInputs(ys), ChainKey(xs[..m]), xs[m], ChainKey(ys[..n]), ys[n]);
  }

  lemma FewerInputs(ms: set<Bytes>, ns: set<Bytes>)
    requires NoCollision(ms) && ns <= ms
    ensures NoCollision(ns)
  {
  }

  /** A chaining key tells how many keys were mixed in before it. */
  lemma {:induction false} ChainKeyBinds(xs: seq<Bytes>, ys: seq<Bytes>)
    requires ChainKey(xs) == ChainKey(ys) && NoCollision(KeyInputs(xs) + KeyInputs(ys))
    ensures |xs| == |ys|
  {
    hide Hmac, Outer, ChainKey, TempKey, KeyInputs, NoCollision;
    var ms := KeyInputs(xs) + KeyInputs(ys);
    if xs != [] && ys != [] {
      var xs', ys' := xs[..|xs| - 1], ys[..|ys| - 1];
      LastStep(xs);
      LastStep(ys);
      HmacBindsKey(ms, TempKey(xs), [1], TempKey(ys), [1]);
      TempBinds(xs, ys);
      FewerInputs(ms, KeyInputs(xs') + KeyInputs(ys'));
      ChainKeyBinds(xs', ys');
    } else if xs != [] {
      FewerInputs(ms, KeyInputs(xs));
      NotTheStart(xs);
    } else if ys != [] {
      FewerInputs(ms, KeyInputs(ys));
      NotTheStart(ys);
    }
  }

  lemma NotTheStart(xs: seq<Bytes>)
    requires xs != [] && NoCollision(KeyInputs(xs))
    ensures ChainKey(xs) != ChainKey([])
  {
    hide Pad, TempKey, KeyInputs;
    NameIsInput(xs);
    LastStep(xs);
    assert ChainKey(xs) == Blake2s256(Outer(TempKey(xs), [1]));
    assert |Outer(TempKey(xs), [1])| != |PROTOCOL_NAME|;
  }

  lemma {:induction false} NameIsInput(xs: seq<Bytes>)
    ensures PROTOCOL_NAME in KeyInputs(xs)
  {
    if xs != [] {
      NameIsInput(xs[..|xs| - 1]);
    }
  }

  lemma {:induction false} InputsGrow(xs: seq<Bytes>, n: nat)
    requires n <= |xs|
    ensures KeyInputs(xs[..n]) <= KeyInputs(xs)
  {
    hide StepInputs;
    if n < |xs| {
      InputsGrow(xs[..|xs| - 1], n);
      assert xs[..|xs| - 1][..n] == xs[..n];
    } else {
      assert xs[..n] == xs;
    }
  }

  /** No cipher key of a run ever comes back. */
  lemma CipherKeysDistinct(ikms: seq<Bytes>, i: nat, j: nat)
    requires 0 < i < j <= |ikms| && NoCollision(KeyInputs(ikms))
    ensures CipherKey(ikms[..i]) != CipherKey(ikms[..j])
  {
    hide ChainKey, CipherKey, KeyInputs, NoCollision;
    var xs, ys := ikms[..i], ikms[..j];
    InputsGrow(ikms, i);
    InputsGrow(ikms, j);
    FewerInputs(KeyInputs(ikms), KeyInputs(xs) + KeyInputs(ys));
    if CipherKey(xs) == CipherKey(ys) {
      SameCipherKey(xs, ys);
      InputsGrow(xs, i - 1);
      InputsGrow(ys, j - 1);
      FewerInputs(KeyInputs(ikms), KeyInputs(xs[..i - 1]) + KeyInputs(ys[..j - 1]));
      ChainKeyBinds(xs[..i - 1], ys[..j - 1]);
    }
  }

  lemma SameCipherKey(xs: seq<Bytes>, ys: seq<Bytes>)
    requires xs != [] && ys != [] && CipherKey(xs) == CipherKey(ys)
    requires NoCollision(KeyInputs(xs) + KeyInputs(ys))
    ensures ChainKey(xs[..|xs| - 1]) == ChainKey(ys[..|ys| - 1])
  {
    hide Hmac, Outer, ChainKey, CipherKey, TempKey, KeyInputs, NoCollision;
    LastStep(xs);
    LastStep(ys);
    HmacBindsKey(KeyInputs(xs) + KeyInputs(ys), TempKey(xs), ChainKey(xs) + [2], TempKey(ys), ChainKey(ys) + [2]);
    TempBinds(xs, ys);
  }
}
