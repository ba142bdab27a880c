/**
 Certificates: parsing with the ascending CA-key list, the flat lists inside, and
 minting.
 */
module Certs {
  import opened Octets
  import opened Results
  import opened Crypto
  import opened Layout
  import opened Cursors

  const LEN_SCOPE_ID := 8
  const MAX_NAME := 64
  const MAX_SCOPE: byte := 8
  const LEN_CA_SIG := 64

  datatype Cert = Cert(
    version: byte, roleBits: byte, sigPubkey: Bytes, kexPubkey: Bytes, notBefore: uint64, notAfter: uint64,
    name: Bytes, scopeCount: byte, scopeIDs: Bytes, caSigCount: byte, caSigs: Bytes, tbs: Bytes)

  datatype CAPair = CAPair(key: Bytes, sig: Bytes)

  // Layout -------------------------------------------------------------------

  function IdentityLayout(next: Fields): Fields {
    Then(Num(1), Then(Num(1), Then(Raw(32), Then(Raw(32), next))))
  }

  function ValidityLayout(next: Fields): Fields {
    Then(Num(8), Then(Num(8), Then(Counted(2, MAX_NAME, 1), Then(Counted(1, MAX_SCOPE, LEN_SCOPE_ID), next))))
  }

  function CertTbsLayout(next: Fields): Fields {
    IdentityLayout(ValidityLayout(next))
  }

  function CertLayout(): Fields {
    CertTbsLayout(Then(CaPairs, End))
  }

  function CertValues(x: Cert, next: Values): Values {
    Cons(Value(x.version, []), Cons(Value(x.roleBits, []), Cons(Value(0, x.sigPubkey), Cons(Value(0, x.kexPubkey),
    Cons(Value(x.notBefore, []), Cons(Value(x.notAfter, []), Cons(Value(|x.name|, x.name),
    Cons(Value(x.scopeCount, x.scopeIDs), next))))))))
  }

  function CertTbs(x: Cert): Bytes {
    EncodeAll(CertTbsLayout(End), CertValues(x, Nil))
  }

  /** `x` is what the parser makes of `s`. */
  ghost predicate CertIn(x: Cert, s: Bytes) {
    && ReadAll(CertLayout(), s) == Ok(Parsed(CertValues(x, Cons(Value(x.caSigCount, x.caSigs), Nil)), []))
    && 1 + |x.caSigs| <= |s| && x.tbs == s[..|s| - 1 - |x.caSigs|]
  }

  // Parsing ------------------------------------------------------------------

  method ReadIdentity(c: Cursor, ghost next: Fields) returns (r: Result<(byte, byte, Bytes, Bytes)>)
    requires OnCourse(c.plan, c.buf, c.pos) && c.plan.Reading? && c.plan.todo == IdentityLayout(next)
    modifies c
    ensures OnCourse(c.plan, c.buf, c.pos) && old(c.pos) <= c.pos <= |c.buf|
    ensures r.Ok? ==> c.plan.Reading? && c.plan.todo == next
    ensures r.Ok? ==> old(c.plan).outcome ==
                      Prepend(Value(r.value.0, []), Prepend(Value(r.value.1, []),
                      Prepend(Value(0, r.value.2), Prepend(Value(0, r.value.3), c.plan.outcome))))
    ensures r.Err? ==> old(c.plan).outcome == Err(r.error)
  {
    hide Run, Read, OnCourse, Yields, Fails;
    var version :- c.U8();
    var roleBits :- c.U8();
    var sigPub :- c.Take(32);
    var kexPub :- c.Take(32);
    return Ok((version, roleBits, sigPub, kexPub));
  }

  method ReadValidity(c: Cursor, ghost next: Fields) returns (r: Result<(uint64, uint64, Bytes, byte, Bytes)>)
    requires OnCourse(c.plan, c.buf, c.pos) && c.plan.Reading? && c.plan.todo == ValidityLayout(next)
    modifies c
    ensures OnCourse(c.plan, c.buf, c.pos) && old(c.pos) <= c.pos <= |c.buf|
    ensures r.Ok? ==> c.plan.Reading? && c.plan.todo == next
    ensures r.Ok? ==> old(c.plan).outcome ==
                      Prepend(Value(r.value.0, []), Prepend(Value(r.value.1, []),
                      Prepend(Value(|r.value.2|, r.value.2), Prepend(Value(r.value.3, r.value.4), c.plan.outcome))))
    ensures r.Err? ==> old(c.plan).outcome == Err(r.error)
  {
    hide Run, Read, OnCourse, Yields, Fails;
    var notBefore :- c.U64be();
    var notAfter :- c.U64be();
    var name :- c.Field16(MAX_NAME);
    var scopes :- c.Items(MAX_SCOPE, LEN_SCOPE_ID);
    return Ok((notBefore, notAfter, name, scopes.0, scopes.1));
  }

  /** Walks `n` CA pairs: keys must come strictly ascending, so no key can sign twice. */
  method WalkCaPairs(c: Cursor, n: byte) returns (r: Result<()>)
    requires OnCourse(c.plan, c.buf, c.pos) && c.pos <= |c.buf|
    modifies c
    ensures OnCourse(c.plan, c.buf, c.pos) && old(c.pos) <= c.pos <= |c.buf|
    ensures r == ScanPairs(c.buf[old(c.pos)..], 0, n)
    ensures r.Ok? ==> c.pos == old(c.pos) + LEN_PAIR * n
  {
    hide OnCourse, Less;
    var caStart := c.pos;
    ghost var s := c.buf[caStart..];
    var prev: Bytes := [];
    for i := 0 to n
      invariant OnCourse(c.plan, c.buf, c.pos)
      invariant c.pos == caStart + LEN_PAIR * i <= |c.buf|
      invariant Ascending(s, i) && ScanPairs(s, 0, n) == ScanPairs(s, i, n)
      invariant i > 0 ==> prev == KeyAt(s, i - 1)
    {
      var key :- TakeFrom(c, caStart, LEN_CA_KEY);
      if i > 0 && !Less(prev, key) {
        return Err(Malformed);
      }
      prev := key;
      var _ :- TakeFrom(c, caStart, LEN_CA_SIG);
    }
    return Ok(());
  }

  method ReadCaPairs(c: Cursor) returns (r: Result<(byte, Bytes)>)
    requires OnCourse(c.plan, c.buf, c.pos)
    modifies c
    ensures OnCourse(c.plan, c.buf, c.pos) && old(c.pos) <= c.pos <= |c.buf|
    ensures r.Ok? ==> Yields(CaPairs, c.buf, old(c.pos), Value(r.value.0, r.value.1), c.pos)
    ensures r.Ok? ==> |r.value.1| == LEN_PAIR * r.value.0 && c.pos == old(c.pos) + 1 + |r.value.1|
    ensures r.Ok? ==> Continues(old(c.plan), CaPairs, Value(r.value.0, r.value.1), c.plan)
    ensures r.Err? ==> Fails(CaPairs, c.buf, old(c.pos), r.error)
    ensures r.Err? ==> Refuted(old(c.plan), CaPairs, r.error)
  {
    hide Run, OnCourse, Continues, Refuted, FromBE, ScanPairs, Ascending;
    Stop(c.plan, CaPairs, c.buf, c.pos);
    ghost var before := c.plan;
    var caCount :- c.U8();
    if caCount == 0 || caCount > MAX_CA_SIGS {
      return Err(Malformed);
    }
    var caStart := c.pos;
    var _ :- WalkCaPairs(c, caCount);
    var caSigs := c.buf[caStart..c.pos];
    assert caSigs == c.buf[caStart..][..LEN_PAIR * caCount];
    assert c.buf[c.pos..] == c.buf[caStart..][LEN_PAIR * caCount..];
    Advance(before, CaPairs, c.buf, old(c.pos), Value(caCount, caSigs), c.pos);
    c.plan := Next(before, CaPairs, c.buf[c.pos..]);
    return Ok((caCount, caSigs));
  }

  method TakeFrom(c: Cursor, start: nat, n: nat) returns (r: Result<Bytes>)
    requires OnCourse(c.plan, c.buf, c.pos) && start <= c.pos <= |c.buf|
    modifies c
    ensures OnCourse(c.plan, c.buf, c.pos)
    ensures r.Ok? ==> c.pos == old(c.pos) + n <= |c.buf| && r.value == c.buf[start..][old(c.pos) - start..c.pos - start]
    ensures r.Err? ==> r.error == Truncated && c.pos == old(c.pos) && |c.buf| - c.pos < n
  {
    hide OnCourse;
    r := c.Take(n);
    if r.Ok? {
      assert r.value == c.buf[old(c.pos)..c.pos];
      SliceOfSlice(c.buf, start, |c.buf|, old(c.pos) - start, c.pos - start);
      assert c.buf[start..|c.buf|] == c.buf[start..];
    }
  }

  method ParseCert(buf: Bytes) returns (r: Result<Cert>)
    ensures r.Ok? ==> CertIn(r.value, buf) && Decode(CertLayout(), buf).Ok?
    ensures r.Err? ==> Decode(CertLayout(), buf) == Err(r.error)
  {
    hide Run, Read, ReadAll, OnCourse, Yields, Fails, IdentityLayout, ValidityLayout;
    var c := new Cursor(buf);
    assert buf[0..] == buf;
    c.Begin(CertLayout());
    var d :- ReadIdentity(c, ValidityLayout(Then(CaPairs, End)));
    var v :- ReadValidity(c, Then(CaPairs, End));
    var tbs := buf[..c.pos];
    var ca :- ReadCaPairs(c);
    c.Finished();
    if c.pos != |buf| {
      return Err(TrailingBytes);
    }
    return Ok(Cert(d.0, d.1, d.2, d.3, v.0, v.1, v.2, v.3, v.4, ca.0, ca.1, tbs));
  }

  // The flat lists -----------------------------------------------------------

  function PairAt(pairs: Bytes, i: nat): CAPair
    requires LEN_PAIR * (i + 1) <= |pairs|
  {
    CAPair(KeyAt(pairs, i), pairs[LEN_PAIR * i + LEN_CA_KEY..LEN_PAIR * (i + 1)])
  }

  function PairsOf(flat: Bytes, n: nat): (ps: seq<CAPair>)
    requires LEN_PAIR * n <= |flat|
    ensures |ps| == n && forall i :: 0 <= i < n ==> ps[i] == PairAt(flat, i)
  {
    seq(n, i requires 0 <= i < n => PairAt(flat, i))
  }

  // The lists hold at least as many entries as their counts say. Parsed certificates
  // hold exactly as many; with fewer the Go code slices out of range.
  predicate PairsHeld(x: Cert) {
    LEN_PAIR * x.caSigCount <= |x.caSigs|
  }

  predicate ScopesHeld(x: Cert) {
    x.scopeCount * LEN_SCOPE_ID <= |x.scopeIDs|
  }

  method CAPairs(x: Cert) returns (pairs: seq<CAPair>)
    requires PairsHeld(x)
    ensures pairs == PairsOf(x.caSigs, x.caSigCount)
  {
    pairs := [];
    for i := 0 to x.caSigCount
      invariant |pairs| == i && forall j :: 0 <= j < i ==> pairs[j] == PairAt(x.caSigs, j)
    {
      var off := i * LEN_PAIR;
      pairs := pairs + [CAPair(x.caSigs[off..off + LEN_CA_KEY], x.caSigs[off + LEN_CA_KEY..off + LEN_PAIR])];
    }
  }

  method InSet(key: Bytes, keys: seq<Bytes>) returns (found: bool)
    ensures found <==> key in keys
  {
    for i := 0 to |keys|
      invariant key !in keys[..i]
    {
      if keys[i] == key {
        return true;
      }
      assert keys[..i + 1] == keys[..i] + [keys[i]];
    }
    assert keys[..|keys|] == keys;
    return false;
  }

  /** One CA signature: over (DOMAIN_CERT || TBS), by the pair's own key. */
  function VerifyPair(tbs: Bytes, p: CAPair): Result<()> {
    VerifySigned(DOMAIN_CERT, tbs, p.sig, p.key)
  }

  /** The verdict on pairs i..: that of the first pair that does not verify or whose
      key is not in the trusted set, when one is given. */
  function PairsVerdict(x: Cert, i: nat, trusted: Option<seq<Bytes>>): (r: Result<()>)
    requires PairsHeld(x) && i <= x.caSigCount
    ensures r.Ok? <==> forall j :: i <= j < x.caSigCount ==>
              && VerifyPair(x.tbs, PairAt(x.caSigs, j)).Ok?
              && (trusted.Some? ==> PairAt(x.caSigs, j).key in trusted.value)
    decreases x.caSigCount - i
  {
    if i == x.caSigCount then Ok(())
    else
      var _ :- VerifyPair(x.tbs, PairAt(x.caSigs, i));
      if trusted.Some? && PairAt(x.caSigs, i).key !in trusted.value then Err(BadSignature)
      else PairsVerdict(x, i + 1, trusted)
  }

  /** A refusal is that of the first pair that fails: its own signature error, or a bad
      signature when its key is not trusted. */
  lemma {:induction false} PairsVerdictError(x: Cert, i: nat, trusted: Option<seq<Bytes>>) returns (j: nat)
    requires PairsHeld(x) && i <= x.caSigCount && PairsVerdict(x, i, trusted).Err?
    ensures i <= j < x.caSigCount
    ensures forall k :: i <= k < j ==>
              && VerifyPair(x.tbs, PairAt(x.caSigs, k)).Ok?
              && (trusted.Some? ==> PairAt(x.caSigs, k).key in trusted.value)
    ensures var p := PairAt(x.caSigs, j);
            if VerifyPair(x.tbs, p).Err? then PairsVerdict(x, i, trusted) == VerifyPair(x.tbs, p)
            else trusted.Some? && p.key !in trusted.value && PairsVerdict(x, i, trusted) == Err(BadSignature)
    decreases x.caSigCount - i
  {
    hide VerifyPair, PairAt;
    j := i;
    if VerifyPair(x.tbs, PairAt(x.caSigs, i)).Ok? && (trusted.None? || PairAt(x.caSigs, i).key in trusted.value) {
      j := PairsVerdictError(x, i + 1, trusted);
    }
  }

  method VerifyCASignatures(x: Cert, trusted: Option<seq<Bytes>>) returns (r: Result<()>)
    requires PairsHeld(x)
    ensures r == PairsVerdict(x, 0, trusted)
  {
    hide VerifySigned;
    var pairs := CAPairs(x);
    for i := 0 to |pairs|
      invariant PairsVerdict(x, 0, trusted) == PairsVerdict(x, i, trusted)
    {
      var verdict := VerifyPair(x.tbs, pairs[i]);
      if verdict.Err? {
        return verdict;
      }
      if trusted.Some? {
        var known := InSet(pairs[i].key, trusted.value);
        if !known {
          return Err(BadSignature);
        }
      }
    }
    return Ok(());
  }

  // Minting ------------------------------------------------------------------

  datatype CertFields = CertFields(
    version: byte, roleBits: byte, sigPubkey: Bytes32, kexPubkey: Bytes32, notBefore: uint64, notAfter: uint64,
    name: Bytes, scopeIDs: seq<Bytes8>)

  function Flatten8(ids: seq<Bytes8>): (b: Bytes)
    ensures |b| == |ids| * LEN_SCOPE_ID
  {
    if ids == [] then [] else Flatten8(ids[..|ids| - 1]) + ids[|ids| - 1]
  }

  /** The certificate minted from `f` and `pairs`. */
  function Minted(f: CertFields, pairs: seq<CAPair>): Cert
    requires |f.scopeIDs| <= 8 && |pairs| <= 4
  {
    var x := Cert(f.version, f.roleBits, f.sigPubkey, f.kexPubkey, f.notBefore, f.notAfter,
                  f.name, |f.scopeIDs|, Flatten8(f.scopeIDs), |pairs|, FlattenPairs(pairs), []);
    x.(tbs := CertTbs(x))
  }

  method EncodeCertTBS(f: CertFields) returns (r: Result<Bytes>)
    ensures |f.name| > MAX_NAME || |f.scopeIDs| > 8 ==> r == Err(FieldBounds)
    ensures |f.name| <= MAX_NAME && |f.scopeIDs| <= 8 ==> r == Ok(Minted(f, []).tbs)
  {
    if |f.name| > MAX_NAME || |f.scopeIDs| > MAX_SCOPE {
      return Err(FieldBounds);
    }
    var out := [] + [f.version];
    out := out + [f.roleBits];
    out := out + f.sigPubkey;
    out := out + f.kexPubkey;
    out := out + BE(8, f.notBefore);
    out := out + BE(8, f.notAfter);
    Associative(out, BE(2, |f.name|), f.name);
    out := out + BE(2, |f.name|);
    out := out + f.name;
    Associative(out, [|f.scopeIDs|], Flatten8(f.scopeIDs));
    out := AppendScopes(out + [|f.scopeIDs|], f.scopeIDs);
    MintedTbsBytes(f);
    return Ok(out);
  }

  method AppendScopes(start: Bytes, ids: seq<Bytes8>) returns (out: Bytes)
    ensures out == start + Flatten8(ids)
  {
    out := start;
    for i := 0 to |ids|
      invariant out == start + Flatten8(ids[..i])
    {
      assert ids[..i + 1][..i] == ids[..i];
      Associative(start, Flatten8(ids[..i]), ids[i]);
      out := out + ids[i];
    }
    assert ids[..|ids|] == ids;
  }

  /** The TBS byte for byte. */
  lemma CertBytes(x: Cert)
    ensures CertTbs(x) ==
            [x.version] + [x.roleBits] + x.sigPubkey + x.kexPubkey + BE(8, x.notBefore) + BE(8, x.notAfter)
            + (BE(2, |x.name|) + x.name) + ([x.scopeCount] + x.scopeIDs)
  {
    hide BE, EncodeAll;
    assert [] + [x.version] == [x.version];
    OneByte(x.version);
    OneByte(x.roleBits);
    OneByte(x.scopeCount);
    Appended(CertTbsLayout(End), CertValues(x, Nil));
  }

  lemma MintedTbsBytes(f: CertFields)
    requires |f.name| <= MAX_NAME && |f.scopeIDs| <= 8
    ensures Minted(f, []).tbs ==
            [] + [f.version] + [f.roleBits] + f.sigPubkey + f.kexPubkey + BE(8, f.notBefore) + BE(8, f.notAfter)
            + (BE(2, |f.name|) + f.name) + ([|f.scopeIDs|] + Flatten8(f.scopeIDs))
  {
    hide BE, CertTbs, Flatten8;
    CertBytes(Minted(f, []));
    assert [] + [f.version] == [f.version];
    TbsIgnoresPairs(Minted(f, []), Minted(f, []).(tbs := []));
  }

  function FlattenPairs(pairs: seq<CAPair>): Bytes {
    if pairs == [] then []
    else FlattenPairs(pairs[..|pairs| - 1]) + (pairs[|pairs| - 1].key + pairs[|pairs| - 1].sig)
  }

  predicate PairSized(p: CAPair) {
    |p.key| == LEN_CA_KEY && |p.sig| == LEN_CA_SIG
  }

  /** The first thing wrong with pairs i.., as the minting loop meets it. */
  function Fault(pairs: seq<CAPair>, i: nat): (e: Option<Error>)
    requires i <= |pairs|
    ensures e.None? <==> forall j :: i <= j < |pairs| ==>
              PairSized(pairs[j]) && (j > 0 ==> Less(pairs[j - 1].key, pairs[j].key))
    decreases |pairs| - i
  {
    if i == |pairs| then None
    else if !PairSized(pairs[i]) then Some(FieldBounds)
    else if i > 0 && !Less(pairs[i - 1].key, pairs[i].key) then Some(Malformed)
    else Fault(pairs, i + 1)
  }

  /** The first faulty pair decides: a bad size is out of bounds, a bad order malformed. */
  lemma {:induction false} FaultIsFirst(pairs: seq<CAPair>, i: nat) returns (j: nat)
    requires i <= |pairs| && Fault(pairs, i).Some?
    ensures i <= j < |pairs|
    ensures forall k :: i <= k < j ==> PairSized(pairs[k]) && (k > 0 ==> Less(pairs[k - 1].key, pairs[k].key))
    ensures if !PairSized(pairs[j]) then Fault(pairs, i) == Some(FieldBounds)
            else j > 0 && !Less(pairs[j - 1].key, pairs[j].key) && Fault(pairs, i) == Some(Malformed)
    decreases |pairs| - i
  {
    hide Less;
    j := i;
    if PairSized(pairs[i]) && (i > 0 ==> Less(pairs[i - 1].key, pairs[i].key)) {
      j := FaultIsFirst(pairs, i + 1);
    }
  }

  method AppendCertSignatures(tbs: Bytes, pairs: seq<CAPair>) returns (r: Result<Bytes>)
    ensures |pairs| == 0 || |pairs| > MAX_CA_SIGS ==> r == Err(FieldBounds)
    ensures 1 <= |pairs| <= MAX_CA_SIGS ==>
              r == match Fault(pairs, 0)
                   case Some(e) => Err(e)
                   case None => Ok(tbs + ([|pairs|] + FlattenPairs(pairs)))
  {
    if |pairs| == 0 || |pairs| > MAX_CA_SIGS {
      return Err(FieldBounds);
    }
    var start := tbs + [|pairs|];
    var out := start;
    for i := 0 to |pairs|
      invariant out == start + FlattenPairs(pairs[..i])
      invariant Fault(pairs, 0) == Fault(pairs, i)
    {
      if |pairs[i].key| != LEN_CA_KEY || |pairs[i].sig| != LEN_CA_SIG {
        return Err(FieldBounds);
      }
      if i > 0 && !Less(pairs[i - 1].key, pairs[i].key) {
        return Err(Malformed);
      }
      ghost var done := FlattenPairs(pairs[..i]);
      assert pairs[..i + 1][..i] == pairs[..i];
      Associative(start, done, pairs[i].key + pairs[i].sig);
      Associative(out, pairs[i].key, pairs[i].sig);
      out := out + pairs[i].key;
      out := out + pairs[i].sig;
    }
    assert pairs[..|pairs|] == pairs;
    Associative(tbs, [|pairs|], FlattenPairs(pairs));
    return Ok(out);
  }

  // Laws ---------------------------------------------------------------------

  predicate CertInBounds(x: Cert) {
    && |x.sigPubkey| == 32 && |x.kexPubkey| == 32 && |x.name| <= MAX_NAME
    && x.scopeCount <= MAX_SCOPE && 1 <= x.caSigCount <= MAX_CA_SIGS
    && |x.scopeIDs| == x.scopeCount * LEN_SCOPE_ID && |x.caSigs| == LEN_PAIR * x.caSigCount
    && Ascending(x.caSigs, x.caSigCount)
  }

  lemma CertFits(x: Cert)
    ensures FitsAll(CertLayout(), CertValues(x, Cons(Value(x.caSigCount, x.caSigs), Nil))) <==> CertInBounds(x)
  {
    hide Ascending;
    Widths();
  }

  lemma CertWhole(x: Cert)
    ensures EncodeAll(CertLayout(), CertValues(x, Cons(Value(x.caSigCount, x.caSigs), Nil))) ==
            CertTbs(x) + ([x.caSigCount] + x.caSigs)
  {
    hide EncodeAll, BE;
    OneByte(x.caSigCount);
    Appended(CertLayout(), CertValues(x, Cons(Value(x.caSigCount, x.caSigs), Nil)));
    Appended(CertTbsLayout(End), CertValues(x, Nil));
  }

  /** Parser and encoder are inverse on certificates, ordered CA pairs included. */
  lemma CertInIff(x: Cert, s: Bytes)
    ensures CertIn(x, s) <==> CertInBounds(x) && x.tbs == CertTbs(x) && s == x.tbs + ([x.caSigCount] + x.caSigs)
  {
    hide ReadAll, CertLayout, CertValues, CertTbs, FitsAll, EncodeAll, CertInBounds;
    var vs := CertValues(x, Cons(Value(x.caSigCount, x.caSigs), Nil));
    ReadAllIff(CertLayout(), vs, s, []);
    assert EncodeAll(CertLayout(), vs) + [] == EncodeAll(CertLayout(), vs);
    CertFits(x);
    CertWhole(x);
  }

  lemma CertInUnique(x: Cert, y: Cert, s: Bytes)
    requires CertIn(x, s) && CertIn(y, s)
    ensures x == y
  {
    hide ReadAll, CertLayout;
  }

  /** Every certificate the parser accepts is 182 to 598 bytes long. */
  lemma CertLength(x: Cert, s: Bytes)
    requires CertIn(x, s)
    ensures 182 <= |s| <= 598
  {
    hide CertIn, Ascending;
    CertInIff(x, s);
    CertTbsLength(x);
  }

  lemma CertTbsLength(x: Cert)
    requires CertInBounds(x)
    ensures |CertTbs(x)| == 85 + |x.name| + |x.scopeIDs|
  {
    hide Ascending;
  }

  lemma {:induction false} FlattenedAt(pairs: seq<CAPair>, i: nat)
    requires forall p :: p in pairs ==> PairSized(p)
    ensures |FlattenPairs(pairs)| == LEN_PAIR * |pairs|
    ensures i < |pairs| ==> PairAt(FlattenPairs(pairs), i) == pairs[i]
  {
    if pairs != [] {
      var n := |pairs| - 1;
      var init, last := pairs[..n], pairs[n];
      assert last in pairs;
      FlattenedAt(init, i);
      var a, b := FlattenPairs(init), last.key + last.sig;
      if i < n {
        assert PairAt(a + b, i) == PairAt(a, i);
      } else if i == n {
        assert (a + b)[LEN_PAIR * n..LEN_PAIR * n + LEN_CA_KEY] == b[..LEN_CA_KEY] == last.key;
        assert (a + b)[LEN_PAIR * n + LEN_CA_KEY..LEN_PAIR * (n + 1)] == b[LEN_CA_KEY..] == last.sig;
      }
    }
  }

  lemma {:induction false} FlattenPairsOf(flat: Bytes, n: nat)
    requires |flat| == LEN_PAIR * n
    ensures FlattenPairs(PairsOf(flat, n)) == flat
  {
    if n > 0 {
      hide PairAt;
      var k := LEN_PAIR * (n - 1);
      FlattenPairsOf(flat[..k], n - 1);
      PairsOfPrefix(flat, n - 1);
      assert PairsOf(flat, n)[..n - 1] == PairsOf(flat[..k], n - 1);
      assert PairAt(flat, n - 1).key + PairAt(flat, n - 1).sig == flat[k..] by { LastPair(flat, n - 1); }
      assert flat == flat[..k] + flat[k..];
    }
  }

  lemma PairsOfPrefix(flat: Bytes, n: nat)
    requires LEN_PAIR * n <= |flat|
    ensures forall i :: 0 <= i < n ==> PairAt(flat[..LEN_PAIR * n], i) == PairAt(flat, i)
  {
    forall i | 0 <= i < n
      ensures PairAt(flat[..LEN_PAIR * n], i) == PairAt(flat, i)
    {
      assert LEN_PAIR * (i + 1) <= LEN_PAIR * n;
    }
  }

  lemma LastPair(flat: Bytes, n: nat)
    requires |flat| == LEN_PAIR * (n + 1)
    ensures PairAt(flat, n).key + PairAt(flat, n).sig == flat[LEN_PAIR * n..]
  {
  }

  lemma FlattenedPairs(pairs: seq<CAPair>)
    requires Fault(pairs, 0).None?
    ensures |FlattenPairs(pairs)| == LEN_PAIR * |pairs| && Ascending(FlattenPairs(pairs), |pairs|)
    ensures PairsOf(FlattenPairs(pairs), |pairs|) == pairs
  {
    hide Less, FlattenPairs;
    var flat := FlattenPairs(pairs);
    FlattenedAt(pairs, 0);
    forall i | 0 <= i < |pairs|
      ensures PairAt(flat, i) == pairs[i]
    {
      FlattenedAt(pairs, i);
    }
    forall i | 0 < i < |pairs|
      ensures Less(KeyAt(flat, i - 1), KeyAt(flat, i))
    {
      assert PairAt(flat, i - 1).key == pairs[i - 1].key && PairAt(flat, i).key == pairs[i].key;
    }
  }

  /** What the minting functions produce, the parser reads back: same fields, same pairs. */
  lemma MintedParses(f: CertFields, pairs: seq<CAPair>)
    requires |f.name| <= MAX_NAME && |f.scopeIDs| <= 8 && 1 <= |pairs| <= MAX_CA_SIGS && Fault(pairs, 0).None?
    ensures var x := Minted(f, pairs);
            && Minted(f, []).tbs == x.tbs
            && CertIn(x, x.tbs + ([|pairs|] + FlattenPairs(pairs)))
            && |x.caSigs| == LEN_PAIR * |pairs| && PairsOf(x.caSigs, |pairs|) == pairs
  {
    hide CertIn, CertTbs, Less, Ascending, PairsOf, FlattenPairs, Fault, Flatten8;
    var x := Minted(f, pairs);
    FlattenedPairs(pairs);
    TbsIgnoresPairs(x, Minted(f, []));
    TbsIgnoresPairs(x, x.(tbs := []));
    TbsIgnoresPairs(Minted(f, []), Minted(f, []).(tbs := []));
    CertInIff(x, x.tbs + ([|pairs|] + FlattenPairs(pairs)));
  }

  lemma TbsIgnoresPairs(x: Cert, y: Cert)
    requires x.(caSigCount := 0, caSigs := [], tbs := []) == y.(caSigCount := 0, caSigs := [], tbs := [])
    ensures CertTbs(x) == CertTbs(y)
  {
    hide EncodeAll;
  }

  /** The flat scope list as the ids it holds. */
  function Split8(flat: Bytes, n: nat): (ids: seq<Bytes8>)
    requires |flat| == n * LEN_SCOPE_ID
    ensures |ids| == n
  {
    if n == 0 then []
    else
      var k := (n - 1) * LEN_SCOPE_ID;
      Split8(flat[..k], n - 1) + [flat[k..]]
  }

  lemma {:induction false} FlattenSplit8(flat: Bytes, n: nat)
    requires |flat| == n * LEN_SCOPE_ID
    ensures Flatten8(Split8(flat, n)) == flat
  {
    if n > 0 {
      var k := (n - 1) * LEN_SCOPE_ID;
      FlattenSplit8(flat[..k], n - 1);
      assert Split8(flat, n)[..n - 1] == Split8(flat[..k], n - 1);
    }
  }

  /** What a parsed certificate would be minted from. */
  function FieldsOf(x: Cert): CertFields
    requires |x.sigPubkey| == 32 && |x.kexPubkey| == 32 && |x.scopeIDs| == x.scopeCount * LEN_SCOPE_ID
  {
    CertFields(x.version, x.roleBits, x.sigPubkey, x.kexPubkey, x.notBefore, x.notAfter, x.name,
               Split8(x.scopeIDs, x.scopeCount))
  }

  /** Minting again from an accepted certificate's own fields and pairs is within every
      bound, gives that certificate, TBS included, and reproduces its bytes. */
  lemma CertReencodes(x: Cert, s: Bytes)
    requires CertIn(x, s)
    ensures CertInBounds(x)
    ensures Fault(PairsOf(x.caSigs, x.caSigCount), 0) == None
    ensures Minted(FieldsOf(x), PairsOf(x.caSigs, x.caSigCount)) == x
    ensures Minted(FieldsOf(x), []).tbs == x.tbs
    ensures s == x.tbs + ([x.caSigCount] + FlattenPairs(PairsOf(x.caSigs, x.caSigCount)))
  {
    hide CertIn, CertTbs, Less, FlattenPairs, Flatten8, Split8;
    CertInIff(x, s);
    FlattenPairsOf(x.caSigs, x.caSigCount);
    FlattenSplit8(x.scopeIDs, x.scopeCount);
    TbsIgnoresPairs(x, Minted(FieldsOf(x), []));
    TbsIgnoresPairs(x, x.(tbs := []));
    TbsIgnoresPairs(Minted(FieldsOf(x), []), Minted(FieldsOf(x), []).(tbs := []));
  }

  /** Cut short anywhere an accepted certificate is truncated, and with anything behind it there
      are trailing bytes. */
  lemma CertNeighbours(x: Cert, s: Bytes, t: Bytes)
    requires CertIn(x, s)
    ensures t < s ==> Decode(CertLayout(), t) == Err(Truncated)
    ensures s < t ==> Decode(CertLayout(), t) == Err(TrailingBytes)
  {
    hide Run, CertLayout;
    DecodeNeighbours(CertLayout(), s, t);
  }
}
