/**
 Certificate chain validation, with and without a clock.
 */
module Validation {
  import opened Octets
  import opened Results
  import opened Crypto
  import opened Layout
  import opened Certs

  const ROLE_AGENT: byte := 2
  const ROLE_EXECUTOR: byte := 4
  const ROLE_APPROVER: byte := 8

  const APPROVER_QUORUM := 2
  const MAX_PRIVILEGED_LIFETIME_MS := 2_592_000_000

  /** bits & role != 0, for a single-bit role. */
  predicate Has(bits: byte, role: byte)
    requires role > 0
  {
    bits / role % 2 == 1
  }

  function CheckRoleConstraints(bits: byte): Result<()> {
    var agent, approver, executor := Has(bits, ROLE_AGENT), Has(bits, ROLE_APPROVER), Has(bits, ROLE_EXECUTOR);
    if (agent && approver) || (agent && executor) || (approver && executor) then Err(RolePairForbidden) else Ok(())
  }

  predicate Privileged(x: Cert) {
    Has(x.roleBits, ROLE_APPROVER) || Has(x.roleBits, ROLE_EXECUTOR)
  }

  /** NotAfter - NotBefore on 64-bit words. */
  function Lifetime(x: Cert): uint64 {
    (x.notAfter - x.notBefore) % TWO_64
  }

  function CheckPairs(tbs: Bytes, pairs: seq<CAPair>, trusted: seq<Bytes>): (r: Result<()>)
    ensures r.Ok? <==> forall i :: 0 <= i < |pairs| ==> VerifyPair(tbs, pairs[i]).Ok? && pairs[i].key in trusted
  {
    if pairs == [] then Ok(())
    else
      var _ :- VerifyPair(tbs, pairs[0]);
      if pairs[0].key !in trusted then Err(UntrustedCA) else CheckPairs(tbs, pairs[1..], trusted)
  }

  function ValidateCertChainNoClock(x: Cert, trusted: seq<Bytes>): Result<()>
    requires PairsHeld(x)
  {
    var _ :- CheckRoleConstraints(x.roleBits);
    if Has(x.roleBits, ROLE_APPROVER) && x.caSigCount < APPROVER_QUORUM then Err(ApproverNoQuorum)
    else if Privileged(x) && Lifetime(x) > MAX_PRIVILEGED_LIFETIME_MS then Err(CertTooLongLived)
    else CheckPairs(x.tbs, PairsOf(x.caSigs, x.caSigCount), trusted)
  }

  /** The clocked stance: inclusive at not_before, exclusive at not_after. */
  function ValidateCert(x: Cert, trusted: seq<Bytes>, nowMS: uint64): Result<()>
    requires PairsHeld(x)
  {
    var _ :- ValidateCertChainNoClock(x, trusted);
    if nowMS < x.notBefore || nowMS >= x.notAfter then Err(OutsideWindow) else Ok(())
  }

  // What validation decides -----------------------------------------------------

  /** How many of the agent, executor and approver bits (2, 4 and 8) are set. */
  function RoleCount(bits: byte): nat {
    bits / 2 % 2 + bits / 4 % 2 + bits / 8 % 2
  }

  predicate QuorumMet(x: Cert) {
    x.roleBits / 8 % 2 == 1 ==> x.caSigCount >= 2
  }

  /** Approvers and executors live at most 30 days, as 64-bit words see it. */
  predicate WithinCap(x: Cert) {
    x.roleBits / 8 % 2 == 1 || x.roleBits / 4 % 2 == 1 ==> (x.notAfter - x.notBefore) % TWO_64 <= 30 * 24 * 3600 * 1000
  }

  /** Pair i verifies over the certificate's TBS, and its key is trusted. */
  ghost predicate GoodPair(x: Cert, i: nat, trusted: seq<Bytes>)
    requires PairsHeld(x) && i < x.caSigCount
  {
    var p := PairAt(x.caSigs, i);
    VerifySigned(0x01, x.tbs, p.sig, p.key).Ok? && p.key in trusted
  }

  /** Pair i is the first that is not good, and `e` says why. */
  ghost predicate FirstBadPair(x: Cert, i: nat, trusted: seq<Bytes>, e: Error)
    requires PairsHeld(x)
  {
    && i < x.caSigCount && (forall j :: 0 <= j < i ==> GoodPair(x, j, trusted))
    && var p := PairAt(x.caSigs, i);
    if VerifySigned(0x01, x.tbs, p.sig, p.key).Err? then e == VerifySigned(0x01, x.tbs, p.sig, p.key).error
    else p.key !in trusted && e == UntrustedCA
  }

  lemma {:induction false} PairsVerdictFrom(x: Cert, i: nat, trusted: seq<Bytes>)
    requires PairsHeld(x) && i <= x.caSigCount && forall j :: 0 <= j < i ==> GoodPair(x, j, trusted)
    ensures var r := CheckPairs(x.tbs, PairsOf(x.caSigs, x.caSigCount)[i..], trusted);
            && (r.Ok? <==> forall j :: 0 <= j < x.caSigCount ==> GoodPair(x, j, trusted))
            && (r.Err? ==> exists j :: FirstBadPair(x, j, trusted, r.error))
    decreases x.caSigCount - i
  {
    hide VerifySigned, PairAt;
    var pairs := PairsOf(x.caSigs, x.caSigCount);
    if i < x.caSigCount {
      assert pairs[i..][0] == pairs[i] && pairs[i..][1..] == pairs[i + 1..];
      if GoodPair(x, i, trusted) {
        PairsVerdictFrom(x, i + 1, trusted);
      } else {
        assert FirstBadPair(x, i, trusted, CheckPairs(x.tbs, pairs[i..], trusted).error);
      }
    }
  }

  /** Clock-free validation accepts exactly the certificates with at most one working role,
      a quorum where one is needed, a capped life where one is asked, and only good pairs;
      it answers with the first of these, in this order, that fails. */
  lemma ChainVerdict(x: Cert, trusted: seq<Bytes>)
    requires PairsHeld(x)
    ensures var r := ValidateCertChainNoClock(x, trusted);
            && (r.Ok? <==>
                  && RoleCount(x.roleBits) <= 1 && QuorumMet(x) && WithinCap(x)
                  && forall i :: 0 <= i < x.caSigCount ==> GoodPair(x, i, trusted))
            && (RoleCount(x.roleBits) > 1 ==> r == Err(RolePairForbidden))
            && (RoleCount(x.roleBits) <= 1 && !QuorumMet(x) ==> r == Err(ApproverNoQuorum))
            && (RoleCount(x.roleBits) <= 1 && QuorumMet(x) && !WithinCap(x) ==> r == Err(CertTooLongLived))
            && (RoleCount(x.roleBits) <= 1 && QuorumMet(x) && WithinCap(x) && r.Err? ==>
                  exists i :: FirstBadPair(x, i, trusted, r.error))
  {
    hide CheckPairs, PairsOf, VerifySigned, GoodPair, FirstBadPair;
    PairsVerdictFrom(x, 0, trusted);
    assert PairsOf(x.caSigs, x.caSigCount)[0..] == PairsOf(x.caSigs, x.caSigCount);
  }

  /** The clock adds exactly the window, closed at its start and open at its end. */
  lemma ClockVerdict(x: Cert, trusted: seq<Bytes>, nowMS: uint64)
    requires PairsHeld(x)
    ensures var r := ValidateCertChainNoClock(x, trusted);
            ValidateCert(x, trusted, nowMS) ==
            if r.Err? then r else if x.notBefore <= nowMS < x.notAfter then Ok(()) else Err(OutsideWindow)
  {
    hide ValidateCertChainNoClock;
  }

  /** The pairs by which these CAs sign a certificate with these fields. */
  function SignedBy(f: CertFields, seeds: seq<Bytes>): (pairs: seq<CAPair>)
    requires |f.scopeIDs| <= 8
    ensures |pairs| == |seeds|
  {
    seq(|seeds|, i requires 0 <= i < |seeds| =>
      CAPair(EdPublic(seeds[i]), SignTagged(DOMAIN_CERT, Minted(f, []).tbs, seeds[i])))
  }

  /** Every certificate minted within the rules and signed by trusted CAs in key order
      parses, and clock-free validation accepts it. */
  lemma MintedAccepted(f: CertFields, seeds: seq<Bytes>, trusted: seq<Bytes>)
    requires |f.name| <= MAX_NAME && |f.scopeIDs| <= 8 && 1 <= |seeds| <= MAX_CA_SIGS
    requires forall i :: 0 < i < |seeds| ==> Less(EdPublic(seeds[i - 1]), EdPublic(seeds[i]))
    requires forall s :: s in seeds ==> EdPublic(s) in trusted
    requires RoleCount(f.roleBits) <= 1
    requires f.roleBits / 8 % 2 == 1 ==> |seeds| >= 2
    requires f.roleBits / 8 % 2 == 1 || f.roleBits / 4 % 2 == 1 ==> 0 <= f.notAfter - f.notBefore <= 30 * 24 * 3600 * 1000
    ensures var pairs := SignedBy(f, seeds);
            var x := Minted(f, pairs);
            && CertIn(x, x.tbs + ([|pairs|] + FlattenPairs(pairs))) && PairsHeld(x)
            && ValidateCertChainNoClock(x, trusted).Ok?
  {
    hide CertIn, CertTbs, VerifySigned, FlattenPairs, Flatten8, Less, ValidateCertChainNoClock, PairsOf, CheckPairs;
    var pairs := SignedBy(f, seeds);
    MintedParses(f, pairs);
    var x := Minted(f, pairs);
    CertInIff(x, x.tbs + ([|pairs|] + FlattenPairs(pairs)));
    forall i | 0 <= i < x.caSigCount
      ensures GoodPair(x, i, trusted)
    {
      assert PairsOf(x.caSigs, |pairs|)[i] == pairs[i];
      assert seeds[i] in seeds;
      SignedVerifies(DOMAIN_CERT, x.tbs, seeds[i]);
    }
    ChainVerdict(x, trusted);
  }

  // Quorum -------------------------------------------------------------------

  /** Adjacent order carries over any distance. */
  lemma {:induction false} AscendingApart(flat: Bytes, n: nat, i: nat, j: nat)
    requires LEN_PAIR * n <= |flat| && Ascending(flat, n) && i < j < n
    ensures Less(KeyAt(flat, i), KeyAt(flat, j))
  {
    hide Less;
    if i + 1 < j {
      AscendingApart(flat, n, i, j - 1);
      LessTransitive(KeyAt(flat, i), KeyAt(flat, j - 1), KeyAt(flat, j));
    }
  }

  /** The CA keys that signed a certificate. */
  function Signers(pairs: seq<CAPair>): set<Bytes> {
    set i | 0 <= i < |pairs| :: pairs[i].key
  }

  lemma {:induction false} DistinctCount(pairs: seq<CAPair>)
    requires forall i, j :: 0 <= i < j < |pairs| ==> pairs[i].key != pairs[j].key
    ensures |Signers(pairs)| == |pairs|
  {
    if pairs != [] {
      var n := |pairs| - 1;
      var init := pairs[..n];
      DistinctCount(init);
      assert Signers(pairs) == Signers(init) + {pairs[n].key};
      assert pairs[n].key !in Signers(init);
    }
  }

  /** For any certificate the parser produced and the chain check accepted, every
      listed signature is by a different trusted CA over this very TBS; an approver
      certificate therefore carries at least two of them. */
  lemma QuorumIsReal(x: Cert, s: Bytes, trusted: seq<Bytes>)
    requires CertIn(x, s) && PairsHeld(x) && ValidateCertChainNoClock(x, trusted).Ok?
    ensures var pairs := PairsOf(x.caSigs, x.caSigCount);
            && (forall i, j :: 0 <= i < j < |pairs| ==> pairs[i].key != pairs[j].key)
            && (forall p :: p in pairs ==> p.key in trusted && VerifySigned(DOMAIN_CERT, x.tbs, p.sig, p.key).Ok?)
            && |Signers(pairs)| == x.caSigCount
            && (Has(x.roleBits, ROLE_APPROVER) ==> |Signers(pairs)| >= APPROVER_QUORUM)
  {
    hide CertIn, VerifySigned, Less;
    CertInIff(x, s);
    var pairs := PairsOf(x.caSigs, x.caSigCount);
    forall i, j | 0 <= i < j < |pairs|
      ensures pairs[i].key != pairs[j].key
    {
      AscendingApart(x.caSigs, x.caSigCount, i, j);
      LessIrreflexive(pairs[i].key);
    }
    DistinctCount(pairs);
  }

  // Roles and windows --------------------------------------------------------

  /** The role check leaves at most one of the three working roles. */
  lemma RolesExclusive(bits: byte)
    ensures CheckRoleConstraints(bits).Ok? <==>
            |(if Has(bits, ROLE_AGENT) then {ROLE_AGENT} else {})
             + (if Has(bits, ROLE_APPROVER) then {ROLE_APPROVER} else {})
             + (if Has(bits, ROLE_EXECUTOR) then {ROLE_EXECUTOR} else {})| <= 1
  {
    var a := if Has(bits, ROLE_AGENT) then {ROLE_AGENT} else {};
    var p := if Has(bits, ROLE_APPROVER) then {ROLE_APPROVER} else {};
    var e := if Has(bits, ROLE_EXECUTOR) then {ROLE_EXECUTOR} else {};
    assert a !! p && (a + p) !! e;
    assert |a + p + e| == |a| + |p| + |e|;
  }

  /** Without a clock, a privileged certificate whose window ends before it begins passes
      exactly when everything else does and the difference wraps almost all the way
      round the 64-bit range. */
  lemma InvertedWindow(x: Cert, trusted: seq<Bytes>)
    requires PairsHeld(x) && Privileged(x) && x.notAfter < x.notBefore
    ensures ValidateCertChainNoClock(x, trusted).Ok? <==>
            && CheckRoleConstraints(x.roleBits).Ok?
            && (Has(x.roleBits, ROLE_APPROVER) ==> x.caSigCount >= APPROVER_QUORUM)
            && CheckPairs(x.tbs, PairsOf(x.caSigs, x.caSigCount), trusted).Ok?
            && x.notBefore - x.notAfter >= TWO_64 - MAX_PRIVILEGED_LIFETIME_MS
  {
    hide CheckPairs, PairsOf, CheckRoleConstraints, Has;
    assert Lifetime(x) == TWO_64 - (x.notBefore - x.notAfter);
  }

  /** An executor's fields whose window runs from the last millisecond to the first. */
  function BackwardsFields(sigPubkey: Bytes32, kexPubkey: Bytes32): CertFields {
    CertFields(3, ROLE_EXECUTOR, sigPubkey, kexPubkey, TWO_64 - 1, 0, [], [])
  }

  /** Such a certificate does exist: signed by one CA it parses and the clock-free chain
      accepts it, though no clock ever will. */
  lemma InvertedAccepted(sigPubkey: Bytes32, kexPubkey: Bytes32, seed: Bytes)
    ensures var f := BackwardsFields(sigPubkey, kexPubkey);
            var pair := CAPair(EdPublic(seed), SignTagged(DOMAIN_CERT, Minted(f, []).tbs, seed));
            var x := Minted(f, [pair]);
            && CertIn(x, x.tbs + ([1] + FlattenPairs([pair]))) && PairsHeld(x)
            && ValidateCertChainNoClock(x, [EdPublic(seed)]).Ok?
            && forall nowMS: uint64 :: ValidateCert(x, [EdPublic(seed)], nowMS) == Err(OutsideWindow)
  {
    hide CertIn, VerifySigned, FlattenPairs, CertTbs, PairsOf, PairAt;
    var f := BackwardsFields(sigPubkey, kexPubkey);
    var pair := CAPair(EdPublic(seed), SignTagged(DOMAIN_CERT, Minted(f, []).tbs, seed));
    MintedParses(f, [pair]);
    SignedVerifies(DOMAIN_CERT, Minted(f, []).tbs, seed);
    InvertedWindow(Minted(f, [pair]), [EdPublic(seed)]);
  }

  /** Inside a clocked window nothing wraps, so the cap bounds the real lifetime. */
  lemma ClockedLifetime(x: Cert, trusted: seq<Bytes>, nowMS: uint64)
    requires PairsHeld(x) && ValidateCert(x, trusted, nowMS).Ok?
    ensures x.notBefore <= nowMS < x.notAfter
    ensures Privileged(x) ==> x.notAfter - x.notBefore <= MAX_PRIVILEGED_LIFETIME_MS
  {
    hide CheckPairs, PairsOf;
    assert Lifetime(x) == x.notAfter - x.notBefore;
  }
}
