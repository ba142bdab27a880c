/**
 The grant verification chain: the ordered checks that gate every effect, the scope
 walk, and the expiry rule on 64-bit words.
 */
module GrantChain {
  import opened Octets
  import opened Results
  import opened Crypto
  import opened Certs
  import opened Validation
  import opened Grants
  import opened Envelopes

  // Scope --------------------------------------------------------------------

  function ScopeAt(x: Cert, i: nat): Bytes
    requires ScopesHeld(x) && i < x.scopeCount
  {
    x.scopeIDs[i * LEN_SCOPE_ID..(i + 1) * LEN_SCOPE_ID]
  }

  predicate CarriesScope(x: Cert, scope: Bytes)
    requires ScopesHeld(x)
  {
    exists i :: 0 <= i < x.scopeCount && ScopeAt(x, i) == scope
  }

  method CertCarriesScope(x: Cert, scope: Bytes) returns (found: bool)
    requires ScopesHeld(x)
    ensures found == CarriesScope(x, scope)
  {
    for i := 0 to x.scopeCount
      invariant forall j :: 0 <= j < i ==> ScopeAt(x, j) != scope
    {
      var off := i * LEN_SCOPE_ID;
      if x.scopeIDs[off..off + LEN_SCOPE_ID] == scope {
        assert ScopeAt(x, i) == scope;
        return true;
      }
    }
    return false;
  }

  /** The 8-byte scope id of a path. */
  function ScopeID(path: Bytes): (id: Bytes8) {
    Blake2s256(path)[..8]
  }

  /** `e` ends a whole-segment, non-empty prefix of `path`. */
  predicate Boundary(path: Bytes, e: nat) {
    0 < e <= |path| && (e == |path| || path[e] == SLASH)
  }

  /** Some whole-segment prefix of the resource has its id among the scopes. */
  predicate Covers(x: Cert, path: Bytes)
    requires ScopesHeld(x)
  {
    exists e: nat :: e <= |path| && Boundary(path, e) && CarriesScope(x, ScopeID(path[..e]))
  }

  /** Walks from the full path towards the root, one segment at a time. */
  method ScopeCoversResource(x: Cert, path: Bytes) returns (covered: bool)
    requires ScopesHeld(x)
    ensures covered == Covers(x, path)
  {
    hide CarriesScope;
    var end: nat := |path|;
    while end > 0
      invariant end <= |path| && (end == 0 || Boundary(path, end))
      invariant forall e: nat :: end < e <= |path| && Boundary(path, e) ==> !CarriesScope(x, ScopeID(path[..e]))
    {
      var found := CertCarriesScope(x, Blake2s256(path[..end])[..8]);
      if found {
        return true;
      }
      var newEnd := end;
      while newEnd > 0 && path[newEnd - 1] != SLASH
        invariant newEnd <= end
        invariant forall e: nat :: newEnd <= e < end ==> path[e] != SLASH
      {
        newEnd := newEnd - 1;
      }
      if newEnd == 0 {
        break;
      }
      end := newEnd - 1;
    }
    return false;
  }

  /** A scope over a path covers everything below it. */
  lemma CoversBelow(x: Cert, path: Bytes, below: Bytes)
    requires ScopesHeld(x) && Covers(x, path)
    ensures Covers(x, path + [SLASH] + below)
  {
    hide CarriesScope, ScopeID;
    var e: nat :| e <= |path| && Boundary(path, e) && CarriesScope(x, ScopeID(path[..e]));
    var longer := path + [SLASH] + below;
    assert longer[..e] == path[..e];
    assert Boundary(longer, e);
  }

  /** No ancestor of the resource other than `p` itself shares the scope id of `p`. */
  ghost predicate ScopeTellsApart(path: Bytes, p: Bytes) {
    forall e: nat :: e <= |path| && Boundary(path, e) && Blake2s256(path[..e])[..8] == Blake2s256(p)[..8] ==> path[..e] == p
  }

  /** `path` is `p`, or lies below it at a segment boundary. */
  predicate AtOrBelow(path: Bytes, p: Bytes) {
    path == p || p + [SLASH] <= path
  }

  /** The certificate's scopes are those minted for `ps`. */
  ghost predicate MintedFor(x: Cert, ps: seq<Bytes>) {
    && ScopesHeld(x) && x.scopeCount == |ps|
    && forall i :: 0 <= i < |ps| ==> ps[i] != [] && ScopeAt(x, i) == Blake2s256(ps[i])[..8]
  }

  lemma WholePrefix(path: Bytes, p: Bytes)
    requires p != []
    ensures AtOrBelow(path, p) <==> exists e: nat :: e <= |path| && Boundary(path, e) && path[..e] == p
  {
    if e: nat :| e <= |path| && Boundary(path, e) && path[..e] == p {
      assert e < |path| ==> p + [SLASH] == path[..e + 1];
    }
    if path == p {
      assert path[..|p|] == p && Boundary(path, |p|);
    } else if p + [SLASH] <= path {
      assert path[..|p|] == p && path[|p|] == (p + [SLASH])[|p|];
      assert Boundary(path, |p|);
    }
  }

  /** A certificate with the scopes minted for some paths covers exactly those and what
      lies below them at a segment boundary; never a sibling that extends a name. */
  lemma ScopesAreExact(x: Cert, path: Bytes, ps: seq<Bytes>)
    requires MintedFor(x, ps) && forall p :: p in ps ==> ScopeTellsApart(path, p)
    ensures Covers(x, path) <==> exists i :: 0 <= i < |ps| && AtOrBelow(path, ps[i])
  {
    hide AtOrBelow;
    if Covers(x, path) {
      var e: nat :| e <= |path| && Boundary(path, e) && CarriesScope(x, ScopeID(path[..e]));
      var i :| 0 <= i < x.scopeCount && ScopeAt(x, i) == ScopeID(path[..e]);
      assert ps[i] in ps && ScopeTellsApart(path, ps[i]);
      assert path[..e] == ps[i];
      WholePrefix(path, ps[i]);
    }
    if i :| 0 <= i < |ps| && AtOrBelow(path, ps[i]) {
      WholePrefix(path, ps[i]);
      var e: nat :| e <= |path| && Boundary(path, e) && path[..e] == ps[i];
      assert ScopeAt(x, i) == ScopeID(path[..e]);
    }
  }

  /** With the one scope minted for `p`. */
  lemma ScopeIsExact(x: Cert, path: Bytes, p: Bytes)
    requires ScopesHeld(x) && x.scopeCount == 1 && x.scopeIDs == Blake2s256(p)[..8] && p != []
    requires ScopeTellsApart(path, p)
    ensures Covers(x, path) <==> path == p || p + [SLASH] <= path
  {
    hide Covers;
    assert ScopeAt(x, 0) == Blake2s256(p)[..8];
    ScopesAreExact(x, path, [p]);
    assert [p][0] == p;
  }

  // Expiry -------------------------------------------------------------------

  function Times1000(seconds: uint64): uint64 {
    seconds * 1000 % TWO_64
  }

  function Add64(a: uint64, b: uint64): uint64 {
    (a + b) % TWO_64
  }

  /** checkExpiry, every operation on 64-bit words. */
  predicate NotExpired(notAfter: uint64, nowMS: uint64, firstReceipt: uint64, tMaxS: uint64, tRecvS: uint64) {
    && nowMS < notAfter
    && notAfter <= Add64(firstReceipt, Times1000(tMaxS))
    && nowMS <= Add64(firstReceipt, Times1000(tRecvS))
  }

  /** The three conditions of BE-GRANT-05 on unbounded integers. */
  predicate WithinDeadlines(notAfter: int, nowMS: int, firstReceipt: int, tMaxS: int, tRecvS: int) {
    nowMS < notAfter && notAfter <= firstReceipt + 1000 * tMaxS && nowMS <= firstReceipt + 1000 * tRecvS
  }

  /** Overflow can only refuse; without it the words and the integers agree. */
  lemma ExpiryFailsClosed(notAfter: uint64, nowMS: uint64, firstReceipt: uint64, tMaxS: uint64, tRecvS: uint64)
    ensures NotExpired(notAfter, nowMS, firstReceipt, tMaxS, tRecvS) ==>
            WithinDeadlines(notAfter, nowMS, firstReceipt, tMaxS, tRecvS)
    ensures firstReceipt + 1000 * tMaxS < TWO_64 && firstReceipt + 1000 * tRecvS < TWO_64 ==>
              (NotExpired(notAfter, nowMS, firstReceipt, tMaxS, tRecvS) <==>
               WithinDeadlines(notAfter, nowMS, firstReceipt, tMaxS, tRecvS))
  {
    WrapsDown(firstReceipt, tMaxS);
    WrapsDown(firstReceipt, tRecvS);
  }

  lemma WrapsDown(firstReceipt: uint64, seconds: uint64)
    ensures Add64(firstReceipt, Times1000(seconds)) <= firstReceipt + 1000 * seconds
    ensures firstReceipt + 1000 * seconds < TWO_64 ==>
              Add64(firstReceipt, Times1000(seconds)) == firstReceipt + 1000 * seconds
  {
    assert Times1000(seconds) <= seconds * 1000;
    assert Add64(firstReceipt, Times1000(seconds)) <= firstReceipt + Times1000(seconds);
  }

  /** The deadline as the words have it, and the latest deadline words could express. */
  function Wrapped(firstReceipt: uint64, seconds: uint64): uint64 {
    Add64(firstReceipt, Times1000(seconds))
  }

  function Capped(firstReceipt: uint64, seconds: uint64): uint64 {
    if firstReceipt + 1000 * seconds < TWO_64 then firstReceipt + 1000 * seconds else TWO_64 - 1
  }

  /** The settings under which overflow never shows. */
  predicate NoVisibleOverflow(firstReceipt: uint64, tMaxS: uint64, tRecvS: uint64) {
    && Wrapped(firstReceipt, tMaxS) == Capped(firstReceipt, tMaxS)
    && (|| Wrapped(firstReceipt, tRecvS) == Capped(firstReceipt, tRecvS)
        || Wrapped(firstReceipt, tRecvS) >= Capped(firstReceipt, tMaxS) - 1)
  }

  ghost predicate Agrees(notAfter: uint64, nowMS: uint64, firstReceipt: uint64, tMaxS: uint64, tRecvS: uint64) {
    NotExpired(notAfter, nowMS, firstReceipt, tMaxS, tRecvS) <==>
    WithinDeadlines(notAfter, nowMS, firstReceipt, tMaxS, tRecvS)
  }

  /** The words implement BE-GRANT-05 for every grant and every time exactly when no
      overflow is visible, which depends on the receipt time and the two limits alone. */
  lemma ExpiryExactIff(firstReceipt: uint64, tMaxS: uint64, tRecvS: uint64)
    ensures (forall notAfter: uint64, nowMS: uint64 :: Agrees(notAfter, nowMS, firstReceipt, tMaxS, tRecvS)) <==>
            NoVisibleOverflow(firstReceipt, tMaxS, tRecvS)
  {
    hide Add64, Times1000;
    WrapsDown(firstReceipt, tMaxS);
    WrapsDown(firstReceipt, tRecvS);
    var cap := Capped(firstReceipt, tMaxS);
    if Wrapped(firstReceipt, tMaxS) < cap {
      assert !Agrees(cap, 0, firstReceipt, tMaxS, tRecvS);
    } else if !NoVisibleOverflow(firstReceipt, tMaxS, tRecvS) {
      assert !Agrees(cap, Wrapped(firstReceipt, tRecvS) + 1, firstReceipt, tMaxS, tRecvS);
    }
  }

  /** An overflowing deadline does refuse a grant the integers would allow. */
  lemma OverflowRefuses()
    ensures !NotExpired(TWO_64 - 1, 5, 5, TWO_64 / 1000 + 1, 300)
    ensures WithinDeadlines(TWO_64 - 1, 5, 5, TWO_64 / 1000 + 1, 300)
  {
  }

  // The chain ----------------------------------------------------------------

  datatype PendingIntent = PendingIntent(intentID: Bytes, sender: Bytes, resourceID: Bytes, action: Bytes)

  datatype GrantContext = GrantContext(
    envelopeBodyType: byte, envelopeSender: Bytes, ownPubkey: Bytes, trustedCAs: seq<Bytes>,
    approverCert: Cert, subjectCert: Cert, pending: PendingIntent,
    nowMS: uint64, firstReceipt: uint64, tMaxSeconds: uint64, tRecvSeconds: uint64,
    isRevoked: Option<Bytes -> bool>)

  predicate Revoked(ctx: GrantContext, key: Bytes) {
    ctx.isRevoked.Some? && ctx.isRevoked.value(key)
  }

  // The refusals, in the order of the checks.
  datatype Refused =
    | BadVersion | BadEnvelopeBinding | GrantBadSignature
    | BadApproverCert | ApproverRevoked | ApproverOutOfScope
    | BadSubjectCert | SubjectRevoked | SubjectOutOfScope
    | WrongExecutor | WrongSubject | NoMatchingIntent | WrongResource | ActionDigestMismatch | Expired

  ghost predicate ListsHeld(ctx: GrantContext) {
    && PairsHeld(ctx.approverCert) && ScopesHeld(ctx.approverCert)
    && PairsHeld(ctx.subjectCert) && ScopesHeld(ctx.subjectCert)
  }

  function VerifyGrant(g: Grant, ctx: GrantContext): Option<Refused>
    requires ListsHeld(ctx)
  {
    var f, a, s := g.fields, ctx.approverCert, ctx.subjectCert;
    if f.version != 2 then Some(BadVersion)
    else if ctx.envelopeBodyType != BODY_GRANT || ctx.envelopeSender != f.approver then Some(BadEnvelopeBinding)
    else if VerifySigned(DOMAIN_GRANT, g.tbs, g.sig, f.approver).Err? then Some(GrantBadSignature)
    else if ValidateCert(a, ctx.trustedCAs, ctx.nowMS).Err? then Some(BadApproverCert)
    else if !Has(a.roleBits, ROLE_APPROVER) then Some(BadApproverCert)
    else if a.sigPubkey != f.approver then Some(BadApproverCert)
    else if Revoked(ctx, a.sigPubkey) then Some(ApproverRevoked)
    else if a.version >= 3 && !Covers(a, f.resourceID) then Some(ApproverOutOfScope)
    else if ValidateCert(s, ctx.trustedCAs, ctx.nowMS).Err? then Some(BadSubjectCert)
    else if !Has(s.roleBits, ROLE_AGENT) then Some(BadSubjectCert)
    else if s.sigPubkey != f.subject then Some(BadSubjectCert)
    else if Revoked(ctx, s.sigPubkey) then Some(SubjectRevoked)
    else if s.version >= 3 && !Covers(s, f.resourceID) then Some(SubjectOutOfScope)
    else if f.executor != ctx.ownPubkey then Some(WrongExecutor)
    else if f.subject != ctx.pending.sender then Some(WrongSubject)
    else if f.intentID != ctx.pending.intentID then Some(NoMatchingIntent)
    else if f.resourceID != ctx.pending.resourceID then Some(WrongResource)
    else if f.actionDigest != Blake2s256(ctx.pending.action) then Some(ActionDigestMismatch)
    else if !NotExpired(f.notAfter, ctx.nowMS, ctx.firstReceipt, ctx.tMaxSeconds, ctx.tRecvSeconds) then Some(Expired)
    else None
  }

  /** What each refusal complains of, taken by itself. */
  ghost predicate Fails(e: Refused, g: Grant, ctx: GrantContext)
    requires ListsHeld(ctx)
  {
    var f, a, s := g.fields, ctx.approverCert, ctx.subjectCert;
    match e
    case BadVersion => f.version != 2
    case BadEnvelopeBinding => ctx.envelopeBodyType != BODY_GRANT || ctx.envelopeSender != f.approver
    case GrantBadSignature => VerifySigned(DOMAIN_GRANT, g.tbs, g.sig, f.approver).Err?
    case BadApproverCert =>
      ValidateCert(a, ctx.trustedCAs, ctx.nowMS).Err? || !Has(a.roleBits, ROLE_APPROVER) || a.sigPubkey != f.approver
    case ApproverRevoked => Revoked(ctx, a.sigPubkey)
    case ApproverOutOfScope => a.version >= 3 && !Covers(a, f.resourceID)
    case BadSubjectCert =>
      ValidateCert(s, ctx.trustedCAs, ctx.nowMS).Err? || !Has(s.roleBits, ROLE_AGENT) || s.sigPubkey != f.subject
    case SubjectRevoked => Revoked(ctx, s.sigPubkey)
    case SubjectOutOfScope => s.version >= 3 && !Covers(s, f.resourceID)
    case WrongExecutor => f.executor != ctx.ownPubkey
    case WrongSubject => f.subject != ctx.pending.sender
    case NoMatchingIntent => f.intentID != ctx.pending.intentID
    case WrongResource => f.resourceID != ctx.pending.resourceID
    case ActionDigestMismatch => f.actionDigest != Blake2s256(ctx.pending.action)
    case Expired => !NotExpired(f.notAfter, ctx.nowMS, ctx.firstReceipt, ctx.tMaxSeconds, ctx.tRecvSeconds)
  }

  /** The number of each check. */
  function Rank(e: Refused): nat {
    match e
    case BadVersion => 0
    case BadEnvelopeBinding => 1
    case GrantBadSignature => 2
    case BadApproverCert => 3
    case ApproverRevoked => 4
    case ApproverOutOfScope => 5
    case BadSubjectCert => 6
    case SubjectRevoked => 7
    case SubjectOutOfScope => 8
    case WrongExecutor => 9
    case WrongSubject => 10
    case NoMatchingIntent => 11
    case WrongResource => 12
    case ActionDigestMismatch => 13
    case Expired => 14
  }

  /** A grant passes exactly when no check fails, and a refusal always names the
      lowest-numbered check that fails. */
  lemma RefusalNamesFirst(g: Grant, ctx: GrantContext)
    requires ListsHeld(ctx)
    ensures VerifyGrant(g, ctx) == None <==> forall e :: !Fails(e, g, ctx)
    ensures forall e :: VerifyGrant(g, ctx) == Some(e) <==>
              Fails(e, g, ctx) && forall d :: Rank(d) < Rank(e) ==> !Fails(d, g, ctx)
  {
    hide VerifySigned, ValidateCert, Has, Covers, Revoked, NotExpired;
    match VerifyGrant(g, ctx)
    case None =>
    case Some(e) =>
      assert Fails(e, g, ctx);
      assert forall d :: Rank(d) < Rank(e) ==> !Fails(d, g, ctx);
  }

  /** A certificate in force at this time, with this role bit, for this key, not revoked, and
      from version 3 on with a scope over the resource. */
  ghost predicate Entitled(x: Cert, role: byte, key: Bytes, path: Bytes, ctx: GrantContext)
    requires PairsHeld(x) && ScopesHeld(x) && role > 0
  {
    && ValidateCertChainNoClock(x, ctx.trustedCAs).Ok? && x.notBefore <= ctx.nowMS < x.notAfter
    && x.roleBits / role % 2 == 1 && x.sigPubkey == key
    && (ctx.isRevoked.Some? ==> !ctx.isRevoked.value(key))
    && (x.version >= 3 ==>
          exists e: nat :: e <= |path| && Boundary(path, e) && CarriesScope(x, Blake2s256(path[..e])[..8]))
  }

  /** A grant is accepted exactly when it is a version-2 grant its approver sent and signed,
      both approver and agent are entitled, it names this executor and the pending intent
      in every part, and its deadlines hold. */
  lemma AcceptedIff(g: Grant, ctx: GrantContext)
    requires ListsHeld(ctx)
    ensures var f, p := g.fields, ctx.pending;
            VerifyGrant(g, ctx) == None <==>
            && f.version == 2 && ctx.envelopeBodyType == 3 && ctx.envelopeSender == f.approver
            && VerifySigned(0x04, g.tbs, g.sig, f.approver).Ok?
            && Entitled(ctx.approverCert, 8, f.approver, f.resourceID, ctx)
            && Entitled(ctx.subjectCert, 2, f.subject, f.resourceID, ctx)
            && f.executor == ctx.ownPubkey && f.subject == p.sender && f.intentID == p.intentID
            && f.resourceID == p.resourceID && f.actionDigest == Blake2s256(p.action)
            && NotExpired(f.notAfter, ctx.nowMS, ctx.firstReceipt, ctx.tMaxSeconds, ctx.tRecvSeconds)
  {
    hide VerifySigned, ValidateCertChainNoClock, CarriesScope, Boundary, NotExpired, PairsHeld;
    assert forall x: Cert, path: Bytes :: ScopesHeld(x) ==>
             (Covers(x, path) <==>
              exists e: nat :: e <= |path| && Boundary(path, e) && CarriesScope(x, Blake2s256(path[..e])[..8]));
  }

  /** A revoked approver or subject is never accepted, and once the checks before it pass
      the refusal says whose key it was; without a revocation list nobody is revoked. */
  lemma RevokedRefused(g: Grant, ctx: GrantContext, list: Bytes -> bool)
    requires ListsHeld(ctx) && ctx.isRevoked == Some(list)
    ensures list(ctx.approverCert.sigPubkey) || list(ctx.subjectCert.sigPubkey) ==> VerifyGrant(g, ctx) != None
    ensures VerifyGrant(g, ctx) == Some(ApproverRevoked) <==>
            list(ctx.approverCert.sigPubkey) && forall e :: Rank(e) < 4 ==> !Fails(e, g, ctx)
    ensures VerifyGrant(g, ctx) == Some(SubjectRevoked) <==>
            list(ctx.subjectCert.sigPubkey) && forall e :: Rank(e) < 7 ==> !Fails(e, g, ctx)
  {
    hide VerifySigned, ValidateCert, Has, Covers, NotExpired, VerifyGrant;
    RefusalNamesFirst(g, ctx);
    assert Fails(ApproverRevoked, g, ctx) <==> list(ctx.approverCert.sigPubkey);
    assert Fails(SubjectRevoked, g, ctx) <==> list(ctx.subjectCert.sigPubkey);
  }

  lemma NobodyRevoked(g: Grant, ctx: GrantContext)
    requires ListsHeld(ctx) && ctx.isRevoked == None
    ensures VerifyGrant(g, ctx) != Some(ApproverRevoked) && VerifyGrant(g, ctx) != Some(SubjectRevoked)
  {
    hide VerifySigned, ValidateCert, Has, Covers, NotExpired;
  }

  // An honest grant ------------------------------------------------------------

  /** A party's certificate fields are in force: inside the window, and under the cap. */
  predicate InForce(f: CertFields, nowMS: uint64) {
    && |f.name| <= MAX_NAME && f.notBefore <= nowMS < f.notAfter
    && f.notAfter - f.notBefore <= MAX_PRIVILEGED_LIFETIME_MS
  }

  predicate KeyOrder(seeds: seq<Bytes>) {
    forall i :: 0 < i < |seeds| ==> Less(EdPublic(seeds[i - 1]), EdPublic(seeds[i]))
  }

  /** A minted certificate in force passes its whole check. */
  lemma CertPasses(f: CertFields, seeds: seq<Bytes>, trusted: seq<Bytes>, nowMS: uint64)
    requires InForce(f, nowMS) && |f.scopeIDs| <= 8 && RoleCount(f.roleBits) <= 1
    requires (if f.roleBits / 8 % 2 == 1 then 2 else 1) <= |seeds| <= 4 && KeyOrder(seeds)
    requires forall s :: s in seeds ==> EdPublic(s) in trusted
    ensures var x := Minted(f, SignedBy(f, seeds));
            PairsHeld(x) && ScopesHeld(x) && ValidateCert(x, trusted, nowMS) == Ok(())
  {
    hide CertIn, CertTbs, VerifySigned, FlattenPairs, Less, ValidateCertChainNoClock, SignedBy;
    MintedAccepted(f, seeds, trusted);
    ClockVerdict(Minted(f, SignedBy(f, seeds)), trusted, nowMS);
  }

  /** A certificate with the single scope of a path covers that path. */
  lemma OwnScopeCovers(f: CertFields, pairs: seq<CAPair>, path: Bytes)
    requires |pairs| <= 4 && path != [] && f.scopeIDs == [Blake2s256(path)[..8]]
    ensures ScopesHeld(Minted(f, pairs)) && Covers(Minted(f, pairs), path)
  {
    hide CertTbs, FlattenPairs;
    var x := Minted(f, pairs);
    assert f.scopeIDs[..0] == [];
    assert x.scopeIDs == Blake2s256(path)[..8];
    assert path[..|path|] == path && Boundary(path, |path|);
    assert ScopeAt(x, 0) == ScopeID(path);
  }

  /** A grant made by the rules is accepted: signed by an approver whose certificate two CAs
      signed for exactly this resource, for an agent one CA certified, to this executor, for
      the pending intent and its action, in time, with nobody revoked. */
  lemma HonestGrantAccepted(g: GrantFields, approverSeed: Bytes, fA: CertFields, ca1: Bytes, ca2: Bytes,
                            fS: CertFields, ca3: Bytes, ctx: GrantContext)
    requires g.version == 2 && g.approver == EdPublic(approverSeed) && g.resourceID != []
    requires fA.version == 3 && fA.roleBits == 8 && fA.sigPubkey == g.approver && InForce(fA, ctx.nowMS)
    requires fA.scopeIDs == [Blake2s256(g.resourceID)[..8]] && KeyOrder([ca1, ca2])
    requires fS.version == 2 && fS.roleBits == 2 && fS.sigPubkey == g.subject && fS.scopeIDs == [] && InForce(fS, ctx.nowMS)
    requires EdPublic(ca1) in ctx.trustedCAs && EdPublic(ca2) in ctx.trustedCAs && EdPublic(ca3) in ctx.trustedCAs
    requires ctx.approverCert == Minted(fA, SignedBy(fA, [ca1, ca2])) && ctx.subjectCert == Minted(fS, SignedBy(fS, [ca3]))
    requires ctx.envelopeBodyType == 3 && ctx.envelopeSender == g.approver && ctx.ownPubkey == g.executor
    requires ctx.pending.sender == g.subject && ctx.pending.intentID == g.intentID
    requires ctx.pending.resourceID == g.resourceID && g.actionDigest == Blake2s256(ctx.pending.action)
    requires ctx.firstReceipt + 1000 * ctx.tMaxSeconds < TWO_64 && ctx.firstReceipt + 1000 * ctx.tRecvSeconds < TWO_64
    requires WithinDeadlines(g.notAfter, ctx.nowMS, ctx.firstReceipt, ctx.tMaxSeconds, ctx.tRecvSeconds)
    requires ctx.isRevoked.Some? ==> !ctx.isRevoked.value(g.approver) && !ctx.isRevoked.value(g.subject)
    ensures ListsHeld(ctx)
    ensures VerifyGrant(Grant(g, GrantTbs(g), SignTagged(DOMAIN_GRANT, GrantTbs(g), approverSeed)), ctx) == None
  {
    hide VerifySigned, ValidateCert, Covers, NotExpired, WithinDeadlines, GrantTbs, SignedBy, CertTbs, FlattenPairs, InForce,
         Flatten8, KeyOrder, PairsOf;
    CertPasses(fA, [ca1, ca2], ctx.trustedCAs, ctx.nowMS);
    SingleInOrder(ca3);
    CertPasses(fS, [ca3], ctx.trustedCAs, ctx.nowMS);
    OwnScopeCovers(fA, SignedBy(fA, [ca1, ca2]), g.resourceID);
    SignedVerifies(DOMAIN_GRANT, GrantTbs(g), approverSeed);
    ExpiryFailsClosed(g.notAfter, ctx.nowMS, ctx.firstReceipt, ctx.tMaxSeconds, ctx.tRecvSeconds);
  }

  lemma SingleInOrder(seed: Bytes)
    ensures KeyOrder([seed])
  {
  }

  // What acceptance means ----------------------------------------------------

  /** One signed grant authorizes one act: any two contexts that accept grants with
      the same signed bytes agree on who acts, for whom, where, and on what. */
  lemma GrantPinsOneAct(g: Grant, h: Grant, gBytes: Bytes, hBytes: Bytes, c: GrantContext, d: GrantContext)
    requires GrantIn(g, gBytes) && GrantIn(h, hBytes) && g.tbs == h.tbs
    requires ListsHeld(c) && ListsHeld(d) && VerifyGrant(g, c) == None && VerifyGrant(h, d) == None
    ensures c.ownPubkey == d.ownPubkey && c.envelopeSender == d.envelopeSender
    ensures c.approverCert.sigPubkey == d.approverCert.sigPubkey && c.subjectCert.sigPubkey == d.subjectCert.sigPubkey
    ensures c.pending.intentID == d.pending.intentID && c.pending.sender == d.pending.sender
    ensures c.pending.resourceID == d.pending.resourceID
    ensures NoCollision({c.pending.action, d.pending.action}) ==> c.pending == d.pending
  {
    hide VerifySigned, ValidateCert, Has, Covers, Revoked, NotExpired, GrantIn;
    GrantTbsDetermines(g, h, gBytes, hBytes);
  }

  function Max(a: int, b: int): int {
    if a < b then b else a
  }

  function Min(a: int, b: int): int {
    if a < b then a else b
  }

  /** When both certificates have begun. */
  function OpensAt(ctx: GrantContext): int {
    Max(ctx.approverCert.notBefore, ctx.subjectCert.notBefore)
  }

  /** When the first of the certificates, the grant, and the receive limit runs out. */
  function ClosesAt(g: Grant, ctx: GrantContext): int {
    Min(Min(ctx.approverCert.notAfter, ctx.subjectCert.notAfter),
        Min(g.fields.notAfter, Wrapped(ctx.firstReceipt, ctx.tRecvSeconds) + 1))
  }

  /** Once accepted at any time, a grant is accepted at exactly the times of this interval. */
  lemma AcceptanceIff(g: Grant, ctx: GrantContext, t0: uint64, t: uint64)
    requires ListsHeld(ctx) && VerifyGrant(g, ctx.(nowMS := t0)) == None
    ensures VerifyGrant(g, ctx.(nowMS := t)) == None <==> OpensAt(ctx) <= t < ClosesAt(g, ctx)
  {
    hide VerifySigned, Has, Covers, ValidateCertChainNoClock, Add64, Times1000;
  }

  /** Acceptance at two times is acceptance at every time between. */
  lemma AcceptanceIsInterval(g: Grant, ctx: GrantContext, t1: uint64, t2: uint64, t3: uint64)
    requires ListsHeld(ctx) && t1 <= t2 <= t3
    requires VerifyGrant(g, ctx.(nowMS := t1)) == None && VerifyGrant(g, ctx.(nowMS := t3)) == None
    ensures VerifyGrant(g, ctx.(nowMS := t2)) == None
  {
    hide VerifyGrant, OpensAt, ClosesAt;
    AcceptanceIff(g, ctx, t1, t1);
    AcceptanceIff(g, ctx, t1, t2);
    AcceptanceIff(g, ctx, t1, t3);
  }

  /** Any two accepting times differ by less than the 30-day cap, whatever the
      grant's own deadline: the clocked approver window rules out wrap-around. */
  lemma AcceptanceIsShort(g: Grant, ctx: GrantContext, t1: uint64, t2: uint64)
    requires ListsHeld(ctx) && t1 <= t2
    requires VerifyGrant(g, ctx.(nowMS := t1)) == None && VerifyGrant(g, ctx.(nowMS := t2)) == None
    ensures t2 - t1 < MAX_PRIVILEGED_LIFETIME_MS
  {
    hide VerifySigned, Has, Covers, ValidateCert, NotExpired, Revoked;
    ClockedLifetime(ctx.approverCert, ctx.trustedCAs, t1);
    ClockedLifetime(ctx.approverCert, ctx.trustedCAs, t2);
  }
}
