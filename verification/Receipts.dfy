/**
 Minting a receipt from an observed run, and verifying it offline.
 */
module Receipts {
  import opened Octets
  import opened Results
  import opened Crypto
  import opened Certs
  import opened Validation
  import opened Spans
  import opened Hex
  import Resources
  import Trailers
  import Capture

  const METHOD_SUBPROCESS: byte := 1

  // Verification -------------------------------------------------------------

  // "bol:"
  const SCHEME: Bytes := [98, 111, 108, 58]

  function ResourcePrefix(pub: Bytes): (p: Bytes)
    ensures |p| == 21
  {
    SCHEME + Fingerprint(pub) + [SLASH]
  }

  function VerifyReceipt(x: Span, cert: Cert, trusted: seq<Bytes>): Result<()>
    requires PairsHeld(cert)
  {
    var _ :- VerifySpanSig(x);
    var _ :- ValidateCertChainNoClock(cert, trusted);
    if !Has(cert.roleBits, ROLE_EXECUTOR) then Err(NotExecutor)
    else if cert.sigPubkey != x.fields.executor then Err(NotSignersCert)
    else if !(ResourcePrefix(cert.sigPubkey) <= x.fields.resourceID) then Err(ForeignFingerprint)
    else Ok(())
  }

  /** A receipt is accepted exactly when its span is signed under the span tag by the executor it
      names, the chain accepts the certificate, which has the executor role and is that
      executor's, and the resource begins with the executor's own fingerprint; otherwise
      the error is that of the first of these that fails. */
  lemma ReceiptVerdict(x: Span, cert: Cert, trusted: seq<Bytes>)
    requires PairsHeld(cert)
    ensures var sig := VerifySigned(0x03, x.tbs, x.sig, x.fields.executor);
            var chain := ValidateCertChainNoClock(cert, trusted);
            var own := [98, 111, 108, 58] + Fingerprint(x.fields.executor) + [47] <= x.fields.resourceID;
            VerifyReceipt(x, cert, trusted) ==
            if sig.Err? then sig
            else if chain.Err? then chain
            else if cert.roleBits / 4 % 2 == 0 then Err(NotExecutor)
            else if cert.sigPubkey != x.fields.executor then Err(NotSignersCert)
            else if !own then Err(ForeignFingerprint)
            else Ok(())
  {
    hide VerifySigned, ValidateCertChainNoClock, Fingerprint;
  }

  /** What an accepted receipt proves: the span re-encodes to the very bytes its executor
      signed, and that executor's certificate is signed, over its own bytes, by as many
      different trusted CAs as it lists. */
  lemma AcceptedReceipt(x: Span, receipt: Bytes, cert: Cert, certBytes: Bytes, trusted: seq<Bytes>)
    requires SpanIn(x, receipt, []) && CertIn(cert, certBytes) && PairsHeld(cert)
    requires VerifyReceipt(x, cert, trusted).Ok?
    ensures receipt == SpanTbs(x.fields) + x.sig
    ensures VerifySigned(0x03, SpanTbs(x.fields), x.sig, cert.sigPubkey).Ok? && cert.sigPubkey == x.fields.executor
    ensures cert.tbs == CertTbs(cert) && |Signers(PairsOf(cert.caSigs, cert.caSigCount))| == cert.caSigCount >= 1
    ensures forall p :: p in PairsOf(cert.caSigs, cert.caSigCount) ==>
              p.key in trusted && VerifySigned(0x01, cert.tbs, p.sig, p.key).Ok?
  {
    hide SpanIn, CertIn, SpanTbs, CertTbs, VerifySigned, ValidateCertChainNoClock, Fingerprint, VerifyReceipt;
    SpanInIff(x, receipt, []);
    assert (x.tbs + x.sig) + [] == x.tbs + x.sig;
    ReceiptVerdict(x, cert, trusted);
    CertInIff(cert, certBytes);
    QuorumIsReal(cert, certBytes, trusted);
  }

  // Minting ------------------------------------------------------------------

  function ResourceID(pub: Bytes, ns: Bytes, path: Bytes): Bytes {
    ResourcePrefix(pub) + ns + [SLASH] + path
  }

  /** The detached profile: version 2, subprocess, volatile, zero origin. */
  function ReceiptFields(pub: Bytes32, resource: Bytes, spanID: Bytes16, traceID: Bytes16, now: uint64,
                         captured: Bytes): SpanFields {
    SpanFields(2, spanID, traceID, resource, METHOD_SUBPROCESS, VOLATILITY_VOLATILE, Zeros(32), now,
               Blake2s256(captured), pub)
  }

  // What `lastro run` is asked to do.
  datatype Flags = Flags(keyDir: Bytes, ns: Bytes, path: Bytes, trace: Bytes, maxOutput: int, saveOutput: bool)

  // What the host answers: git's HEAD, the key file, two draws of entropy, the child's
  // writes and exit, the clock, and whether starting it and writing files succeeded.
  datatype Host = Host(
    head: Option<Bytes>, keyFile: Option<Bytes>, traceEntropy: Option<Bytes16>, spanEntropy: Option<Bytes16>,
    starts: bool, writes: seq<Capture.Event>, exit: Option<int>, saves: bool, now: uint64, stores: bool)

  datatype Outcome = Usage | NoReceipt | NoStart | Minted(receipt: Bytes, captured: Bytes, exitCode: int)

  predicate KeyRead(host: Host) {
    host.keyFile.Some? && |host.keyFile.value| == 32
  }

  /** A given trace id must be 32 hex digits; otherwise one is drawn. */
  predicate TraceGiven(f: Flags) {
    DecodeHex(f.trace).Some? && |DecodeHex(f.trace).value| == 16
  }

  function TraceID(f: Flags, host: Host): Option<Bytes16> {
    if f.trace == [] then host.traceEntropy
    else if TraceGiven(f) then Some(DecodeHex(f.trace).value)
    else None
  }

  /** The child ran to its end and everything about it could be recorded. */
  predicate Observed(f: Flags, host: Host) {
    && host.exit.Some? && !Capture.Run(f.maxOutput, host.writes).exceeded
    && (f.saveOutput ==> host.saves) && host.spanEntropy.Some? && host.stores
  }

  ghost predicate AcceptsFlags(f: Flags, host: Host) {
    f.keyDir != [] && Accepts(f.ns, f.path, host.head)
  }

  ghost predicate Accepts(ns: Bytes, path: Bytes, head: Option<Bytes>) {
    && ns != [] && path != []
    && Resources.Resolve(path, head).Some?
    && Resources.ValidResource(ns, Resources.Resolve(path, head).value)
  }

  ghost function MintedFields(ns: Bytes, path: Bytes, head: Option<Bytes>, seed: Bytes32, spanID: Bytes16,
                              traceID: Bytes16, now: uint64, captured: Bytes): SpanFields
    requires Accepts(ns, path, head)
  {
    var pub := EdPublic(seed);
    ReceiptFields(pub, ResourceID(pub, ns, Resources.Resolve(path, head).value), spanID, traceID, now, captured)
  }

  /** Every write of the child, in the order the mutex let them in. */
  method CaptureAll(writes: seq<Capture.Event>, max: int) returns (c: Capture.Captured)
    ensures c == Capture.Run(max, writes)
  {
    var w := new Capture.CaptureWriter(max);
    for i := 0 to |writes|
      invariant w.max == max && Capture.Captured(w.buf, w.exceeded) == Capture.Run(max, writes[..i])
    {
      var _ := w.Write(writes[i].chunk);
      assert writes[..i + 1][..i] == writes[..i];
    }
    assert writes[..|writes|] == writes;
    c := Capture.Captured(w.buf, w.exceeded);
  }

  /** All the conditions under which a receipt is minted. */
  ghost predicate Mints(f: Flags, host: Host) {
    AcceptsFlags(f, host) && KeyRead(host) && TraceID(f, host).Some? && host.starts && Observed(f, host)
  }

  /** `r` holds the child's exit code, all its output sealed with that code, and the
      signed span over both. */
  ghost predicate IsMinted(f: Flags, host: Host, r: Outcome) {
    && Mints(f, host) && r.Minted?
    && r.exitCode == host.exit.value
    && r.captured == Trailers.Sealed(Capture.Run(f.maxOutput, host.writes).buf, r.exitCode)
    && var fields := MintedFields(f.ns, f.path, host.head, host.keyFile.value, host.spanEntropy.value,
                                  TraceID(f, host).value, host.now, r.captured);
    r.receipt == SpanTbs(fields) + SignTagged(DOMAIN_SPAN, SpanTbs(fields), host.keyFile.value)
  }

  /** Whatever goes wrong with the run or its record, there is no receipt. */
  lemma FailuresRefuse(f: Flags, host: Host)
    ensures f.keyDir == [] || f.ns == [] || f.path == [] ==> !Mints(f, host)
    ensures host.keyFile == None || host.spanEntropy == None || host.exit == None ==> !Mints(f, host)
    ensures f.trace == [] && host.traceEntropy == None ==> !Mints(f, host)
    ensures !host.starts || !host.stores || (f.saveOutput && !host.saves) ==> !Mints(f, host)
    ensures f.maxOutput >= 0 && |Capture.Merged(host.writes)| > f.maxOutput ==> !Mints(f, host)
    ensures f.maxOutput >= 0 && |Capture.Merged(host.writes)| <= f.maxOutput && Mints(f, host.(writes := [])) ==> Mints(f, host)
  {
    hide Resources.Resolve, Resources.ValidResource, Capture.Run, Capture.Merged, DecodeHex;
    Capture.AllOrNothing(f.maxOutput, host.writes);
    Capture.MergedNothing();
  }

  /** cmdRun after flag parsing: resolve, validate, read the key, observe, and mint unless
      anything about the observation is incomplete. */
  method CmdRun(f: Flags, host: Host) returns (r: Outcome)
    ensures r == Usage <==> !AcceptsFlags(f, host) || (KeyRead(host) && f.trace != [] && !TraceGiven(f))
    ensures r == NoStart <==> AcceptsFlags(f, host) && KeyRead(host) && TraceID(f, host).Some? && !host.starts
    ensures r.Minted? <==> Mints(f, host)
    ensures r.Minted? ==> IsMinted(f, host, r)
  {
    hide Resources.Resolve, Resources.ValidResource, Capture.Run, Trailers.Trailer, SpanTbs;
    if f.keyDir == [] || f.ns == [] || f.path == [] {
      return Usage;
    }
    var resolved := Resources.ResolveShaTemplate(f.path, host.head);
    if resolved.None? {
      return Usage;
    }
    var ok := Resources.ValidateResource(f.ns, resolved.value);
    if !ok {
      return Usage;
    }
    if host.keyFile.None? || |host.keyFile.value| != 32 {
      return NoReceipt;
    }
    var seed := host.keyFile.value;
    var pub := EdPublic(seed);
    var resource := ResourceID(pub, f.ns, resolved.value);
    ResourceFits(pub, f.ns, resolved.value);
    if |resource| > MAX_RESOURCE {
      return Usage;
    }
    if f.trace != [] && !TraceGiven(f) {
      return Usage;
    }
    var traceID := TraceID(f, host);
    if traceID.None? {
      return NoReceipt;
    }
    if !host.starts {
      return NoStart;
    }
    var cap := CaptureAll(host.writes, f.maxOutput);
    if host.exit.None? || cap.exceeded {
      return NoReceipt;
    }
    var captured := cap.buf + Trailers.Trailer(host.exit.value);
    if (f.saveOutput && !host.saves) || host.spanEntropy.None? {
      return NoReceipt;
    }
    var fields := ReceiptFields(pub, resource, host.spanEntropy.value, traceID.value, host.now, captured);
    var receipt := BuildSpan(fields, seed);
    if receipt.Err? || !host.stores {
      return NoReceipt;
    }
    return Minted(receipt.value, captured, host.exit.value);
  }

  /** The grammar keeps every resource id at 234 bytes or fewer. */
  lemma ResourceFits(pub: Bytes, ns: Bytes, path: Bytes)
    requires Resources.ValidResource(ns, path)
    ensures |ResourceID(pub, ns, path)| <= 234 <= MAX_RESOURCE
    ensures ResourcePrefix(pub) <= ResourceID(pub, ns, path)
  {
    hide Resources.Segment, Resources.BadSegment, Fingerprint;
  }

  // What a receipt is worth --------------------------------------------------

  /** A minted receipt parses back to its fields and verifies with any certificate
      that is valid for the key and carries the executor role. */
  lemma MintThenVerify(ns: Bytes, path: Bytes, head: Option<Bytes>, seed: Bytes32, spanID: Bytes16, traceID: Bytes16,
                       now: uint64, captured: Bytes, cert: Cert, trusted: seq<Bytes>)
    requires Accepts(ns, path, head)
    requires PairsHeld(cert) && ValidateCertChainNoClock(cert, trusted).Ok? && Has(cert.roleBits, ROLE_EXECUTOR)
    requires cert.sigPubkey == EdPublic(seed)
    ensures var f := MintedFields(ns, path, head, seed, spanID, traceID, now, captured);
            var x := Span(f, SpanTbs(f), SignTagged(DOMAIN_SPAN, SpanTbs(f), seed));
            SpanIn(x, x.tbs + x.sig, []) && VerifyReceipt(x, cert, trusted) == Ok(())
  {
    hide SpanIn, SpanTbs, VerifySpanSig, ValidateCertChainNoClock, Resources.ValidResource, Resources.Resolve, ResourceID,
         ResourcePrefix, Has;
    var p := Resources.Resolve(path, head).value;
    ResourceFits(EdPublic(seed), ns, p);
    BuiltSpanParses(MintedFields(ns, path, head, seed, spanID, traceID, now, captured), seed);
  }

  /** What a receipt says of the run, field by field. */
  ghost predicate Describes(x: SpanFields, f: Flags, host: Host, captured: Bytes)
    requires Mints(f, host)
  {
    var pub := EdPublic(host.keyFile.value);
    && x.version == 2 && x.methodID == 1 && x.volatility == 1 && x.origin == Zeros(32)
    && x.spanID == host.spanEntropy.value
    && x.traceID == (if f.trace == [] then host.traceEntropy.value else DecodeHex(f.trace).value)
    && x.observedAt == host.now && x.executor == pub && x.digest == Blake2s256(captured)
    && x.resourceID == [98, 111, 108, 58] + Fingerprint(pub) + [47] + f.ns + [47]
                       + Resources.Resolve(f.path, host.head).value
  }

  lemma FieldsDescribe(f: Flags, host: Host, captured: Bytes)
    requires Mints(f, host)
    ensures Describes(MintedFields(f.ns, f.path, host.head, host.keyFile.value, host.spanEntropy.value,
                                   TraceID(f, host).value, host.now, captured), f, host, captured)
  {
    hide Resources.Resolve, Resources.ValidResource, Fingerprint, Capture.Run, DecodeHex;
  }

  /** What `lastro run` writes, `lastro verify` accepts: the receipt parses, in one way, to
      a span over the captured stream that verifies with any chain-valid executor
      certificate for the key. */
  lemma RunThenVerify(f: Flags, host: Host, r: Outcome, cert: Cert, trusted: seq<Bytes>)
    requires IsMinted(f, host, r)
    requires PairsHeld(cert) && ValidateCertChainNoClock(cert, trusted).Ok? && Has(cert.roleBits, ROLE_EXECUTOR)
    requires cert.sigPubkey == EdPublic(host.keyFile.value)
    ensures exists x :: SpanIn(x, r.receipt, [])
    ensures forall x :: SpanIn(x, r.receipt, []) ==>
              VerifyReceipt(x, cert, trusted) == Ok(()) && Describes(x.fields, f, host, r.captured)
  {
    hide SpanIn, SpanTbs, VerifyReceipt, ValidateCertChainNoClock, Has, Accepts, ResourceID, Trailers.Sealed, Capture.Run,
         Resources.Resolve;
    var seed := host.keyFile.value;
    var fields := MintedFields(f.ns, f.path, host.head, seed, host.spanEntropy.value, TraceID(f, host).value, host.now, r.captured);
    var y := Span(fields, SpanTbs(fields), SignTagged(DOMAIN_SPAN, SpanTbs(fields), seed));
    MintThenVerify(f.ns, f.path, host.head, seed, host.spanEntropy.value, TraceID(f, host).value, host.now, r.captured,
                   cert, trusted);
    FieldsDescribe(f, host, r.captured);
    forall x | SpanIn(x, r.receipt, [])
      ensures x == y
    {
      SpanInUnique(x, y, r.receipt, [], []);
    }
  }

  /** Equal digests mean equal observations: same merged output, same exit code,
      unless the hash collides on the two streams. */
  lemma DigestPinsOutcome(output1: Bytes, exit1: int, output2: Bytes, exit2: int)
    requires Blake2s256(Trailers.Sealed(output1, exit1)) == Blake2s256(Trailers.Sealed(output2, exit2))
    requires NoCollision({Trailers.Sealed(output1, exit1), Trailers.Sealed(output2, exit2)})
    ensures output1 == output2 && exit1 == exit2
  {
    hide Trailers.Sealed;
    Trailers.TrailerUnambiguous(output1, exit1, output2, exit2);
  }
}
