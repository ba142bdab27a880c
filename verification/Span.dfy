/**
 Spans, the signed records a receipt consists of.
 */
module Spans {
  import opened Octets
  import opened Results
  import opened Crypto
  import opened Layout
  import opened Cursors

  const MAX_RESOURCE := 256
  const LEN_SIG := 64

  const VOLATILITY_VOLATILE: byte := 1

  // Everything a span signs over.
  datatype SpanFields = SpanFields(
    version: byte, spanID: Bytes16, traceID: Bytes16, resourceID: Bytes,
    methodID: byte, volatility: byte, origin: Bytes32, observedAt: uint64, digest: Bytes32, executor: Bytes32)

  datatype Span = Span(fields: SpanFields, tbs: Bytes, sig: Bytes)

  // Layout -------------------------------------------------------------------

  function ObservationLayout(next: Fields): Fields {
    Then(Num(1), Then(Num(1), Then(Raw(32), Then(Num(8), Then(Raw(32), Then(Raw(32), next))))))
  }

  function SpanTbsLayout(next: Fields): Fields {
    Then(Num(1), Then(Raw(16), Then(Raw(16), Then(Counted(2, MAX_RESOURCE, 1), ObservationLayout(next)))))
  }

  function SpanLayout(): Fields {
    SpanTbsLayout(Then(Raw(LEN_SIG), End))
  }

  function SpanValues(f: SpanFields, next: Values): Values {
    Cons(Value(f.version, []), Cons(Value(0, f.spanID), Cons(Value(0, f.traceID),
    Cons(Value(|f.resourceID|, f.resourceID),
    Cons(Value(f.methodID, []), Cons(Value(f.volatility, []), Cons(Value(0, f.origin),
    Cons(Value(f.observedAt, []), Cons(Value(0, f.digest), Cons(Value(0, f.executor), next))))))))))
  }

  /** The to-be-signed region. */
  function SpanTbs(f: SpanFields): Bytes {
    EncodeAll(SpanTbsLayout(End), SpanValues(f, Nil))
  }

  // Reading ------------------------------------------------------------------

  /** `x` is the span in front of `s`, and `t` is left over. The TBS runs from the
      span's own start to its signature. */
  ghost predicate SpanIn(x: Span, s: Bytes, t: Bytes) {
    && ReadAll(SpanLayout(), s) == Ok(Parsed(SpanValues(x.fields, Cons(Value(0, x.sig), Nil)), t))
    && |t| + LEN_SIG <= |s| && x.tbs == s[..|s| - |t| - LEN_SIG]
  }

  // The middle of a span: what was done, when, and by whom.
  datatype Observation = Observation(
    methodID: byte, volatility: byte, origin: Bytes32, observedAt: uint64, digest: Bytes32, executor: Bytes32)

  method ReadObservation(c: Cursor, ghost next: Fields) returns (r: Result<Observation>)
    requires OnCourse(c.plan, c.buf, c.pos) && c.plan.Reading? && c.plan.todo == ObservationLayout(next)
    modifies c
    ensures OnCourse(c.plan, c.buf, c.pos) && old(c.pos) <= c.pos <= |c.buf|
    ensures r.Ok? ==> c.plan.Reading? && c.plan.todo == next
    ensures r.Ok? ==> old(c.plan).outcome ==
                      Prepend(Value(r.value.methodID, []), Prepend(Value(r.value.volatility, []),
                      Prepend(Value(0, r.value.origin), Prepend(Value(r.value.observedAt, []),
                      Prepend(Value(0, r.value.digest), Prepend(Value(0, r.value.executor), c.plan.outcome))))))
    ensures r.Err? ==> old(c.plan).outcome == Err(r.error)
  {
    hide Run, Read, OnCourse, Yields, Fails;
    var methodID :- c.U8();
    var volatility :- c.U8();
    var origin :- c.Take(32);
    var observedAt :- c.U64be();
    var digest :- c.Take(32);
    var executor :- c.Take(32);
    return Ok(Observation(methodID, volatility, origin, observedAt, digest, executor));
  }

  method ReadSpan(c: Cursor) returns (r: Result<Span>)
    requires OnCourse(c.plan, c.buf, c.pos) && c.pos <= |c.buf|
    modifies c
    ensures OnCourse(c.plan, c.buf, c.pos) && old(c.pos) <= c.pos <= |c.buf|
    ensures r.Ok? ==> SpanIn(r.value, c.buf[old(c.pos)..], c.buf[c.pos..])
    ensures r.Err? ==> ReadAll(SpanLayout(), c.buf[old(c.pos)..]) == Err(r.error)
  {
    hide Run, Read, ReadAll, OnCourse, Yields, Fails, ObservationLayout;
    c.Begin(SpanLayout());
    var start := c.pos;
    var version :- c.U8();
    var spanID :- c.Take(16);
    var traceID :- c.Take(16);
    var resourceID :- c.Field16(MAX_RESOURCE);
    var o :- ReadObservation(c, Then(Raw(LEN_SIG), End));
    var tbs := c.buf[start..c.pos];
    var sig :- c.Take(LEN_SIG);
    c.Finished();
    SliceRead(c.buf, start, c.pos - LEN_SIG, c.pos);
    var fields := SpanFields(version, spanID, traceID, resourceID,
                             o.methodID, o.volatility, o.origin, o.observedAt, o.digest, o.executor);
    return Ok(Span(fields, tbs, sig));
  }

  method ParseSpan(buf: Bytes) returns (r: Result<Span>)
    ensures r.Ok? ==> SpanIn(r.value, buf, []) && Decode(SpanLayout(), buf).Ok?
    ensures r.Err? ==> Decode(SpanLayout(), buf) == Err(r.error)
  {
    hide ReadAll, OnCourse;
    var c := new Cursor(buf);
    assert buf[0..] == buf;
    var s :- ReadSpan(c);
    if c.pos != |buf| {
      return Err(TrailingBytes);
    }
    return Ok(s);
  }

  // Writing ------------------------------------------------------------------

  method EncodeSpanTBS(f: SpanFields) returns (r: Result<Bytes>)
    ensures r == if |f.resourceID| > MAX_RESOURCE then Err(FieldBounds) else Ok(SpanTbs(f))
  {
    if |f.resourceID| > MAX_RESOURCE {
      return Err(FieldBounds);
    }
    var out := [];
    out := out + [f.version];
    out := out + f.spanID;
    out := out + f.traceID;
    Associative(out, BE(2, |f.resourceID|), f.resourceID);
    out := out + BE(2, |f.resourceID|);
    out := out + f.resourceID;
    out := out + [f.methodID];
    out := out + [f.volatility];
    out := out + f.origin;
    out := out + BE(8, f.observedAt);
    out := out + f.digest;
    out := out + f.executor;
    OneByte(f.version);
    OneByte(f.methodID);
    OneByte(f.volatility);
    Appended(SpanTbsLayout(End), SpanValues(f, Nil));
    return Ok(out);
  }

  method BuildSpan(f: SpanFields, seed: Bytes) returns (r: Result<Bytes>)
    ensures r == if |f.resourceID| > MAX_RESOURCE then Err(FieldBounds)
                 else Ok(SpanTbs(f) + SignTagged(DOMAIN_SPAN, SpanTbs(f), seed))
  {
    var tbs :- EncodeSpanTBS(f);
    return Ok(tbs + SignTagged(DOMAIN_SPAN, tbs, seed));
  }

  function VerifySpanSig(x: Span): Result<()> {
    VerifySigned(DOMAIN_SPAN, x.tbs, x.sig, x.fields.executor)
  }

  /** The TBS byte for byte. */
  lemma SpanBytes(f: SpanFields)
    ensures SpanTbs(f) ==
            [f.version] + f.spanID + f.traceID + BE(2, |f.resourceID|) + f.resourceID + [f.methodID] + [f.volatility]
            + f.origin + BE(8, f.observedAt) + f.digest + f.executor
  {
    hide BE, EncodeAll;
    var start := [] + [f.version] + f.spanID + f.traceID;
    assert [] + [f.version] == [f.version];
    Associative(start, BE(2, |f.resourceID|), f.resourceID);
    OneByte(f.version);
    OneByte(f.methodID);
    OneByte(f.volatility);
    Appended(SpanTbsLayout(End), SpanValues(f, Nil));
  }

  // Laws ---------------------------------------------------------------------

  lemma SpanFits(f: SpanFields, sig: Bytes)
    ensures FitsAll(SpanLayout(), SpanValues(f, Cons(Value(0, sig), Nil))) <==>
            |f.resourceID| <= MAX_RESOURCE && |sig| == LEN_SIG
  {
    Widths();
  }

  lemma SpanWhole(f: SpanFields, sig: Bytes)
    ensures EncodeAll(SpanLayout(), SpanValues(f, Cons(Value(0, sig), Nil))) == SpanTbs(f) + sig
  {
    hide EncodeAll, BE;
    Appended(SpanLayout(), SpanValues(f, Cons(Value(0, sig), Nil)));
    Appended(SpanTbsLayout(End), SpanValues(f, Nil));
  }

  /** Parser and encoder are inverse: a span is read exactly where its re-encoded
      TBS and signature stand. */
  lemma SpanInIff(x: Span, s: Bytes, t: Bytes)
    ensures SpanIn(x, s, t) <==>
            && |x.fields.resourceID| <= MAX_RESOURCE && |x.sig| == LEN_SIG
            && x.tbs == SpanTbs(x.fields) && s == (x.tbs + x.sig) + t
  {
    hide ReadAll, SpanLayout, SpanValues, SpanTbs, FitsAll, EncodeAll;
    var vs := SpanValues(x.fields, Cons(Value(0, x.sig), Nil));
    ReadAllIff(SpanLayout(), vs, s, t);
    SpanFits(x.fields, x.sig);
    SpanWhole(x.fields, x.sig);
  }

  lemma SpanInUnique(x: Span, y: Span, s: Bytes, t: Bytes, u: Bytes)
    requires SpanIn(x, s, t) && SpanIn(y, s, u)
    ensures x == y && t == u
  {
    hide ReadAll, SpanLayout;
  }

  /** A built span parses back to its fields, and its signature verifies when the
      key is the executor's. */
  lemma BuiltSpanParses(f: SpanFields, seed: Bytes)
    requires |f.resourceID| <= MAX_RESOURCE
    ensures var x := Span(f, SpanTbs(f), SignTagged(DOMAIN_SPAN, SpanTbs(f), seed));
            && SpanIn(x, x.tbs + x.sig, [])
            && (f.executor == EdPublic(seed) ==> VerifySpanSig(x) == Ok(()))
  {
    hide SpanIn, SpanTbs, VerifySigned;
    var x := Span(f, SpanTbs(f), SignTagged(DOMAIN_SPAN, SpanTbs(f), seed));
    assert (x.tbs + x.sig) + [] == x.tbs + x.sig;
    SpanInIff(x, x.tbs + x.sig, []);
    SignedVerifies(DOMAIN_SPAN, x.tbs, seed);
  }

  // Spans one after another ---------------------------------------------------

  function Stream(xs: seq<Span>): Bytes {
    if xs == [] then [] else (xs[0].tbs + xs[0].sig) + Stream(xs[1..])
  }

  /** Reading span after span off `s` gives `xs` and ends at the end. */
  ghost predicate SpansIn(xs: seq<Span>, s: Bytes) {
    if xs == [] then s == [] else exists t :: SpanIn(xs[0], s, t) && SpansIn(xs[1..], t)
  }

  ghost predicate WellFormed(x: Span) {
    |x.fields.resourceID| <= MAX_RESOURCE && |x.sig| == LEN_SIG && x.tbs == SpanTbs(x.fields)
  }

  /** A concatenation of encoded spans splits back into them, each with its own TBS. */
  lemma {:induction false} StreamSplits(xs: seq<Span>)
    requires forall x :: x in xs ==> WellFormed(x)
    ensures SpansIn(xs, Stream(xs))
  {
    hide SpanIn, SpanTbs;
    if xs != [] {
      assert WellFormed(xs[0]);
      SpanInIff(xs[0], Stream(xs), Stream(xs[1..]));
      StreamSplits(xs[1..]);
      assert SpanIn(xs[0], Stream(xs), Stream(xs[1..])) && SpansIn(xs[1..], Stream(xs[1..]));
    }
  }

  lemma {:induction false} StreamUnique(xs: seq<Span>, ys: seq<Span>, s: Bytes)
    requires SpansIn(xs, s) && SpansIn(ys, s)
    ensures xs == ys
  {
    hide SpanIn, SpanTbs;
    if xs != [] && ys != [] {
      var t :| SpanIn(xs[0], s, t) && SpansIn(xs[1..], t);
      var u :| SpanIn(ys[0], s, u) && SpansIn(ys[1..], u);
      SpanInUnique(xs[0], ys[0], s, t, u);
      StreamUnique(xs[1..], ys[1..], t);
      assert xs == [xs[0]] + xs[1..] && ys == [ys[0]] + ys[1..];
    } else if xs != [] {
      NoSpanInNothing(xs[0]);
    } else if ys != [] {
      NoSpanInNothing(ys[0]);
    }
  }

  lemma NoSpanInNothing(x: Span)
    ensures forall t :: !SpanIn(x, [], t)
  {
    hide ReadAll;
  }

  /** Cut short anywhere an accepted span is truncated, and with anything behind it there
      are trailing bytes. */
  lemma SpanNeighbours(x: Span, s: Bytes, t: Bytes)
    requires SpanIn(x, s, [])
    ensures t < s ==> Decode(SpanLayout(), t) == Err(Truncated)
    ensures s < t ==> Decode(SpanLayout(), t) == Err(TrailingBytes)
  {
    hide Run, SpanLayout;
    DecodeNeighbours(SpanLayout(), s, t);
  }
}
