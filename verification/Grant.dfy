/**
 Grants: one approver's permission for one agent, one executor, one resource and
 one exact action.
 */
module Grants {
  import opened Octets
  import opened Results
  import opened Layout
  import opened Cursors
  import opened Spans

  datatype GrantFields = GrantFields(
    version: byte, grantID: Bytes16, intentID: Bytes16, approver: Bytes32, subject: Bytes32, executor: Bytes32,
    resourceID: Bytes, actionDigest: Bytes32, notAfter: uint64)

  datatype Grant = Grant(fields: GrantFields, tbs: Bytes, sig: Bytes)

  function PartiesLayout(next: Fields): Fields {
    Then(Raw(16), Then(Raw(32), Then(Raw(32), Then(Raw(32), next))))
  }

  function TermsLayout(next: Fields): Fields {
    Then(Counted(2, MAX_RESOURCE, 1), Then(Raw(32), Then(Num(8), next)))
  }

  function GrantTbsLayout(next: Fields): Fields {
    Then(Num(1), Then(Raw(16), PartiesLayout(TermsLayout(next))))
  }

  function GrantLayout(): Fields {
    GrantTbsLayout(Then(Raw(LEN_SIG), End))
  }

  function GrantValues(f: GrantFields, next: Values): Values {
    Cons(Value(f.version, []), Cons(Value(0, f.grantID),
    Cons(Value(0, f.intentID), Cons(Value(0, f.approver), Cons(Value(0, f.subject), Cons(Value(0, f.executor),
    Cons(Value(|f.resourceID|, f.resourceID), Cons(Value(0, f.actionDigest), Cons(Value(f.notAfter, []), next)))))))))
  }

  function GrantTbs(f: GrantFields): Bytes {
    EncodeAll(GrantTbsLayout(End), GrantValues(f, Nil))
  }

  /** `x` is what the parser makes of `s`. */
  ghost predicate GrantIn(x: Grant, s: Bytes) {
    && ReadAll(GrantLayout(), s) == Ok(Parsed(GrantValues(x.fields, Cons(Value(0, x.sig), Nil)), []))
    && LEN_SIG <= |s| && x.tbs == s[..|s| - LEN_SIG]
  }

  method ReadParties(c: Cursor, ghost next: Fields) returns (r: Result<(Bytes16, Bytes32, Bytes32, Bytes32)>)
    requires OnCourse(c.plan, c.buf, c.pos) && c.plan.Reading? && c.plan.todo == PartiesLayout(next)
    modifies c
    ensures OnCourse(c.plan, c.buf, c.pos) && old(c.pos) <= c.pos <= |c.buf|
    ensures r.Ok? ==> c.plan.Reading? && c.plan.todo == next
    ensures r.Ok? ==> old(c.plan).outcome ==
                      Prepend(Value(0, r.value.0), Prepend(Value(0, r.value.1),
                      Prepend(Value(0, r.value.2), Prepend(Value(0, r.value.3), c.plan.outcome))))
    ensures r.Err? ==> old(c.plan).outcome == Err(r.error)
  {
    hide Run, Read, OnCourse, Yields, Fails;
    var intentID :- c.Take(16);
    var approver :- c.Take(32);
    var subject :- c.Take(32);
    var executor :- c.Take(32);
    return Ok((intentID, approver, subject, executor));
  }

  method ReadTerms(c: Cursor, ghost next: Fields) returns (r: Result<(Bytes, Bytes32, uint64)>)
    requires OnCourse(c.plan, c.buf, c.pos) && c.plan.Reading? && c.plan.todo == TermsLayout(next)
    modifies c
    ensures OnCourse(c.plan, c.buf, c.pos) && old(c.pos) <= c.pos <= |c.buf|
    ensures r.Ok? ==> c.plan.Reading? && c.plan.todo == next
    ensures r.Ok? ==> old(c.plan).outcome ==
                      Prepend(Value(|r.value.0|, r.value.0), Prepend(Value(0, r.value.1),
                      Prepend(Value(r.value.2, []), c.plan.outcome)))
    ensures r.Err? ==> old(c.plan).outcome == Err(r.error)
  {
    hide Run, Read, OnCourse, Yields, Fails;
    var resourceID :- c.Field16(MAX_RESOURCE);
    var actionDigest :- c.Take(32);
    var notAfter :- c.U64be();
    return Ok((resourceID, actionDigest, notAfter));
  }

  method ParseGrant(buf: Bytes) returns (r: Result<Grant>)
    ensures r.Ok? ==> GrantIn(r.value, buf) && Decode(GrantLayout(), buf).Ok?
    ensures r.Err? ==> Decode(GrantLayout(), buf) == Err(r.error)
  {
    hide Run, Read, ReadAll, OnCourse, Yields, Fails, PartiesLayout, TermsLayout;
    var c := new Cursor(buf);
    assert buf[0..] == buf;
    c.Begin(GrantLayout());
    var version :- c.U8();
    var grantID :- c.Take(16);
    var p :- ReadParties(c, TermsLayout(Then(Raw(LEN_SIG), End)));
    var t :- ReadTerms(c, Then(Raw(LEN_SIG), End));
    var tbs := buf[..c.pos];
    var sig :- c.Take(LEN_SIG);
    c.Finished();
    if c.pos != |buf| {
      return Err(TrailingBytes);
    }
    return Ok(Grant(GrantFields(version, grantID, p.0, p.1, p.2, p.3, t.0, t.1, t.2), tbs, sig));
  }

  method EncodeGrantTBS(f: GrantFields) returns (r: Result<Bytes>)
    ensures r == if |f.resourceID| > MAX_RESOURCE then Err(FieldBounds) else Ok(GrantTbs(f))
  {
    if |f.resourceID| > MAX_RESOURCE {
      return Err(FieldBounds);
    }
    var out := [] + [f.version];
    out := out + f.grantID;
    out := out + f.intentID;
    out := out + f.approver;
    out := out + f.subject;
    out := out + f.executor;
    Associative(out, BE(2, |f.resourceID|), f.resourceID);
    out := out + BE(2, |f.resourceID|);
    out := out + f.resourceID;
    out := out + f.actionDigest;
    out := out + BE(8, f.notAfter);
    OneByte(f.version);
    Appended(GrantTbsLayout(End), GrantValues(f, Nil));
    return Ok(out);
  }

  /** The TBS byte for byte. */
  lemma GrantBytes(f: GrantFields)
    ensures GrantTbs(f) ==
            [f.version] + f.grantID + f.intentID + f.approver + f.subject + f.executor
            + BE(2, |f.resourceID|) + f.resourceID + f.actionDigest + BE(8, f.notAfter)
  {
    hide BE, EncodeAll;
    var start := [] + [f.version] + f.grantID + f.intentID + f.approver + f.subject + f.executor;
    assert [] + [f.version] == [f.version];
    Associative(start, BE(2, |f.resourceID|), f.resourceID);
    OneByte(f.version);
    Appended(GrantTbsLayout(End), GrantValues(f, Nil));
  }

  // Laws ---------------------------------------------------------------------

  lemma GrantFits(f: GrantFields, sig: Bytes)
    ensures FitsAll(GrantLayout(), GrantValues(f, Cons(Value(0, sig), Nil))) <==>
            |f.resourceID| <= MAX_RESOURCE && |sig| == LEN_SIG
  {
    Widths();
  }

  lemma GrantWhole(f: GrantFields, sig: Bytes)
    ensures EncodeAll(GrantLayout(), GrantValues(f, Cons(Value(0, sig), Nil))) == GrantTbs(f) + sig
  {
    hide EncodeAll, BE;
    Appended(GrantLayout(), GrantValues(f, Cons(Value(0, sig), Nil)));
    Appended(GrantTbsLayout(End), GrantValues(f, Nil));
  }

  /** Parser and encoder are inverse on whole grants. */
  lemma GrantInIff(x: Grant, s: Bytes)
    ensures GrantIn(x, s) <==>
            && |x.fields.resourceID| <= MAX_RESOURCE && |x.sig| == LEN_SIG
            && x.tbs == GrantTbs(x.fields) && s == x.tbs + x.sig
  {
    hide ReadAll, GrantLayout, GrantValues, GrantTbs, FitsAll, EncodeAll;
    var vs := GrantValues(x.fields, Cons(Value(0, x.sig), Nil));
    ReadAllIff(GrantLayout(), vs, s, []);
    assert EncodeAll(GrantLayout(), vs) + [] == EncodeAll(GrantLayout(), vs);
    GrantFits(x.fields, x.sig);
    GrantWhole(x.fields, x.sig);
  }

  /** The signed bytes of a grant determine every field of it. */
  lemma GrantTbsDetermines(x: Grant, y: Grant, s: Bytes, t: Bytes)
    requires GrantIn(x, s) && GrantIn(y, t) && x.tbs == y.tbs
    ensures x.fields == y.fields
  {
    hide GrantIn, GrantTbs;
    GrantInIff(x, s);
    GrantInIff(y, t);
    var z := Grant(y.fields, y.tbs, x.sig);
    GrantInIff(z, s);
    GrantInUnique(x, z, s);
  }

  lemma GrantInUnique(x: Grant, y: Grant, s: Bytes)
    requires GrantIn(x, s) && GrantIn(y, s)
    ensures x == y
  {
    hide ReadAll, GrantLayout;
  }

  /** Cut short anywhere an accepted grant is truncated, and with anything behind it there
      are trailing bytes. */
  lemma GrantNeighbours(x: Grant, s: Bytes, t: Bytes)
    requires GrantIn(x, s)
    ensures t < s ==> Decode(GrantLayout(), t) == Err(Truncated)
    ensures s < t ==> Decode(GrantLayout(), t) == Err(TrailingBytes)
  {
    hide Run, GrantLayout;
    DecodeNeighbours(GrantLayout(), s, t);
  }
}
