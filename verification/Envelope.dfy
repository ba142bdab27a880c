/**
 Envelopes, the signed carriers of channel messages, and two of the bodies they
 carry: intents and refusals.
 */
module Envelopes {
  import opened Octets
  import opened Results
  import opened Crypto
  import opened Layout
  import opened Cursors
  import opened Spans

  const LEN_PARENT := 32
  const MAX_PARENTS: byte := 4
  const MAX_ACTION := 256 * 1024
  const MAX_RATIONALE := 4 * 1024
  const MAX_NOTE := 1024
  const MAX_MESSAGE := 0x10_0000
  const MAX_HEADER := 512
  const MAX_BODY := MAX_MESSAGE - MAX_HEADER

  const BODY_GRANT: byte := 3

  // Envelopes ----------------------------------------------------------------

  datatype EnvelopeFields = EnvelopeFields(
    version: byte, channelID: Bytes, sender: Bytes, seqNo: uint64, parentCount: byte, parents: Bytes,
    ts: uint64, bodyType: byte, body: Bytes)

  datatype Envelope = Envelope(fields: EnvelopeFields, tbs: Bytes, sig: Bytes)

  function OriginLayout(next: Fields): Fields {
    Then(Num(1), Then(Raw(32), Then(Raw(32), Then(Num(8), next))))
  }

  function ContentLayout(next: Fields): Fields {
    Then(Num(8), Then(Num(1), Then(Counted(4, MAX_BODY, 1), next)))
  }

  function EnvelopeTbsLayout(next: Fields): Fields {
    OriginLayout(Then(Counted(1, MAX_PARENTS, LEN_PARENT), ContentLayout(next)))
  }

  function EnvelopeLayout(): Fields {
    EnvelopeTbsLayout(Then(Raw(LEN_SIG), End))
  }

  function EnvelopeValues(f: EnvelopeFields, next: Values): Values {
    Cons(Value(f.version, []), Cons(Value(0, f.channelID), Cons(Value(0, f.sender), Cons(Value(f.seqNo, []),
    Cons(Value(f.parentCount, f.parents),
    Cons(Value(f.ts, []), Cons(Value(f.bodyType, []), Cons(Value(|f.body|, f.body), next))))))))
  }

  function EnvelopeTbs(f: EnvelopeFields): Bytes {
    EncodeAll(EnvelopeTbsLayout(End), EnvelopeValues(f, Nil))
  }

  /** `x` is what the parser makes of `s`. */
  ghost predicate EnvelopeIn(x: Envelope, s: Bytes) {
    && ReadAll(EnvelopeLayout(), s) == Ok(Parsed(EnvelopeValues(x.fields, Cons(Value(0, x.sig), Nil)), []))
    && LEN_SIG <= |s| && x.tbs == s[..|s| - LEN_SIG]
  }

  method ReadOrigin(c: Cursor, ghost next: Fields) returns (r: Result<(byte, Bytes, Bytes, uint64)>)
    requires OnCourse(c.plan, c.buf, c.pos) && c.plan.Reading? && c.plan.todo == OriginLayout(next)
    modifies c
    ensures OnCourse(c.plan, c.buf, c.pos) && old(c.pos) <= c.pos <= |c.buf|
    ensures r.Ok? ==> c.plan.Reading? && c.plan.todo == next
    ensures r.Ok? ==> old(c.plan).outcome ==
                      Prepend(Value(r.value.0, []), Prepend(Value(0, r.value.1),
                      Prepend(Value(0, r.value.2), Prepend(Value(r.value.3, []), c.plan.outcome))))
    ensures r.Err? ==> old(c.plan).outcome == Err(r.error)
  {
    hide Run, Read, OnCourse, Yields, Fails;
    var version :- c.U8();
    var channelID :- c.Take(32);
    var sender :- c.Take(32);
    var seqNo :- c.U64be();
    return Ok((version, channelID, sender, seqNo));
  }

  method ReadContent(c: Cursor, ghost next: Fields) returns (r: Result<(uint64, byte, Bytes)>)
    requires OnCourse(c.plan, c.buf, c.pos) && c.plan.Reading? && c.plan.todo == ContentLayout(next)
    modifies c
    ensures OnCourse(c.plan, c.buf, c.pos) && old(c.pos) <= c.pos <= |c.buf|
    ensures r.Ok? ==> c.plan.Reading? && c.plan.todo == next
    ensures r.Ok? ==> old(c.plan).outcome ==
                      Prepend(Value(r.value.0, []), Prepend(Value(r.value.1, []),
                      Prepend(Value(|r.value.2|, r.value.2), c.plan.outcome)))
    ensures r.Err? ==> old(c.plan).outcome == Err(r.error)
  {
    hide Run, Read, OnCourse, Yields, Fails;
    var ts :- c.U64be();
    var bodyType :- c.U8();
    var body :- c.Field32(MAX_BODY);
    return Ok((ts, bodyType, body));
  }

  method ParseEnvelope(buf: Bytes) returns (r: Result<Envelope>)
    ensures r.Ok? ==> EnvelopeIn(r.value, buf) && Decode(EnvelopeLayout(), buf).Ok?
    ensures r.Err? ==> Decode(EnvelopeLayout(), buf) == Err(r.error)
  {
    hide Run, Read, ReadAll, OnCourse, Yields, Fails, OriginLayout, ContentLayout;
    var c := new Cursor(buf);
    assert buf[0..] == buf;
    c.Begin(EnvelopeLayout());
    ghost var tail := ContentLayout(Then(Raw(LEN_SIG), End));
    var o :- ReadOrigin(c, Then(Counted(1, MAX_PARENTS, LEN_PARENT), tail));
    var p :- c.Items(MAX_PARENTS, LEN_PARENT);
    var b :- ReadContent(c, Then(Raw(LEN_SIG), End));
    var tbs := buf[..c.pos];
    var sig :- c.Take(LEN_SIG);
    c.Finished();
    if c.pos != |buf| {
      return Err(TrailingBytes);
    }
    return Ok(Envelope(EnvelopeFields(o.0, o.1, o.2, o.3, p.0, p.1, b.0, b.1, b.2), tbs, sig));
  }

  /** What the builder insists on; it does not bound the number of parents. */
  predicate Buildable(f: EnvelopeFields) {
    && |f.channelID| == 32 && |f.sender| == 32
    && f.parentCount * LEN_PARENT == |f.parents| && |f.body| <= MAX_BODY
  }

  method BuildSignedEnvelope(f: EnvelopeFields, seed: Bytes) returns (r: Result<Bytes>)
    ensures r.Ok? <==> Buildable(f)
    ensures r.Ok? ==> r.value == EnvelopeTbs(f) + SignTagged(DOMAIN_ENVELOPE, EnvelopeTbs(f), seed)
    ensures r.Err? ==> r.error == if |f.channelID| != 32 || |f.sender| != 32 || f.parentCount * LEN_PARENT != |f.parents|
                                  then FieldBounds else Oversize
  {
    if |f.channelID| != 32 || |f.sender| != 32 || f.parentCount * LEN_PARENT != |f.parents| {
      return Err(FieldBounds);
    }
    if |f.body| > MAX_BODY {
      return Err(Oversize);
    }
    var out := [] + [f.version];
    out := out + f.channelID;
    out := out + f.sender;
    out := out + BE(8, f.seqNo);
    Associative(out, [f.parentCount], f.parents);
    out := out + [f.parentCount];
    out := out + f.parents;
    out := out + BE(8, f.ts);
    out := out + [f.bodyType];
    Associative(out, BE(4, |f.body|), f.body);
    out := out + BE(4, |f.body|);
    out := out + f.body;
    OneByte(f.version);
    OneByte(f.parentCount);
    OneByte(f.bodyType);
    Appended(EnvelopeTbsLayout(End), EnvelopeValues(f, Nil));
    return Ok(out + SignTagged(DOMAIN_ENVELOPE, out, seed));
  }

  function VerifyEnvelopeSig(x: Envelope): Result<()> {
    VerifySigned(DOMAIN_ENVELOPE, x.tbs, x.sig, x.fields.sender)
  }

  /** An envelope's signature is checked under its own tag, over its own TBS, by its sender. */
  lemma EnvelopeSigVerdict(x: Envelope)
    ensures VerifyEnvelopeSig(x).Ok? <==>
            |x.fields.sender| == 32 && |x.sig| == 64 && suite.edVerify(x.fields.sender, [0x02] + x.tbs, x.sig)
  {
    hide Lawful;
  }

  /** The TBS byte for byte. */
  lemma EnvelopeBytes(f: EnvelopeFields)
    ensures EnvelopeTbs(f) ==
            [f.version] + f.channelID + f.sender + BE(8, f.seqNo) + [f.parentCount] + f.parents
            + BE(8, f.ts) + [f.bodyType] + BE(4, |f.body|) + f.body
  {
    hide BE, EncodeAll;
    var start := [] + [f.version] + f.channelID + f.sender + BE(8, f.seqNo);
    assert [] + [f.version] == [f.version];
    Associative(start, [f.parentCount], f.parents);
    var mid := start + [f.parentCount] + f.parents + BE(8, f.ts) + [f.bodyType];
    Associative(mid, BE(4, |f.body|), f.body);
    OneByte(f.version);
    OneByte(f.parentCount);
    OneByte(f.bodyType);
    Appended(EnvelopeTbsLayout(End), EnvelopeValues(f, Nil));
  }

  lemma EnvelopeFits(f: EnvelopeFields, sig: Bytes)
    ensures FitsAll(EnvelopeLayout(), EnvelopeValues(f, Cons(Value(0, sig), Nil))) <==>
            Buildable(f) && f.parentCount <= MAX_PARENTS && |sig| == LEN_SIG
  {
    Widths();
  }

  lemma EnvelopeWhole(f: EnvelopeFields, sig: Bytes)
    ensures EncodeAll(EnvelopeLayout(), EnvelopeValues(f, Cons(Value(0, sig), Nil))) == EnvelopeTbs(f) + sig
  {
    hide EncodeAll, BE;
    Appended(EnvelopeLayout(), EnvelopeValues(f, Cons(Value(0, sig), Nil)));
    Appended(EnvelopeTbsLayout(End), EnvelopeValues(f, Nil));
  }

  /** Parser and encoder are inverse on envelopes with at most four parents. */
  lemma EnvelopeInIff(x: Envelope, s: Bytes)
    ensures EnvelopeIn(x, s) <==>
            && Buildable(x.fields) && x.fields.parentCount <= MAX_PARENTS && |x.sig| == LEN_SIG
            && x.tbs == EnvelopeTbs(x.fields) && s == x.tbs + x.sig
  {
    hide ReadAll, EnvelopeLayout, EnvelopeValues, EnvelopeTbs, FitsAll, EncodeAll, Buildable;
    var vs := EnvelopeValues(x.fields, Cons(Value(0, x.sig), Nil));
    ReadAllIff(EnvelopeLayout(), vs, s, []);
    assert EncodeAll(EnvelopeLayout(), vs) + [] == EncodeAll(EnvelopeLayout(), vs);
    EnvelopeFits(x.fields, x.sig);
    EnvelopeWhole(x.fields, x.sig);
  }

  lemma OriginSkips(f: EnvelopeFields, next: Fields, t: Bytes)
    requires |f.channelID| == 32 && |f.sender| == 32
    ensures Run(OriginLayout(next), BE(1, f.version) + (f.channelID + (f.sender + (BE(8, f.seqNo) + t)))) ==
            Prepend(Value(f.version, []), Prepend(Value(0, f.channelID), Prepend(Value(0, f.sender),
            Prepend(Value(f.seqNo, []), Run(next, t)))))
  {
    hide Run, BE;
    Widths();
    RunSkips(Num(8), next, Value(f.seqNo, []), t);
    RunSkips(Raw(32), Then(Num(8), next), Value(0, f.sender), BE(8, f.seqNo) + t);
    RunSkips(Raw(32), Then(Raw(32), Then(Num(8), next)), Value(0, f.channelID), f.sender + (BE(8, f.seqNo) + t));
    RunSkips(Num(1), Then(Raw(32), Then(Raw(32), Then(Num(8), next))), Value(f.version, []),
             f.channelID + (f.sender + (BE(8, f.seqNo) + t)));
  }

  /** More than four parents: the builder signs it, the parser refuses it as oversize. */
  lemma TooManyParents(f: EnvelopeFields, sig: Bytes)
    requires Buildable(f) && f.parentCount > MAX_PARENTS
    ensures Decode(EnvelopeLayout(), EnvelopeTbs(f) + sig) == Err(Oversize)
  {
    hide Run, BE, EncodeAll, ContentLayout, Decode;
    var content := EncodeAll(ContentLayout(Then(Raw(LEN_SIG), End)),
      Cons(Value(f.ts, []), Cons(Value(f.bodyType, []), Cons(Value(|f.body|, f.body), Cons(Value(0, sig), Nil)))));
    var t := (BE(1, f.parentCount) + f.parents) + content;
    var next := Then(Counted(1, MAX_PARENTS, LEN_PARENT), ContentLayout(Then(Raw(LEN_SIG), End)));
    EnvelopeSpelledOut(f, sig);
    OriginSkips(f, next, t);
    Associative(BE(1, f.parentCount), f.parents, content);
    ReadTooMany(f.parentCount, f.parents + content);
    RefusedCount(next, t);
    DecodeRefuses(EnvelopeLayout(), EnvelopeTbs(f) + sig);
  }

  /** What the builder signs parses back exactly when it names at most four parents,
      and then its signature verifies if the key is the sender's. */
  lemma BuiltEnvelopeParses(f: EnvelopeFields, seed: Bytes)
    requires Buildable(f)
    ensures var x := Envelope(f, EnvelopeTbs(f), SignTagged(DOMAIN_ENVELOPE, EnvelopeTbs(f), seed));
            && (EnvelopeIn(x, x.tbs + x.sig) <==> f.parentCount <= MAX_PARENTS)
            && (Decode(EnvelopeLayout(), x.tbs + x.sig) == Err(Oversize) <==> f.parentCount > MAX_PARENTS)
            && (f.sender == EdPublic(seed) ==> VerifyEnvelopeSig(x) == Ok(()))
  {
    hide EnvelopeTbs, VerifySigned, ReadAll, EnvelopeLayout, EnvelopeValues;
    var x := Envelope(f, EnvelopeTbs(f), SignTagged(DOMAIN_ENVELOPE, EnvelopeTbs(f), seed));
    EnvelopeInIff(x, x.tbs + x.sig);
    if f.parentCount > MAX_PARENTS {
      TooManyParents(f, x.sig);
    }
    SignedVerifies(DOMAIN_ENVELOPE, x.tbs, seed);
  }

  lemma EnvelopeSpelledOut(f: EnvelopeFields, sig: Bytes)
    ensures EnvelopeTbs(f) + sig ==
            BE(1, f.version) + (f.channelID + (f.sender + (BE(8, f.seqNo) + ((BE(1, f.parentCount) + f.parents) +
            EncodeAll(ContentLayout(Then(Raw(LEN_SIG), End)),
              Cons(Value(f.ts, []), Cons(Value(f.bodyType, []), Cons(Value(|f.body|, f.body), Cons(Value(0, sig), Nil)))))))))
  {
    hide BE, EnvelopeTbs;
    EnvelopeWhole(f, sig);
  }

  lemma ReadTooMany(count: byte, t: Bytes)
    requires count > MAX_PARENTS
    ensures Read(Counted(1, MAX_PARENTS, LEN_PARENT), BE(1, count) + t) == Err(Oversize)
  {
    Widths();
    CountOversize(1, MAX_PARENTS, LEN_PARENT, count, t);
  }

  lemma RefusedCount(fs: Fields, t: Bytes)
    requires fs.Then? && Read(fs.field, t).Err?
    ensures Run(fs, t) == Err(Read(fs.field, t).error)
  {
    hide Read;
  }

  lemma DecodeRefuses(fs: Fields, s: Bytes)
    requires Run(fs, s).Err?
    ensures Decode(fs, s) == Err(Run(fs, s).error)
  {
    hide Run;
  }

  /** Every accepted envelope stays below the message limit. */
  lemma EnvelopeLength(x: Envelope, s: Bytes)
    requires EnvelopeIn(x, s)
    ensures |s| == 151 + |x.fields.parents| + |x.fields.body|
    ensures |s| < MAX_MESSAGE
  {
    hide EnvelopeIn;
    EnvelopeInIff(x, s);
    TbsLength(x.fields);
  }

  lemma TbsLength(f: EnvelopeFields)
    requires Buildable(f)
    ensures |EnvelopeTbs(f)| == 87 + |f.parents| + |f.body|
  {
  }

  // Intents and refusals -----------------------------------------------------

  datatype Intent = Intent(intentID: Bytes, resourceID: Bytes, action: Bytes, rationale: Bytes)

  function IntentLayout(): Fields {
    Then(Raw(16), Then(Counted(2, MAX_RESOURCE, 1), Then(Counted(4, MAX_ACTION, 1), Then(Counted(2, MAX_RATIONALE, 1), End))))
  }

  function IntentValues(x: Intent): Values {
    Cons(Value(0, x.intentID), Cons(Value(|x.resourceID|, x.resourceID),
    Cons(Value(|x.action|, x.action), Cons(Value(|x.rationale|, x.rationale), Nil))))
  }

  predicate IntentInBounds(x: Intent) {
    |x.intentID| == 16 && |x.resourceID| <= MAX_RESOURCE && |x.action| <= MAX_ACTION && |x.rationale| <= MAX_RATIONALE
  }

  method ParseIntent(buf: Bytes) returns (r: Result<Intent>)
    ensures r.Ok? ==> Decode(IntentLayout(), buf) == Ok(IntentValues(r.value))
    ensures r.Err? ==> Decode(IntentLayout(), buf) == Err(r.error)
  {
    hide Run, Read, ReadAll, OnCourse, Yields, Fails;
    var c := new Cursor(buf);
    assert buf[0..] == buf;
    c.Begin(IntentLayout());
    var intentID :- c.Take(16);
    var resourceID :- c.Field16(MAX_RESOURCE);
    var action :- c.Field32(MAX_ACTION);
    var rationale :- c.Field16(MAX_RATIONALE);
    c.Finished();
    if c.pos != |buf| {
      return Err(TrailingBytes);
    }
    return Ok(Intent(intentID, resourceID, action, rationale));
  }

  method EncodeIntentBody(x: Intent) returns (r: Result<Bytes>)
    ensures r == if IntentInBounds(x) then Ok(EncodeAll(IntentLayout(), IntentValues(x))) else Err(FieldBounds)
  {
    if |x.intentID| != 16 || |x.resourceID| > MAX_RESOURCE || |x.action| > MAX_ACTION || |x.rationale| > MAX_RATIONALE {
      return Err(FieldBounds);
    }
    var out := [] + x.intentID;
    Associative(out, BE(2, |x.resourceID|), x.resourceID);
    out := out + BE(2, |x.resourceID|);
    out := out + x.resourceID;
    Associative(out, BE(4, |x.action|), x.action);
    out := out + BE(4, |x.action|);
    out := out + x.action;
    Associative(out, BE(2, |x.rationale|), x.rationale);
    out := out + BE(2, |x.rationale|);
    out := out + x.rationale;
    Appended(IntentLayout(), IntentValues(x));
    return Ok(out);
  }

  /** Intents round-trip, and every encoded intent fits an envelope body. */
  lemma IntentRoundTrip(x: Intent, s: Bytes)
    ensures Decode(IntentLayout(), s) == Ok(IntentValues(x)) <==>
            IntentInBounds(x) && s == EncodeAll(IntentLayout(), IntentValues(x))
    ensures IntentInBounds(x) ==> |EncodeAll(IntentLayout(), IntentValues(x))| <= MAX_BODY
  {
    Widths();
    assert FitsAll(IntentLayout(), IntentValues(x)) <==> IntentInBounds(x);
    DecodeIff(IntentLayout(), IntentValues(x), s);
  }

  /** An intent byte for byte. */
  lemma IntentBytes(x: Intent)
    ensures EncodeAll(IntentLayout(), IntentValues(x)) ==
            x.intentID + BE(2, |x.resourceID|) + x.resourceID + BE(4, |x.action|) + x.action
            + BE(2, |x.rationale|) + x.rationale
  {
    hide BE, EncodeAll;
    var start := [] + x.intentID;
    assert start == x.intentID;
    Associative(start, BE(2, |x.resourceID|), x.resourceID);
    var mid := start + BE(2, |x.resourceID|) + x.resourceID;
    Associative(mid, BE(4, |x.action|), x.action);
    var end := mid + BE(4, |x.action|) + x.action;
    Associative(end, BE(2, |x.rationale|), x.rationale);
    Appended(IntentLayout(), IntentValues(x));
  }

  datatype Refusal = Refusal(intentID: Bytes, note: Bytes, tbs: Bytes, sig: Bytes)

  function RefusalTbsLayout(next: Fields): Fields {
    Then(Raw(16), Then(Counted(2, MAX_NOTE, 1), next))
  }

  function RefusalLayout(): Fields {
    RefusalTbsLayout(Then(Raw(LEN_SIG), End))
  }

  function RefusalValues(x: Refusal, next: Values): Values {
    Cons(Value(0, x.intentID), Cons(Value(|x.note|, x.note), next))
  }

  ghost predicate RefusalIn(x: Refusal, s: Bytes) {
    && ReadAll(RefusalLayout(), s) == Ok(Parsed(RefusalValues(x, Cons(Value(0, x.sig), Nil)), []))
    && LEN_SIG <= |s| && x.tbs == s[..|s| - LEN_SIG]
  }

  method ParseRefusal(buf: Bytes) returns (r: Result<Refusal>)
    ensures r.Ok? ==> RefusalIn(r.value, buf) && Decode(RefusalLayout(), buf).Ok?
    ensures r.Err? ==> Decode(RefusalLayout(), buf) == Err(r.error)
  {
    hide Run, Read, ReadAll, OnCourse, Yields, Fails;
    var c := new Cursor(buf);
    assert buf[0..] == buf;
    c.Begin(RefusalLayout());
    var intentID :- c.Take(16);
    var note :- c.Field16(MAX_NOTE);
    var tbs := buf[..c.pos];
    var sig :- c.Take(LEN_SIG);
    c.Finished();
    if c.pos != |buf| {
      return Err(TrailingBytes);
    }
    return Ok(Refusal(intentID, note, tbs, sig));
  }

  /** A refusal's TBS byte for byte. */
  lemma RefusalBytes(x: Refusal)
    ensures EncodeAll(RefusalTbsLayout(End), RefusalValues(x, Nil)) == x.intentID + BE(2, |x.note|) + x.note
  {
    hide BE, EncodeAll;
    assert [] + x.intentID == x.intentID;
    Associative(x.intentID, BE(2, |x.note|), x.note);
    Appended(RefusalTbsLayout(End), RefusalValues(x, Nil));
  }

  /** A refusal is accepted exactly when its TBS re-encodes and its signature follows. */
  lemma RefusalInIff(x: Refusal, s: Bytes)
    ensures RefusalIn(x, s) <==>
            && |x.intentID| == 16 && |x.note| <= MAX_NOTE && |x.sig| == LEN_SIG
            && x.tbs == EncodeAll(RefusalTbsLayout(End), RefusalValues(x, Nil)) && s == x.tbs + x.sig
  {
    hide ReadAll, BE;
    Widths();
    var vs := RefusalValues(x, Cons(Value(0, x.sig), Nil));
    ReadAllIff(RefusalLayout(), vs, s, []);
    assert EncodeAll(RefusalLayout(), vs) + [] == EncodeAll(RefusalLayout(), vs);
    assert FitsAll(RefusalLayout(), vs) <==> |x.intentID| == 16 && |x.note| <= MAX_NOTE && |x.sig| == LEN_SIG;
    Appended(RefusalLayout(), vs);
    Appended(RefusalTbsLayout(End), RefusalValues(x, Nil));
  }

  /** Cut short anywhere an accepted envelope is truncated, and with anything behind it there
      are trailing bytes. */
  lemma EnvelopeNeighbours(x: Envelope, s: Bytes, t: Bytes)
    requires EnvelopeIn(x, s)
    ensures t < s ==> Decode(EnvelopeLayout(), t) == Err(Truncated)
    ensures s < t ==> Decode(EnvelopeLayout(), t) == Err(TrailingBytes)
  {
    hide Run, EnvelopeLayout;
    DecodeNeighbours(EnvelopeLayout(), s, t);
  }

  /** Cut short anywhere an accepted refusal is truncated, and with anything behind it there
      are trailing bytes. */
  lemma RefusalNeighbours(x: Refusal, s: Bytes, t: Bytes)
    requires RefusalIn(x, s)
    ensures t < s ==> Decode(RefusalLayout(), t) == Err(Truncated)
    ensures s < t ==> Decode(RefusalLayout(), t) == Err(TrailingBytes)
  {
    hide Run, RefusalLayout;
    DecodeNeighbours(RefusalLayout(), s, t);
  }

  /** Cut short anywhere an accepted intent is truncated, and with anything behind it there
      are trailing bytes. */
  lemma IntentNeighbours(x: Intent, s: Bytes, t: Bytes)
    requires Decode(IntentLayout(), s) == Ok(IntentValues(x))
    ensures t < s ==> Decode(IntentLayout(), t) == Err(Truncated)
    ensures s < t ==> Decode(IntentLayout(), t) == Err(TrailingBytes)
  {
    hide Run, IntentLayout;
    DecodeNeighbours(IntentLayout(), s, t);
  }
}
