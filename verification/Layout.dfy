/**
 Wire layouts as data. Every structure of the protocol is a fixed list of fields;
 `Run` reads such a list off a byte string and `EncodeAll` writes it. The codec
 laws are proved here once, for every layout, and inherited by each structure.
 */
module Layout {
  import opened Octets
  import opened Results

  datatype Field =
    | Num(w: nat)                              // a w-byte big-endian number
    | Raw(len: nat)                            // len bytes
    | Counted(w: nat, max: nat, unit: nat)     // a w-byte count (at most max), then count * unit bytes
    | CaPairs                                  // a one-byte count in 1..4, then (ca_key, ca_sig) pairs by ascending key

  // What a field holds: its number or count, and its bytes.
  datatype Value = Value(num: nat, blob: Bytes)

  // A value read, and the input left after it.
  datatype Got = Got(value: Value, rest: Bytes)

  const LEN_CA_KEY := 32
  const LEN_PAIR := 96
  const MAX_CA_SIGS := 4

  function KeyAt(pairs: Bytes, i: nat): (key: Bytes)
    requires LEN_PAIR * i + LEN_CA_KEY <= |pairs|
  {
    pairs[LEN_PAIR * i..LEN_PAIR * i + LEN_CA_KEY]
  }

  /** The first `n` CA keys of a flat pair list are strictly ascending. */
  predicate Ascending(pairs: Bytes, n: nat)
    requires LEN_PAIR * n <= |pairs|
  {
    forall i :: 0 < i < n ==> Less(KeyAt(pairs, i - 1), KeyAt(pairs, i))
  }

  predicate Fits(f: Field, v: Value) {
    match f
    case Num(w) => v.num < Pow256(w) && v.blob == []
    case Raw(n) => v.num == 0 && |v.blob| == n
    case Counted(w, max, unit) => v.num <= max && v.num < Pow256(w) && |v.blob| == v.num * unit
    case CaPairs => 1 <= v.num <= MAX_CA_SIGS && |v.blob| == LEN_PAIR * v.num && Ascending(v.blob, v.num)
  }

  // A layout, and the values a structure holds under it.
  datatype Fields = End | Then(field: Field, next: Fields)
  datatype Values = Nil | Cons(head: Value, tail: Values)

  predicate FitsAll(fs: Fields, vs: Values)
    decreases fs
  {
    match fs
    case End => vs == Nil
    case Then(f, next) => vs.Cons? && Fits(f, vs.head) && FitsAll(next, vs.tail)
  }

  // Reading ------------------------------------------------------------------

  function ReadRaw(n: nat, s: Bytes): (r: Result<Got>)
    ensures r.Ok? ==> Fits(Raw(n), r.value.value) && |r.value.rest| <= |s|
  {
    if |s| < n then Err(Truncated) else Ok(Got(Value(0, s[..n]), s[n..]))
  }

  function ReadNum(w: nat, s: Bytes): (r: Result<Got>)
    ensures r.Ok? ==> Fits(Num(w), r.value.value) && |r.value.rest| <= |s|
  {
    if |s| < w then Err(Truncated) else Ok(Got(Value(FromBE(s[..w]), []), s[w..]))
  }

  /** Walks pairs i..n of the list in front of `s`, checking order as it goes. */
  function ScanPairs(s: Bytes, i: nat, n: nat): (r: Result<()>)
    requires i <= n && LEN_PAIR * i <= |s|
    requires Ascending(s, i)
    ensures r.Ok? ==> LEN_PAIR * n <= |s| && Ascending(s, n)
    decreases n - i
  {
    if i == n then Ok(())
    else if |s| - LEN_PAIR * i < LEN_CA_KEY then Err(Truncated)
    else if i > 0 && !Less(KeyAt(s, i - 1), KeyAt(s, i)) then Err(Malformed)
    else if |s| - LEN_PAIR * i < LEN_PAIR then Err(Truncated)
    else ScanPairs(s, i + 1, n)
  }

  lemma AscendingPrefix(s: Bytes, t: Bytes, n: nat)
    requires LEN_PAIR * n <= |s| && s <= t
    ensures Ascending(s, n) == Ascending(t, n)
  {
    assert forall i :: 0 <= i < n ==> KeyAt(s, i) == KeyAt(t, i);
  }

  function ReadPairs(n: nat, s: Bytes): (r: Result<Got>)
    ensures r.Ok? ==> |r.value.value.blob| == LEN_PAIR * n && Ascending(r.value.value.blob, n)
    ensures r.Ok? ==> r.value.value.num == n && |r.value.rest| <= |s|
  {
    var _ :- ScanPairs(s, 0, n);
    AscendingPrefix(s[..LEN_PAIR * n], s, n);
    Ok(Got(Value(n, s[..LEN_PAIR * n]), s[LEN_PAIR * n..]))
  }

  function Read(f: Field, s: Bytes): (r: Result<Got>)
    ensures r.Ok? ==> Fits(f, r.value.value) && |r.value.rest| <= |s|
  {
    match f
    case Num(w) => ReadNum(w, s)
    case Raw(n) => ReadRaw(n, s)
    case Counted(w, max, unit) =>
      var count :- ReadNum(w, s);
      if count.value.num > max then Err(Oversize)
      else
        var body :- ReadRaw(count.value.num * unit, count.rest);
        Ok(Got(Value(count.value.num, body.value.blob), body.rest))
    case CaPairs =>
      var count :- ReadNum(1, s);
      if count.value.num == 0 || count.value.num > MAX_CA_SIGS then Err(Malformed)
      else ReadPairs(count.value.num, count.rest)
  }

  datatype Parsed = Parsed(values: Values, rest: Bytes)

  function Prepend(v: Value, r: Result<Parsed>): Result<Parsed> {
    match r
    case Err(e) => Err(e)
    case Ok(p) => Ok(Parsed(Cons(v, p.values), p.rest))
  }

  function Run(fs: Fields, s: Bytes): (r: Result<Parsed>)
    ensures r.Ok? ==> |r.value.rest| <= |s| && FitsAll(fs, r.value.values)
  {
    match fs
    case End => Ok(Parsed(Nil, s))
    case Then(f, next) =>
      var got :- Read(f, s);
      Prepend(got.value, Run(next, got.rest))
  }

  /** One structure off the front of `s`. */
  function ReadAll(fs: Fields, s: Bytes): (r: Result<Parsed>)
    ensures r.Ok? ==> |r.value.rest| <= |s| && FitsAll(fs, r.value.values)
  {
    Run(fs, s)
  }

  /** A structure that must be the whole input. */
  function Decode(fs: Fields, s: Bytes): (r: Result<Values>)
    ensures r.Ok? ==> FitsAll(fs, r.value)
  {
    var parsed :- ReadAll(fs, s);
    if parsed.rest != [] then Err(TrailingBytes) else Ok(parsed.values)
  }

  // Writing ------------------------------------------------------------------

  function Encode(f: Field, v: Value): Bytes {
    match f
    case Num(w) => BE(w, v.num)
    case Raw(n) => v.blob
    case Counted(w, _, _) => BE(w, v.num) + v.blob
    case CaPairs => BE(1, v.num) + v.blob
  }

  function EncodeAll(fs: Fields, vs: Values): Bytes
    decreases fs
  {
    if fs.Then? && vs.Cons? then Encode(fs.field, vs.head) + EncodeAll(fs.next, vs.tail) else []
  }

  /** The same bytes, the way an encoder appends them to what it already has. */
  function AppendAll(out: Bytes, fs: Fields, vs: Values): Bytes
    decreases fs
  {
    if fs.Then? && vs.Cons? then AppendAll(out + Encode(fs.field, vs.head), fs.next, vs.tail) else out
  }

  lemma {:induction false} AppendAllIsEncodeAll(out: Bytes, fs: Fields, vs: Values)
    ensures AppendAll(out, fs, vs) == out + EncodeAll(fs, vs)
    decreases fs
  {
    hide Encode;
    if fs.Then? && vs.Cons? {
      var e := Encode(fs.field, vs.head);
      AppendAllIsEncodeAll(out + e, fs.next, vs.tail);
      Associative(out, e, EncodeAll(fs.next, vs.tail));
    }
  }

  lemma Appended(fs: Fields, vs: Values)
    ensures AppendAll([], fs, vs) == EncodeAll(fs, vs)
  {
    hide EncodeAll, AppendAll;
    AppendAllIsEncodeAll([], fs, vs);
    assert [] + EncodeAll(fs, vs) == EncodeAll(fs, vs);
  }

  // One field ----------------------------------------------------------------

  /** Order is only read from complete keys, so an ascending list scans cleanly. */
  lemma {:induction false} ScanAscending(s: Bytes, i: nat, n: nat)
    requires i <= n && LEN_PAIR * n <= |s| && Ascending(s, n)
    ensures ScanPairs(s, i, n) == Ok(())
    decreases n - i
  {
    if i < n {
      ScanAscending(s, i + 1, n);
    }
  }

  /** A cut-off ascending list stops at the cut. */
  lemma {:induction false} ScanShort(s: Bytes, pairs: Bytes, i: nat, n: nat)
    requires i <= n && |pairs| == LEN_PAIR * n && Ascending(pairs, n)
    requires LEN_PAIR * i <= |s| && s < pairs
    ensures Ascending(s, i) && ScanPairs(s, i, n) == Err(Truncated)
    decreases n - i
  {
    assert forall j :: 0 <= j && LEN_PAIR * j + LEN_CA_KEY <= |s| ==> KeyAt(s, j) == KeyAt(pairs, j);
    if LEN_PAIR * (i + 1) <= |s| {
      ScanShort(s, pairs, i + 1, n);
    }
  }

  lemma ReadNumEncoded(w: nat, n: nat, t: Bytes)
    requires n < Pow256(w)
    ensures ReadNum(w, BE(w, n) + t) == Ok(Got(Value(n, []), t))
  {
    FromBEofBE(w, n);
    assert (BE(w, n) + t)[..w] == BE(w, n);
  }

  lemma ReadNumBack(w: nat, s: Bytes)
    requires ReadNum(w, s).Ok?
    ensures s == BE(w, ReadNum(w, s).value.value.num) + ReadNum(w, s).value.rest
  {
    BEofFromBE(s[..w]);
  }

  /** Whatever a field reads, its encoding is exactly the bytes consumed. */
  lemma ReadBack(f: Field, s: Bytes)
    requires Read(f, s).Ok?
    ensures s == Encode(f, Read(f, s).value.value) + Read(f, s).value.rest
  {
    match f
    case Num(w) =>
      ReadNumBack(w, s);
    case Raw(n) =>
    case Counted(w, max, unit) =>
      ReadCountedBack(w, max, unit, s);
    case CaPairs =>
      hide ScanPairs, Ascending, BE, ReadNum;
      ReadNumBack(1, s);
      var count := ReadNum(1, s).value;
      ReadPairsBack(count.value.num, count.rest);
      Associative2(BE(1, count.value.num), Read(f, s).value.value.blob, Read(f, s).value.rest);
  }

  lemma ReadCountedBack(w: nat, max: nat, unit: nat, s: Bytes)
    requires Read(Counted(w, max, unit), s).Ok?
    ensures var got := Read(Counted(w, max, unit), s).value; s == (BE(w, got.value.num) + got.value.blob) + got.rest
  {
    hide ReadNum, BE;
    ReadNumBack(w, s);
    var count, got := ReadNum(w, s).value, Read(Counted(w, max, unit), s).value;
    RawBack(count.value.num * unit, count.rest);
    Associative2(BE(w, count.value.num), got.value.blob, got.rest);
  }

  lemma RawBack(n: nat, s: Bytes)
    requires ReadRaw(n, s).Ok?
    ensures s == ReadRaw(n, s).value.value.blob + ReadRaw(n, s).value.rest
  {
  }

  lemma ReadPairsBack(n: nat, s: Bytes)
    requires ReadPairs(n, s).Ok?
    ensures s == ReadPairs(n, s).value.value.blob + ReadPairs(n, s).value.rest
  {
    hide ScanPairs, Ascending;
  }

  /** An encoded field reads back to its value, whatever follows it. */
  lemma ReadEncoded(f: Field, v: Value, t: Bytes)
    requires Fits(f, v)
    ensures Read(f, Encode(f, v) + t) == Ok(Got(v, t))
  {
    match f
    case Num(w) =>
      ReadNumEncoded(w, v.num, t);
    case Raw(n) =>
      assert (v.blob + t)[..n] == v.blob;
    case Counted(w, _, _) =>
      ReadNumEncoded(w, v.num, v.blob + t);
      assert BE(w, v.num) + v.blob + t == BE(w, v.num) + (v.blob + t);
      assert (v.blob + t)[..|v.blob|] == v.blob;
    case CaPairs =>
      hide BE, ReadNum, Ascending, ScanPairs, FromBE;
      Widths();
      ReadNumEncoded(1, v.num, v.blob + t);
      Associative2(BE(1, v.num), v.blob, t);
      ReadPairsEncoded(v, t);
  }

  lemma Associative2(a: Bytes, b: Bytes, c: Bytes)
    ensures a + b + c == a + (b + c)
  {
  }

  lemma ReadPairsEncoded(v: Value, t: Bytes)
    requires Fits(CaPairs, v)
    ensures ReadPairs(v.num, v.blob + t) == Ok(Got(v, t))
  {
    hide Ascending, ScanPairs;
    assert (v.blob + t)[..|v.blob|] == v.blob;
    AscendingPrefix(v.blob, v.blob + t, v.num);
    ScanAscending(v.blob + t, 0, v.num);
  }

  /** A field cut short is a truncation, never another error. */
  lemma ReadShort(f: Field, v: Value, s: Bytes)
    requires Fits(f, v) && s < Encode(f, v)
    ensures Read(f, s) == Err(Truncated)
  {
    match f
    case Num(w) =>
    case Raw(n) =>
    case Counted(w, _, _) =>
      if |s| >= w {
        ReadNumEncoded(w, v.num, s[w..]);
        assert s == BE(w, v.num) + s[w..];
      }
    case CaPairs =>
      if |s| >= 1 {
        Widths();
        ReadNumEncoded(1, v.num, s[1..]);
        assert s == BE(1, v.num) + s[1..];
        assert s[1..] < v.blob;
        ScanShort(s[1..], v.blob, 0, v.num);
      }
  }

  // Refusals -----------------------------------------------------------------

  /** A count above its maximum is oversize, whatever follows. */
  lemma CountOversize(w: nat, max: nat, unit: nat, n: nat, t: Bytes)
    requires max < n < Pow256(w)
    ensures Read(Counted(w, max, unit), BE(w, n) + t) == Err(Oversize)
  {
    ReadNumEncoded(w, n, t);
  }

  /** No CA pairs, or more than four, is malformed, whatever follows. */
  lemma PairCountMalformed(n: byte, t: Bytes)
    requires n == 0 || n > 4
    ensures Read(CaPairs, BE(1, n) + t) == Err(Malformed)
  {
    Widths();
    ReadNumEncoded(1, n, t);
  }

  /** A complete pair list out of order, a repeated key included, is malformed. */
  lemma {:induction false} PairsOutOfOrder(s: Bytes, i: nat, n: nat)
    requires i <= n && LEN_PAIR * n <= |s| && Ascending(s, i) && !Ascending(s, n)
    ensures ScanPairs(s, i, n) == Err(Malformed)
    decreases n - i
  {
    hide Less;
    if i < n && Ascending(s, i + 1) {
      PairsOutOfOrder(s, i + 1, n);
    }
  }

  // Whole layouts ------------------------------------------------------------

  lemma {:induction false} RunBack(fs: Fields, s: Bytes)
    requires Run(fs, s).Ok?
    ensures s == EncodeAll(fs, Run(fs, s).value.values) + Run(fs, s).value.rest
  {
    hide Read, Encode, Fits;
    match fs
    case End =>
    case Then(f, next) =>
      var g, p := Read(f, s).value, Run(fs, s).value;
      ReadBack(f, s);
      RunBack(next, g.rest);
      Associative(Encode(f, g.value), EncodeAll(next, p.values.tail), p.rest);
  }

  lemma {:induction false} RunEncoded(fs: Fields, vs: Values, t: Bytes)
    requires FitsAll(fs, vs)
    ensures Run(fs, EncodeAll(fs, vs) + t) == Ok(Parsed(vs, t))
  {
    hide Read, Encode, Fits;
    match fs
    case End =>
      assert [] + t == t;
    case Then(f, next) =>
      var a, b := Encode(f, vs.head), EncodeAll(next, vs.tail);
      Associative(a, b, t);
      ReadEncoded(f, vs.head, b + t);
      RunEncoded(next, vs.tail, t);
  }

  /** A well-formed field in front is read off, leaving the rest of the layout. */
  lemma RunSkips(f: Field, next: Fields, v: Value, t: Bytes)
    requires Fits(f, v)
    ensures Run(Then(f, next), Encode(f, v) + t) == Prepend(v, Run(next, t))
  {
    hide Read, Encode, Fits;
    ReadEncoded(f, v, t);
  }

  lemma {:induction false} RunShort(fs: Fields, vs: Values, s: Bytes)
    requires FitsAll(fs, vs) && s < EncodeAll(fs, vs)
    ensures Run(fs, s) == Err(Truncated)
  {
    hide Read, Encode, Fits;
    var a := Encode(fs.field, vs.head);
    if |s| < |a| {
      assert s < a;
      ReadShort(fs.field, vs.head, s);
    } else {
      assert s == a + s[|a|..];
      assert s[|a|..] < EncodeAll(fs.next, vs.tail);
      ReadEncoded(fs.field, vs.head, s[|a|..]);
      RunShort(fs.next, vs.tail, s[|a|..]);
    }
  }

  /** Reading the front of an input finds exactly the structure encoded there. */
  lemma ReadAllIff(fs: Fields, vs: Values, s: Bytes, t: Bytes)
    ensures ReadAll(fs, s) == Ok(Parsed(vs, t)) <==> FitsAll(fs, vs) && s == EncodeAll(fs, vs) + t
  {
    if ReadAll(fs, s) == Ok(Parsed(vs, t)) {
      RunBack(fs, s);
    } else if FitsAll(fs, vs) && s == EncodeAll(fs, vs) + t {
      RunEncoded(fs, vs, t);
    }
  }

  /** Parser and encoder are exact inverses. */
  lemma DecodeIff(fs: Fields, vs: Values, s: Bytes)
    ensures Decode(fs, s) == Ok(vs) <==> FitsAll(fs, vs) && s == EncodeAll(fs, vs)
  {
    hide ReadAll, FitsAll, EncodeAll;
    ReadAllIff(fs, vs, s, []);
    assert EncodeAll(fs, vs) + [] == EncodeAll(fs, vs);
  }

  /** The accepted language is prefix-free, with the error naming the reason. */
  lemma DecodeNeighbours(fs: Fields, s: Bytes, t: Bytes)
    requires Decode(fs, s).Ok?
    ensures t < s ==> Decode(fs, t) == Err(Truncated)
    ensures s < t ==> Decode(fs, t) == Err(TrailingBytes)
  {
    hide Run, FitsAll, EncodeAll;
    var vs := Decode(fs, s).value;
    DecodeIff(fs, vs, s);
    if t < s {
      RunShort(fs, vs, t);
    } else if s < t {
      assert t == s + t[|s|..];
      ReadAllIff(fs, vs, t, t[|s|..]);
    }
  }
}
