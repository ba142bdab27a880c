/**
 The bounds-checked reader every parser advances. Each method is proved against
 the reading function of the field it consumes, on the bytes not yet read.
 */
module Cursors {
  import opened Octets
  import opened Results
  import opened Layout

  /** Reading `f` at `p` gives `v` and moves on to `q`. */
  predicate Yields(f: Field, buf: Bytes, p: nat, v: Value, q: nat) {
    p <= |buf| && q <= |buf| && Read(f, buf[p..]) == Ok(Got(v, buf[q..]))
  }

  predicate Fails(f: Field, buf: Bytes, p: nat, e: Error) {
    p <= |buf| && Read(f, buf[p..]) == Err(e)
  }

  // Ghost bookkeeping: the fields a parser has still to read, and what reading
  // all of them must yield.
  datatype Plan = Idle | Reading(todo: Fields, outcome: Result<Parsed>)

  predicate Expects(p: Plan, f: Field) {
    p.Reading? && p.todo.Then? && p.todo.field == f
  }

  /** `after` is what remains of `before` once `f` has given `v`. */
  predicate Continues(before: Plan, f: Field, v: Value, after: Plan) {
    Expects(before, f) ==>
      after.Reading? && after.todo == before.todo.next && before.outcome == Prepend(v, after.outcome)
  }

  predicate Refuted(before: Plan, f: Field, e: Error) {
    Expects(before, f) ==> before.outcome == Err(e)
  }

  /** The cursor's invariant: in bounds, and true to its plan. */
  predicate OnCourse(p: Plan, buf: Bytes, pos: nat) {
    pos <= |buf| && (p.Reading? ==> Run(p.todo, buf[pos..]) == p.outcome)
  }

  function Next(p: Plan, f: Field, rest: Bytes): Plan {
    if Expects(p, f) then Reading(p.todo.next, Run(p.todo.next, rest)) else Idle
  }

  lemma Advance(p: Plan, f: Field, buf: Bytes, pos: nat, v: Value, next: nat)
    requires OnCourse(p, buf, pos) && Yields(f, buf, pos, v, next)
    ensures OnCourse(Next(p, f, buf[next..]), buf, next) && Continues(p, f, v, Next(p, f, buf[next..]))
  {
    hide Read;
  }

  lemma Stop(p: Plan, f: Field, buf: Bytes, pos: nat)
    requires OnCourse(p, buf, pos)
    ensures pos <= |buf|
    ensures Read(f, buf[pos..]).Err? ==> Refuted(p, f, Read(f, buf[pos..]).error)
  {
    hide Read;
  }

  class Cursor {
    const buf: Bytes
    var pos: nat
    ghost var plan: Plan

    constructor (input: Bytes)
      ensures OnCourse(plan, buf, pos) && buf == input && pos == 0
    {
      buf := input;
      pos := 0;
      plan := Idle;
    }

    /** From here on the parser reads the layout `fs`. */
    ghost method Begin(fs: Fields)
      requires OnCourse(plan, buf, pos)
      modifies this`plan
      ensures OnCourse(plan, buf, pos) && pos <= |buf|
      ensures plan == Reading(fs, ReadAll(fs, buf[pos..]))
    {
      plan := Reading(fs, ReadAll(fs, buf[pos..]));
    }

    lemma Finished()
      requires OnCourse(plan, buf, pos) && plan.Reading? && plan.todo == End
      ensures pos <= |buf| && plan.outcome == Ok(Parsed(Nil, buf[pos..]))
    {
    }

    method Need(n: nat) returns (r: Result<()>)
      requires OnCourse(plan, buf, pos)
      ensures r == if |buf| - pos < n then Err(Truncated) else Ok(())
    {
      if |buf| - pos < n {
        return Err(Truncated);
      }
      return Ok(());
    }

    method U8() returns (r: Result<byte>)
      requires OnCourse(plan, buf, pos)
      modifies this
      ensures OnCourse(plan, buf, pos) && old(pos) <= pos <= |buf|
      ensures r.Ok? ==> Yields(Num(1), buf, old(pos), Value(r.value, []), pos)
      ensures r.Ok? ==> Continues(old(plan), Num(1), Value(r.value, []), plan)
      ensures r.Err? ==> Fails(Num(1), buf, old(pos), r.error)
      ensures r.Err? ==> Refuted(old(plan), Num(1), r.error)
    {
      hide Run, OnCourse, Continues, Refuted;
      Stop(plan, Num(1), buf, pos);
      var _ :- Need(1);
      var v := buf[pos];
      assert buf[pos..][..1] == [v];
      pos := pos + 1;
      Advance(plan, Num(1), buf, old(pos), Value(v, []), pos);
      plan := Next(plan, Num(1), buf[pos..]);
      return Ok(v);
    }

    method U16be() returns (r: Result<nat>)
      requires OnCourse(plan, buf, pos)
      modifies this
      ensures OnCourse(plan, buf, pos) && old(pos) <= pos <= |buf|
      ensures r.Ok? ==> Yields(Num(2), buf, old(pos), Value(r.value, []), pos)
      ensures r.Ok? ==> Continues(old(plan), Num(2), Value(r.value, []), plan)
      ensures r.Err? ==> Fails(Num(2), buf, old(pos), r.error)
      ensures r.Err? ==> Refuted(old(plan), Num(2), r.error)
    {
      hide Run, OnCourse, Continues, Refuted;
      Stop(plan, Num(2), buf, pos);
      var _ :- Need(2);
      var v: nat := buf[pos] as int * 256 + buf[pos + 1];
      assert buf[pos..][..2][..1] == [buf[pos]];
      assert FromBE(buf[pos..][..2]) == v;
      pos := pos + 2;
      Advance(plan, Num(2), buf, old(pos), Value(v, []), pos);
      plan := Next(plan, Num(2), buf[pos..]);
      return Ok(v);
    }

    method U32be() returns (r: Result<nat>)
      requires OnCourse(plan, buf, pos)
      modifies this
      ensures OnCourse(plan, buf, pos) && old(pos) <= pos <= |buf|
      ensures r.Ok? ==> Yields(Num(4), buf, old(pos), Value(r.value, []), pos)
      ensures r.Ok? ==> Continues(old(plan), Num(4), Value(r.value, []), plan)
      ensures r.Err? ==> Fails(Num(4), buf, old(pos), r.error)
      ensures r.Err? ==> Refuted(old(plan), Num(4), r.error)
    {
      hide Run, OnCourse, Continues, Refuted;
      Stop(plan, Num(4), buf, pos);
      var _ :- Need(4);
      var v: nat := buf[pos] as int * 0x1000000 + buf[pos + 1] as int * 0x10000
                    + buf[pos + 2] as int * 0x100 + buf[pos + 3];
      FromBE4(buf[pos..][..4]);
      pos := pos + 4;
      Advance(plan, Num(4), buf, old(pos), Value(v, []), pos);
      plan := Next(plan, Num(4), buf[pos..]);
      return Ok(v);
    }

    method U64be() returns (r: Result<uint64>)
      requires OnCourse(plan, buf, pos)
      modifies this
      ensures OnCourse(plan, buf, pos) && old(pos) <= pos <= |buf|
      ensures r.Ok? ==> Yields(Num(8), buf, old(pos), Value(r.value, []), pos)
      ensures r.Ok? ==> Continues(old(plan), Num(8), Value(r.value, []), plan)
      ensures r.Err? ==> Fails(Num(8), buf, old(pos), r.error)
      ensures r.Err? ==> Refuted(old(plan), Num(8), r.error)
    {
      hide Run, OnCourse, Continues, Refuted;
      Stop(plan, Num(8), buf, pos);
      var _ :- Need(8);
      var v: uint64 := 0;
      ghost var word := buf[pos..][..8];
      for i := 0 to 8
        invariant pos == old(pos) && plan == old(plan)
        invariant v == FromBE(word[..i])
      {
        ShiftFits(word, i);
        v := v * 256 % TWO_64 + buf[pos + i];   // v<<8 | b on 64 bits
      }
      assert word[..8] == word;
      pos := pos + 8;
      Advance(plan, Num(8), buf, old(pos), Value(v, []), pos);
      plan := Next(plan, Num(8), buf[pos..]);
      return Ok(v);
    }

    // The returned bytes alias the caller's buffer in Go; here they are its value.
    method Take(n: nat) returns (r: Result<Bytes>)
      requires OnCourse(plan, buf, pos)
      modifies this
      ensures OnCourse(plan, buf, pos) && old(pos) <= pos <= |buf|
      ensures r.Ok? ==> Yields(Raw(n), buf, old(pos), Value(0, r.value), pos) && |r.value| == n && pos == old(pos) + n
      ensures r.Err? ==> pos == old(pos)
      ensures r.Ok? ==> Continues(old(plan), Raw(n), Value(0, r.value), plan)
      ensures r.Err? ==> Fails(Raw(n), buf, old(pos), r.error)
      ensures r.Err? ==> Refuted(old(plan), Raw(n), r.error)
    {
      hide Run, OnCourse, Continues, Refuted;
      Stop(plan, Raw(n), buf, pos);
      var _ :- Need(n);
      var out := buf[pos..pos + n];
      assert buf[pos..][..n] == out;
      pos := pos + n;
      Advance(plan, Raw(n), buf, old(pos), Value(0, out), pos);
      plan := Next(plan, Raw(n), buf[pos..]);
      return Ok(out);
    }

    method Field16(max: nat) returns (r: Result<Bytes>)
      requires OnCourse(plan, buf, pos)
      modifies this
      ensures OnCourse(plan, buf, pos) && old(pos) <= pos <= |buf|
      ensures r.Ok? ==> Yields(Counted(2, max, 1), buf, old(pos), Value(|r.value|, r.value), pos)
      ensures r.Ok? ==> Continues(old(plan), Counted(2, max, 1), Value(|r.value|, r.value), plan)
      ensures r.Err? ==> Fails(Counted(2, max, 1), buf, old(pos), r.error)
      ensures r.Err? ==> Refuted(old(plan), Counted(2, max, 1), r.error)
    {
      hide Run, OnCourse, Continues, Refuted;
      Stop(plan, Counted(2, max, 1), buf, pos);
      ghost var before := plan;
      var n :- U16be();
      if n > max {
        return Err(Oversize);
      }
      assert n * 1 == n;
      var out :- Take(n);
      Advance(before, Counted(2, max, 1), buf, old(pos), Value(n, out), pos);
      plan := Next(before, Counted(2, max, 1), buf[pos..]);
      return Ok(out);
    }

    method Field32(max: nat) returns (r: Result<Bytes>)
      requires OnCourse(plan, buf, pos)
      modifies this
      ensures OnCourse(plan, buf, pos) && old(pos) <= pos <= |buf|
      ensures r.Ok? ==> Yields(Counted(4, max, 1), buf, old(pos), Value(|r.value|, r.value), pos)
      ensures r.Ok? ==> Continues(old(plan), Counted(4, max, 1), Value(|r.value|, r.value), plan)
      ensures r.Err? ==> Fails(Counted(4, max, 1), buf, old(pos), r.error)
      ensures r.Err? ==> Refuted(old(plan), Counted(4, max, 1), r.error)
    {
      hide Run, OnCourse, Continues, Refuted;
      Stop(plan, Counted(4, max, 1), buf, pos);
      ghost var before := plan;
      var n :- U32be();
      if n > max {
        return Err(Oversize);
      }
      assert n * 1 == n;
      var out :- Take(n);
      Advance(before, Counted(4, max, 1), buf, old(pos), Value(n, out), pos);
      plan := Next(before, Counted(4, max, 1), buf[pos..]);
      return Ok(out);
    }

    /** A one-byte count of at most `max`, then that many `unit`-byte items. */
    method Items(max: byte, unit: nat) returns (r: Result<(byte, Bytes)>)
      requires OnCourse(plan, buf, pos)
      modifies this
      ensures OnCourse(plan, buf, pos) && old(pos) <= pos <= |buf|
      ensures r.Ok? ==> Yields(Counted(1, max, unit), buf, old(pos), Value(r.value.0, r.value.1), pos)
      ensures r.Ok? ==> Continues(old(plan), Counted(1, max, unit), Value(r.value.0, r.value.1), plan)
      ensures r.Err? ==> Fails(Counted(1, max, unit), buf, old(pos), r.error)
      ensures r.Err? ==> Refuted(old(plan), Counted(1, max, unit), r.error)
    {
      hide Run, OnCourse, Continues, Refuted;
      Stop(plan, Counted(1, max, unit), buf, pos);
      ghost var before := plan;
      var n :- U8();
      if n > max {
        return Err(Oversize);
      }
      var out :- Take(n * unit);
      Advance(before, Counted(1, max, unit), buf, old(pos), Value(n, out), pos);
      plan := Next(before, Counted(1, max, unit), buf[pos..]);
      return Ok((n, out));
    }
  }

  /** What was read between two positions, told from the bytes left at the second. */
  lemma SliceRead(buf: Bytes, start: nat, mid: nat, end: nat)
    requires start <= mid <= end <= |buf|
    ensures var s := buf[start..];
            |s| - |buf[end..]| - (end - mid) >= 0 && buf[start..mid] == s[..|s| - |buf[end..]| - (end - mid)]
  {
  }

  lemma FromBE4(b: Bytes)
    requires |b| == 4
    ensures FromBE(b) == b[0] as int * 0x1000000 + b[1] as int * 0x10000 + b[2] as int * 0x100 + b[3]
  {
    assert b[..3][..2] == b[..2] && b[..2][..1] == b[..1] && b[..1][..0] == [];
    assert FromBE(b[..1]) == b[0];
    assert FromBE(b[..2]) == b[0] as int * 256 + b[1];
    assert FromBE(b[..3]) == FromBE(b[..2]) * 256 + b[2];
  }

  /** Shifting seven or fewer bytes left by one loses no bits of a 64-bit word. */
  lemma ShiftFits(word: Bytes, i: nat)
    requires i < |word| == 8
    ensures FromBE(word[..i + 1]) == FromBE(word[..i]) * 256 + word[i]
    ensures FromBE(word[..i]) * 256 < TWO_64 && FromBE(word[..i + 1]) < TWO_64
  {
    assert word[..i + 1][..i] == word[..i];
    Widths();
    Pow256Grows(i, 7);
    Pow256Grows(i + 1, 8);
    assert Pow256(8) == 256 * Pow256(7);
  }

  lemma {:induction false} Pow256Grows(a: nat, b: nat)
    requires a <= b
    ensures Pow256(a) <= Pow256(b)
  {
    if a < b {
      Pow256Grows(a, b - 1);
    }
  }
}
