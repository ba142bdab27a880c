/**
 The capture writer: two goroutines copy the child's stdout and stderr into one
 bounded buffer under a mutex.
 */
module Capture {
  import opened Octets

  datatype Captured = Captured(buf: Bytes, exceeded: bool)

  /** One atomic Write. */
  function After(c: Captured, max: int, p: Bytes): Captured {
    if c.exceeded then c
    else if |c.buf| + |p| > max then c.(exceeded := true)
    else c.(buf := c.buf + p)
  }

  class CaptureWriter {
    const max: int
    var buf: Bytes
    var exceeded: bool

    constructor (max: int)
      ensures this.max == max && buf == [] && !exceeded
    {
      this.max := max;
      buf := [];
      exceeded := false;
    }

    method Write(p: Bytes) returns (n: nat)
      modifies this
      ensures n == |p| && Captured(buf, exceeded) == After(old(Captured(buf, exceeded)), max, p)
    {
      if !exceeded {
        if |buf| + |p| > max {
          exceeded := true;
        } else {
          buf := buf + p;
        }
      }
      n := |p|;
    }
  }

  // Interleavings ------------------------------------------------------------

  datatype Source = Stdout | Stderr

  datatype Event = Event(source: Source, chunk: Bytes)

  /** The writer after a sequence of writes. */
  function Run(max: int, es: seq<Event>): Captured {
    if es == [] then Captured([], false) else After(Run(max, es[..|es| - 1]), max, es[|es| - 1].chunk)
  }

  function Merged(es: seq<Event>): Bytes {
    if es == [] then [] else Merged(es[..|es| - 1]) + es[|es| - 1].chunk
  }

  /** What one stream wrote. */
  function Only(s: Source, es: seq<Event>): seq<Bytes> {
    if es == [] then []
    else
      var init, last := Only(s, es[..|es| - 1]), es[|es| - 1];
      if last.source == s then init + [last.chunk] else init
  }

  function Concat(chunks: seq<Bytes>): Bytes {
    if chunks == [] then [] else Concat(chunks[..|chunks| - 1]) + chunks[|chunks| - 1]
  }

  /** All or nothing: the cap is exceeded exactly when there is more output than `max`
      (a negative cap refuses any write at all); otherwise the buffer is the whole
      output in the order it was observed. */
  lemma {:induction false} AllOrNothing(max: int, es: seq<Event>)
    ensures Run(max, es).exceeded <==> es != [] && |Merged(es)| > max
    ensures !Run(max, es).exceeded ==> Run(max, es).buf == Merged(es)
  {
    if es != [] {
      AllOrNothing(max, es[..|es| - 1]);
    }
  }

  lemma {:induction false} MergedLength(es: seq<Event>)
    ensures |Merged(es)| == |Concat(Only(Stdout, es))| + |Concat(Only(Stderr, es))|
  {
    if es != [] {
      var init, last := es[..|es| - 1], es[|es| - 1];
      MergedLength(init);
      var a := Only(last.source, init);
      assert Only(last.source, es)[..|a|] == a;
    }
  }

  /** Whether a receipt is possible depends on what the streams wrote, not on how the
      scheduler interleaved them. */
  lemma OrderIrrelevant(max: int, es: seq<Event>, fs: seq<Event>)
    requires max >= 0 && Only(Stdout, es) == Only(Stdout, fs) && Only(Stderr, es) == Only(Stderr, fs)
    ensures Run(max, es).exceeded <==> Run(max, fs).exceeded
    ensures !Run(max, es).exceeded ==> |Run(max, es).buf| == |Run(max, fs).buf| <= max
  {
    hide Run, Merged, Only, Concat;
    AllOrNothing(max, es);
    AllOrNothing(max, fs);
    MergedLength(es);
    MergedLength(fs);
    assert Merged([]) == [] by { MergedNothing(); }
  }

  lemma MergedNothing()
    ensures Merged([]) == []
  {
  }

  // Each captured byte with the stream it came from.
  datatype Mark = Mark(source: Source, value: byte)

  function Marks(s: Source, chunk: Bytes): seq<Mark> {
    seq(|chunk|, i requires 0 <= i < |chunk| => Mark(s, chunk[i]))
  }

  function Marked(es: seq<Event>): seq<Mark> {
    if es == [] then [] else Marked(es[..|es| - 1]) + Marks(es[|es| - 1].source, es[|es| - 1].chunk)
  }

  function Values(ms: seq<Mark>): Bytes {
    seq(|ms|, i requires 0 <= i < |ms| => ms[i].value)
  }

  function Restrict(s: Source, ms: seq<Mark>): Bytes {
    if ms == [] then []
    else
      var init, last := Restrict(s, ms[..|ms| - 1]), ms[|ms| - 1];
      if last.source == s then init + [last.value] else init
  }

  lemma {:induction false} RestrictAppend(s: Source, a: seq<Mark>, b: seq<Mark>)
    ensures Restrict(s, a + b) == Restrict(s, a) + Restrict(s, b)
  {
    if b == [] {
      assert a + b == a;
    } else {
      var init, last := b[..|b| - 1], b[|b| - 1];
      assert (a + b)[..|a + b| - 1] == a + init;
      RestrictAppend(s, a, init);
    }
  }

  lemma {:induction false} RestrictMarks(s: Source, t: Source, chunk: Bytes)
    ensures Restrict(s, Marks(t, chunk)) == if s == t then chunk else []
  {
    if chunk != [] {
      var init := chunk[..|chunk| - 1];
      RestrictMarks(s, t, init);
      assert Marks(t, chunk)[..|chunk| - 1] == Marks(t, init);
      assert chunk == init + [chunk[|chunk| - 1]];
    }
  }

  /** Byte-exact per stream: the buffer is a merge in which each stream's own bytes
      appear complete and in order. */
  lemma {:induction false} StreamsExact(es: seq<Event>, s: Source)
    ensures Values(Marked(es)) == Merged(es)
    ensures Restrict(s, Marked(es)) == Concat(Only(s, es))
  {
    if es != [] {
      var init, last := es[..|es| - 1], es[|es| - 1];
      StreamsExact(init, s);
      var a, b := Marked(init), Marks(last.source, last.chunk);
      assert Values(a + b) == Values(a) + last.chunk;
      RestrictAppend(s, a, b);
      RestrictMarks(s, last.source, last.chunk);
      var o := Only(s, init);
      assert last.source == s ==> Only(s, es)[..|o|] == o;
    }
  }
}
