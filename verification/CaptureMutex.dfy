/**
 The capture writer under its mutex, step by step. Two goroutines each push their
 chunks through Write; between lock and unlock a Write reads the state, decides, and
 updates. Every run, under every schedule, is the atomic writer on some interleaving.
 */
module CaptureMutex {
  import opened Octets
  import opened Capture

  // Where a goroutine is inside Write, and the chunk it carries.
  datatype Pc = Idle | Locked(p: Bytes) | Fits(p: Bytes) | TooMuch(p: Bytes) | Leaving

  datatype Proc = Proc(pc: Pc, todo: seq<Bytes>)

  // `log` is a history variable: the order in which chunks got the lock.
  datatype State = State(out: Proc, err: Proc, lock: Lock, cap: Captured, log: seq<Event>)

  datatype Lock = Free | HeldBy(source: Source)

  function Of(st: State, s: Source): Proc {
    if s == Stdout then st.out else st.err
  }

  function With(st: State, s: Source, p: Proc): State {
    if s == Stdout then st.(out := p) else st.(err := p)
  }

  function Init(outs: seq<Bytes>, errs: seq<Bytes>): State {
    State(Proc(Idle, outs), Proc(Idle, errs), Free, Captured([], false), [])
  }

  /** Only taking the lock can have to wait. */
  predicate Enabled(a: State, s: Source) {
    Of(a, s).pc.Idle? ==> a.lock == Free && Of(a, s).todo != []
  }

  function Stepped(max: int, a: State, s: Source): State
    requires Enabled(a, s)
  {
    var me := Of(a, s);
    match me.pc
    case Idle =>   // Lock
      With(a, s, Proc(Locked(me.todo[0]), me.todo[1..])).(lock := HeldBy(s), log := a.log + [Event(s, me.todo[0])])
    case Locked(p) =>   // read exceeded and len(buf), and branch
      var next := if a.cap.exceeded then Leaving else if |a.cap.buf| + |p| > max then TooMuch(p) else Fits(p);
      With(a, s, me.(pc := next))
    case TooMuch(p) => With(a, s, me.(pc := Leaving)).(cap := a.cap.(exceeded := true))
    case Fits(p) => With(a, s, me.(pc := Leaving)).(cap := a.cap.(buf := a.cap.buf + p))
    case Leaving => With(a, s, me.(pc := Idle)).(lock := Free)   // Unlock
  }

  /** One step of goroutine `s`. */
  predicate Step(max: int, a: State, s: Source, b: State) {
    Enabled(a, s) && b == Stepped(max, a, s)
  }

  /** The writer as its last completed write left it, and how the holder's progress
      relates to it. */
  ghost predicate HolderConsistent(max: int, st: State, s: Source) {
    && st.log != []
    && var done, last := Run(max, st.log[..|st.log| - 1]), st.log[|st.log| - 1];
    match Of(st, s).pc
    case Idle => false
    case Locked(p) => last == Event(s, p) && st.cap == done
    case Fits(p) => last == Event(s, p) && st.cap == done && !done.exceeded && |done.buf| + |p| <= max
    case TooMuch(p) => last == Event(s, p) && st.cap == done && !done.exceeded && |done.buf| + |p| > max
    case Leaving => st.cap == Run(max, st.log)
  }

  function Other(s: Source): Source {
    if s == Stdout then Stderr else Stdout
  }

  ghost predicate Inv(max: int, outs: seq<Bytes>, errs: seq<Bytes>, st: State) {
    && Only(Stdout, st.log) + st.out.todo == outs
    && Only(Stderr, st.log) + st.err.todo == errs
    && match st.lock
       case Free => st.out.pc == Idle && st.err.pc == Idle && st.cap == Run(max, st.log)
       case HeldBy(s) => Of(st, Other(s)).pc == Idle && HolderConsistent(max, st, s)
  }

  lemma InitInv(max: int, outs: seq<Bytes>, errs: seq<Bytes>)
    ensures Inv(max, outs, errs, Init(outs, errs))
  {
    assert [] + outs == outs && [] + errs == errs;
  }

  lemma LockInv(max: int, outs: seq<Bytes>, errs: seq<Bytes>, a: State, s: Source, b: State)
    requires Inv(max, outs, errs, a) && Of(a, s).pc.Idle? && Step(max, a, s, b)
    ensures Inv(max, outs, errs, b)
  {
    hide Run;
    var todo := Of(a, s).todo;
    assert b.log[..|a.log|] == a.log;
    assert todo == [todo[0]] + todo[1..];
    assert Only(s, b.log) == Only(s, a.log) + [todo[0]];
    assert Only(Other(s), b.log) == Only(Other(s), a.log);
    assert Only(s, a.log) + todo == Only(s, b.log) + todo[1..];
  }

  lemma HolderInv(max: int, outs: seq<Bytes>, errs: seq<Bytes>, a: State, s: Source, b: State)
    requires Inv(max, outs, errs, a) && !Of(a, s).pc.Idle? && Step(max, a, s, b)
    ensures Inv(max, outs, errs, b)
  {
    hide Only;
  }

  /** Every step keeps the invariant: the mutex makes Write atomic. */
  lemma StepInv(max: int, outs: seq<Bytes>, errs: seq<Bytes>, a: State, s: Source, b: State)
    requires Inv(max, outs, errs, a) && Step(max, a, s, b)
    ensures Inv(max, outs, errs, b)
  {
    hide Inv, Step;
    if Of(a, s).pc.Idle? {
      LockInv(max, outs, errs, a, s, b);
    } else {
      HolderInv(max, outs, errs, a, s, b);
    }
  }

  predicate Next(max: int, a: State, b: State) {
    Step(max, a, Stdout, b) || Step(max, a, Stderr, b)
  }

  /** A run: any schedule of steps from the start. */
  ghost predicate Behaviour(max: int, outs: seq<Bytes>, errs: seq<Bytes>, run: seq<State>) {
    && run != [] && run[0] == Init(outs, errs)
    && forall i :: 0 < i < |run| ==> Next(max, run[i - 1], run[i])
  }

  lemma {:induction false} RunInv(max: int, outs: seq<Bytes>, errs: seq<Bytes>, run: seq<State>, i: nat)
    requires Behaviour(max, outs, errs, run) && i < |run|
    ensures Inv(max, outs, errs, run[i])
  {
    hide Inv, Step;
    if i == 0 {
      InitInv(max, outs, errs);
    } else {
      RunInv(max, outs, errs, run, i - 1);
      var s := if Step(max, run[i - 1], Stdout, run[i]) then Stdout else Stderr;
      StepInv(max, outs, errs, run[i - 1], s, run[i]);
    }
  }

  /** Both goroutines have written everything and left. */
  predicate Finished(st: State) {
    st.out == Proc(Idle, []) && st.err == Proc(Idle, [])
  }

  lemma NextSticky(max: int, a: State, b: State)
    requires Next(max, a, b) && a.cap.exceeded
    ensures b.cap.exceeded
  {
  }

  lemma OneInside(max: int, outs: seq<Bytes>, errs: seq<Bytes>, st: State)
    requires Inv(max, outs, errs, st)
    ensures st.out.pc.Idle? || st.err.pc.Idle?
  {
    hide HolderConsistent, Only, Run;
  }

  /** Under every schedule, in every reachable state: `exceeded` once set stays set,
      and at most one goroutine is inside Write. */
  lemma {:induction false} SafeEverywhere(max: int, outs: seq<Bytes>, errs: seq<Bytes>, run: seq<State>, i: nat, j: nat)
    requires Behaviour(max, outs, errs, run) && i <= j < |run|
    ensures run[i].cap.exceeded ==> run[j].cap.exceeded
    ensures run[i].out.pc.Idle? || run[i].err.pc.Idle?
    decreases j
  {
    hide Inv, Next;
    RunInv(max, outs, errs, run, i);
    OneInside(max, outs, errs, run[i]);
    if i < j {
      SafeEverywhere(max, outs, errs, run, i, j - 1);
      if run[j - 1].cap.exceeded {
        NextSticky(max, run[j - 1], run[j]);
      }
    }
  }

  /** When both streams are drained, the capture is all or nothing: exceeded exactly
      when there is more output than the cap, else the complete merge of both streams. */
  lemma CaptureOutcome(max: int, outs: seq<Bytes>, errs: seq<Bytes>, run: seq<State>)
    requires max >= 0 && Behaviour(max, outs, errs, run) && Finished(run[|run| - 1])
    ensures var end := run[|run| - 1];
            && Only(Stdout, end.log) == outs && Only(Stderr, end.log) == errs
            && end.cap == Run(max, end.log)
            && (end.cap.exceeded <==> |Concat(outs)| + |Concat(errs)| > max)
            && (!end.cap.exceeded ==>
                  && end.cap.buf == Values(Marked(end.log)) && |end.cap.buf| <= max
                  && Restrict(Stdout, Marked(end.log)) == Concat(outs)
                  && Restrict(Stderr, Marked(end.log)) == Concat(errs))
  {
    hide Next, Run, Merged, Concat, Marked, Restrict, Values;
    var end := run[|run| - 1];
    RunInv(max, outs, errs, run, |run| - 1);
    FreeWhenFinished(max, outs, errs, end);
    assert Only(Stdout, end.log) + [] == Only(Stdout, end.log) && Only(Stderr, end.log) + [] == Only(Stderr, end.log);
    AllOrNothing(max, end.log);
    MergedLength(end.log);
    StreamsExact(end.log, Stdout);
    StreamsExact(end.log, Stderr);
    assert end.log == [] ==> Merged(end.log) == [] by { MergedNothing(); }
  }

  lemma FreeWhenFinished(max: int, outs: seq<Bytes>, errs: seq<Bytes>, st: State)
    requires Inv(max, outs, errs, st) && Finished(st)
    ensures st.lock == Free && st.cap == Run(max, st.log)
  {
  }

  // Termination ---------------------------------------------------------------

  function PcWork(pc: Pc): nat {
    match pc
    case Idle => 0
    case Leaving => 1
    case Fits(_) => 2
    case TooMuch(_) => 2
    case Locked(_) => 3
  }

  /** The steps a goroutine still has to take, at most. */
  function ProcWork(p: Proc): nat {
    4 * |p.todo| + PcWork(p.pc)
  }

  function Work(st: State): nat {
    ProcWork(st.out) + ProcWork(st.err)
  }

  lemma WorkFalls(max: int, a: State, b: State)
    requires Next(max, a, b)
    ensures Work(b) < Work(a)
  {
  }

  /** No schedule goes on for ever: a run has at most four steps a chunk. */
  lemma {:induction false} RunsEnd(max: int, outs: seq<Bytes>, errs: seq<Bytes>, run: seq<State>, i: nat)
    requires Behaviour(max, outs, errs, run) && i < |run|
    ensures i + Work(run[i]) <= 4 * (|outs| + |errs|)
  {
    hide Next;
    if i > 0 {
      RunsEnd(max, outs, errs, run, i - 1);
      WorkFalls(max, run[i - 1], run[i]);
    }
  }

  /** The mutex never deadlocks: until both streams are drained some goroutine can step. */
  lemma NoDeadlock(max: int, outs: seq<Bytes>, errs: seq<Bytes>, st: State)
    requires Inv(max, outs, errs, st) && !Finished(st)
    ensures exists b :: Next(max, st, b)
  {
    hide Run, Only;
    var s := if st.lock.HeldBy? then st.lock.source else if st.out.todo != [] then Stdout else Stderr;
    assert Step(max, st, s, Stepped(max, st, s));
    assert Next(max, st, Stepped(max, st, s));
  }

  ghost predicate Stuck(max: int, st: State) {
    forall b :: !Next(max, st, b)
  }

  /** Every maximal run, under every schedule, ends with both streams drained and the
      capture all or nothing. */
  lemma EveryScheduleEnds(max: int, outs: seq<Bytes>, errs: seq<Bytes>, run: seq<State>)
    requires max >= 0 && Behaviour(max, outs, errs, run) && Stuck(max, run[|run| - 1])
    ensures var end := run[|run| - 1];
            && Finished(end) && |run| <= 4 * (|outs| + |errs|) + 1
            && (end.cap.exceeded <==> |Concat(outs)| + |Concat(errs)| > max)
            && (!end.cap.exceeded ==>
                  && end.cap.buf == Values(Marked(end.log)) && |end.cap.buf| <= max
                  && Restrict(Stdout, Marked(end.log)) == Concat(outs)
                  && Restrict(Stderr, Marked(end.log)) == Concat(errs))
  {
    hide Inv, Next, Run, Merged, Concat, Marked, Restrict, Values, Work, Only;
    var end := run[|run| - 1];
    RunInv(max, outs, errs, run, |run| - 1);
    RunsEnd(max, outs, errs, run, |run| - 1);
    if !Finished(end) {
      NoDeadlock(max, outs, errs, end);
    }
    CaptureOutcome(max, outs, errs, run);
  }
}
