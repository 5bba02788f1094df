// The locking of liblsd/cbuf.c: any number of threads calling any operations on
// any buffers never deadlock.

module CbufLocks {

  // A buffer is known by its memory address, which orders the locks.
  type Address = nat

  // An operation that locks nothing (an argument it rejects, or a length of 0),
  // one buffer, or two.
  datatype Call = NoLock | OneBuffer(cb: Address) | TwoBuffers(src: Address, dst: Address)

  datatype Action = Lock(cb: Address) | Unlock(cb: Address)

  // What the code of an operation does to the mutexes, in order.
  function Actions(call: Call): seq<Action> {
    match call
    case NoLock => []
    case OneBuffer(cb) => [Lock(cb), Unlock(cb)]
    case TwoBuffers(src, dst) =>
      if src == dst then []
      else if src < dst then [Lock(src), Lock(dst), Unlock(src), Unlock(dst)]
      else [Lock(dst), Lock(src), Unlock(src), Unlock(dst)]
  }

  // The rest of the call a thread is in, and the calls it has yet to make.
  datatype Thread = Thread(acts: seq<Action>, calls: seq<Call>)

  datatype State = State(threads: seq<Thread>, owner: map<Address, nat>)

  predicate Finished(th: Thread) {
    th.acts == [] && th.calls == []
  }

  predicate Enabled(s: State, t: nat)
    requires t < |s.threads|
  {
    var th := s.threads[t];
    if th.acts == [] then th.calls != []
    else match th.acts[0]
      case Lock(cb) => cb !in s.owner
      case Unlock(cb) => cb in s.owner && s.owner[cb] == t
  }

  function Step(s: State, t: nat): State
    requires t < |s.threads| && Enabled(s, t)
  {
    var th := s.threads[t];
    if th.acts == [] then
      State(s.threads[t := Thread(Actions(th.calls[0]), th.calls[1..])], s.owner)
    else
      var threads := s.threads[t := th.(acts := th.acts[1..])];
      match th.acts[0]
      case Lock(cb) => State(threads, s.owner[cb := t])
      case Unlock(cb) => State(threads, s.owner - {cb})
  }

  // Threads start outside any call, with no lock taken.
  predicate Initial(s: State) {
    s.owner == map[] && forall t | 0 <= t < |s.threads| :: s.threads[t].acts == []
  }

  // A schedule names the thread that makes each step.
  ghost predicate Runs(s: State, schedule: seq<nat>, end: State)
    decreases |schedule|
  {
    if schedule == [] then s == end
    else schedule[0] < |s.threads| && Enabled(s, schedule[0]) && Runs(Step(s, schedule[0]), schedule[1..], end)
  }

  // ----- the invariant ---------------------------------------------------------

  // The mutexes that the rest of a call unlocks without locking them first.
  function Held(acts: seq<Action>): set<Address> {
    if acts == [] then {}
    else match acts[0]
      case Lock(cb) => Held(acts[1..]) - {cb}
      case Unlock(cb) => Held(acts[1..]) + {cb}
  }

  // Mutexes are locked once, in increasing order and above those held, before
  // any is unlocked.
  ghost predicate Orderly(acts: seq<Action>) {
    acts != [] ==>
      && Orderly(acts[1..])
      && match acts[0]
         case Lock(cb) => cb in Held(acts[1..]) && forall h | h in Held(acts) :: h < cb
         case Unlock(cb) => cb !in Held(acts[1..]) && forall k | 1 <= k < |acts| :: acts[k].Unlock?
  }

  lemma UnlocksAreOrderly(a: Address, b: Address)
    requires a != b
    ensures Orderly([Unlock(a), Unlock(b)]) && Held([Unlock(a), Unlock(b)]) == {a, b}
  {
    assert [Unlock(b)][1..] == [];
    assert Held([Unlock(b)]) == {b};
    assert [Unlock(a), Unlock(b)][1..] == [Unlock(b)];
  }

  lemma PairIsOrderly(low: Address, high: Address, first: Address, second: Address)
    requires low < high && {first, second} == {low, high} && first != second
    ensures var acts := [Lock(low), Lock(high), Unlock(first), Unlock(second)];
      Orderly(acts) && Held(acts) == {}
  {
    UnlocksAreOrderly(first, second);
    var rest := [Lock(high), Unlock(first), Unlock(second)];
    assert rest[1..] == [Unlock(first), Unlock(second)];
    assert Held(rest) == {low};
    assert Orderly(rest);
    assert [Lock(low), Lock(high), Unlock(first), Unlock(second)][1..] == rest;
  }

  lemma CallsAreOrderly(call: Call)
    ensures Orderly(Actions(call)) && Held(Actions(call)) == {}
  {
    match call
    case NoLock =>
    case OneBuffer(cb) =>
      assert [Unlock(cb)][1..] == [];
      assert [Lock(cb), Unlock(cb)][1..] == [Unlock(cb)];
      assert Held([Unlock(cb)]) == {cb};
    case TwoBuffers(src, dst) =>
      if src < dst {
        PairIsOrderly(src, dst, src, dst);
      } else if dst < src {
        PairIsOrderly(dst, src, src, dst);
      }
  }

  ghost predicate Inv(s: State) {
    && (forall t | 0 <= t < |s.threads| :: Orderly(s.threads[t].acts))
    && (forall cb | cb in s.owner :: s.owner[cb] < |s.threads| && cb in Held(s.threads[s.owner[cb]].acts))
    && (forall t, cb | 0 <= t < |s.threads| && cb in Held(s.threads[t].acts) :: cb in s.owner && s.owner[cb] == t)
  }

  // Making a step changes what the thread itself holds and nothing else.
  lemma StepChangesHeld(s: State, t: nat)
    requires t < |s.threads| && Enabled(s, t) && Orderly(s.threads[t].acts)
    ensures var acts := s.threads[t].acts; var later := Step(s, t).threads[t].acts;
      && Orderly(later)
      && Held(later) == (if acts == [] then Held(acts)
                        else if acts[0].Lock? then Held(acts) + {acts[0].cb} else Held(acts) - {acts[0].cb})
  {
    var acts := s.threads[t].acts;
    if acts == [] {
      CallsAreOrderly(s.threads[t].calls[0]);
    } else {
      assert Held(acts) == match acts[0]
        case Lock(cb) => Held(acts[1..]) - {cb}
        case Unlock(cb) => Held(acts[1..]) + {cb};
    }
  }

  lemma StepKeepsInv(s: State, t: nat)
    requires Inv(s) && t < |s.threads| && Enabled(s, t)
    ensures Inv(Step(s, t))
  {
    StepChangesHeld(s, t);
    var next := Step(s, t);
    assert forall u | 0 <= u < |s.threads| && u != t :: next.threads[u] == s.threads[u];
    forall cb | cb in next.owner
      ensures next.owner[cb] < |s.threads| && cb in Held(next.threads[next.owner[cb]].acts)
    {
      if cb in s.owner && next.owner[cb] == s.owner[cb] {
        assert cb in Held(s.threads[s.owner[cb]].acts);
      }
    }
    forall u, cb | 0 <= u < |s.threads| && cb in Held(next.threads[u].acts)
      ensures cb in next.owner && next.owner[cb] == u
    {
      if cb in Held(s.threads[u].acts) {
        assert cb in s.owner && s.owner[cb] == u;
      }
    }
  }

  lemma {:induction false} RunsKeepInv(s: State, schedule: seq<nat>, end: State)
    requires Inv(s) && Runs(s, schedule, end)
    ensures Inv(end)
    decreases |schedule|
  {
    if schedule != [] {
      StepKeepsInv(s, schedule[0]);
      RunsKeepInv(Step(s, schedule[0]), schedule[1..], end);
    }
  }

  // ----- deadlock freedom --------------------------------------------------------

  lemma {:induction false} HighestAddress(a: set<Address>) returns (top: Address)
    requires a != {}
    ensures top in a && forall b | b in a :: b <= top
    decreases |a|
  {
    top :| top in a;
    if a != {top} {
      assert exists b :: b in a - {top} by {
        assert a == (a - {top}) + {top};
      }
      var rest := HighestAddress(a - {top});
      if rest > top {
        top := rest;
      }
    }
  }

  lemma UnlockIsEnabled(s: State, t: nat)
    requires Inv(s) && t < |s.threads|
    requires s.threads[t].acts != [] && s.threads[t].acts[0].Unlock?
    ensures Enabled(s, t)
  {
    assert s.threads[t].acts[0].cb in Held(s.threads[t].acts);
  }

  // The owner of the highest locked mutex can go on: it unlocks, or it waits for
  // a higher one, which is free.
  lemma SomeStepIsEnabled(s: State)
    requires Inv(s)
    requires exists t :: 0 <= t < |s.threads| && !Finished(s.threads[t])
    ensures exists t :: 0 <= t < |s.threads| && Enabled(s, t)
  {
    var t :| 0 <= t < |s.threads| && !Finished(s.threads[t]);
    if s.threads[t].acts != [] && s.threads[t].acts[0].Unlock? {
      UnlockIsEnabled(s, t);
    } else if s.owner == map[] {
      assert Enabled(s, t);
    } else {
      var top := HighestAddress(s.owner.Keys);
      var u := s.owner[top];
      var acts := s.threads[u].acts;
      assert top in Held(acts);
      if acts[0].Unlock? {
        UnlockIsEnabled(s, u);
      } else {
        assert top < acts[0].cb;
        assert Enabled(s, u);
      }
    }
  }

  // In every state that threads calling cbuf operations can reach, a thread that
  // has not finished means that some thread can make a step.
  lemma DeadlockFree(s: State, schedule: seq<nat>, end: State)
    requires Initial(s) && Runs(s, schedule, end)
    requires exists t :: 0 <= t < |end.threads| && !Finished(end.threads[t])
    ensures exists t :: 0 <= t < |end.threads| && Enabled(end, t)
  {
    RunsKeepInv(s, schedule, end);
    SomeStepIsEnabled(end);
  }

  // ----- every run ends -----------------------------------------------------------

  function Work(threads: seq<Thread>): nat {
    if threads == [] then 0 else |threads[0].acts| + 5 * |threads[0].calls| + Work(threads[1..])
  }

  lemma {:induction false} WorkOfUpdate(threads: seq<Thread>, t: nat, th: Thread)
    requires t < |threads|
    ensures Work(threads[t := th]) == Work(threads)
      - |threads[t].acts| - 5 * |threads[t].calls| + |th.acts| + 5 * |th.calls|
    decreases t
  {
    if t == 0 {
      assert threads[t := th][1..] == threads[1..];
    } else {
      assert threads[t := th][1..] == threads[1..][t - 1 := th];
      WorkOfUpdate(threads[1..], t - 1, th);
    }
  }

  lemma StepDoesWork(s: State, t: nat)
    requires t < |s.threads| && Enabled(s, t)
    ensures Work(Step(s, t).threads) < Work(s.threads)
  {
    WorkOfUpdate(s.threads, t, Step(s, t).threads[t]);
  }

  lemma {:induction false} RunsAreShort(s: State, schedule: seq<nat>, end: State)
    requires Runs(s, schedule, end)
    ensures |schedule| + Work(end.threads) <= Work(s.threads)
    decreases |schedule|
  {
    if schedule != [] {
      StepDoesWork(s, schedule[0]);
      RunsAreShort(Step(s, schedule[0]), schedule[1..], end);
    }
  }

  lemma OwnerIsNotFinished(s: State)
    requires Inv(s) && s.owner != map[]
    ensures exists t :: 0 <= t < |s.threads| && !Finished(s.threads[t])
  {
    var cb :| cb in s.owner;
    assert cb in Held(s.threads[s.owner[cb]].acts);
  }

  // So however the steps are scheduled, every thread makes all its calls: a run
  // that cannot be continued has finished them, and no run is longer than Work.
  lemma EveryRunFinishes(s: State, schedule: seq<nat>, end: State)
    requires Initial(s) && Runs(s, schedule, end)
    requires forall t | 0 <= t < |end.threads| :: !Enabled(end, t)
    ensures forall t | 0 <= t < |end.threads| :: Finished(end.threads[t])
    ensures end.owner == map[] && |schedule| <= Work(s.threads)
  {
    RunsKeepInv(s, schedule, end);
    RunsAreShort(s, schedule, end);
    if exists t :: 0 <= t < |end.threads| && !Finished(end.threads[t]) {
      SomeStepIsEnabled(end);
    }
    if end.owner != map[] {
      OwnerIsNotFinished(end);
    }
  }

  // ----- nobody else has the buffer -------------------------------------------------

  // The buffers that an operation reads or writes; none if it is to copy a buffer to itself.
  function Buffers(call: Call): set<Address> {
    match call
    case NoLock => {}
    case OneBuffer(cb) => {cb}
    case TwoBuffers(src, dst) => if src == dst then {} else {src, dst}
  }

  // What the code does behind the work.
  function Releases(call: Call): seq<Action> {
    match call
    case NoLock => []
    case OneBuffer(cb) => [Unlock(cb)]
    case TwoBuffers(src, dst) => if src == dst then [] else [Unlock(src), Unlock(dst)]
  }

  // The thread has taken the mutexes of the call and released none: it is at work.
  predicate AtWork(th: Thread, call: Call) {
    th.acts == Releases(call)
  }

  // An operation takes the mutexes of all its buffers before it works, and releases them
  // after that.
  lemma CallsHoldTheirBuffers(call: Call)
    ensures var acts := Actions(call); var n := |acts| - |Releases(call)|;
      && n >= 0 && acts[n..] == Releases(call) && Held(Releases(call)) == Buffers(call)
      && (forall k | 0 <= k < n :: acts[k].Lock?)
      && (forall k | n <= k < |acts| :: acts[k].Unlock?)
  {
    match call
    case NoLock =>
    case OneBuffer(cb) =>
      assert [Unlock(cb)][1..] == [];
    case TwoBuffers(src, dst) =>
      if src != dst {
        UnlocksAreOrderly(src, dst);
      }
  }

  lemma HeldAtWork(th: Thread, call: Call)
    requires AtWork(th, call)
    ensures Held(th.acts) == Buffers(call)
  {
    CallsHoldTheirBuffers(call);
  }

  lemma HeldOnce(s: State, t: nat, u: nat)
    requires Inv(s) && t < |s.threads| && u < |s.threads| && t != u
    ensures Held(s.threads[t].acts) !! Held(s.threads[u].acts)
  {
    forall cb | cb in Held(s.threads[t].acts) ensures cb !in Held(s.threads[u].acts) {
      assert s.owner[cb] == t;
    }
  }

  // In every state that can be reached, two threads at work have no buffer in common.
  lemma MutualExclusion(s: State, schedule: seq<nat>, end: State, t: nat, u: nat, c: Call, d: Call)
    requires Initial(s) && Runs(s, schedule, end) && t < |end.threads| && u < |end.threads| && t != u
    requires AtWork(end.threads[t], c) && AtWork(end.threads[u], d)
    ensures Buffers(c) !! Buffers(d)
  {
    RunsKeepInv(s, schedule, end);
    HeldAtWork(end.threads[t], c);
    HeldAtWork(end.threads[u], d);
    HeldOnce(end, t, u);
  }
}
