// When the wrap flag can be trusted, over whole runs of operations.

module CbufRuns {
  import opened Seqs
  import opened CbufSpec
  import opened CbufLaws
  import opened CbufLineLaws

  // A descriptor that is asked for len bytes delivers d.
  datatype Op =
    | Write(s: seq<Byte>, granted: bool)
    | WriteLine(s: seq<Byte>, g0: bool, g1: bool, g2: bool)
    | WriteFromFd(len: int, d: seq<Byte>, granted: bool)
    | CopyFrom(s: seq<Byte>, granted: bool)
    | Drop(n: nat)
    | Rewind(n: nat)
    | Flush
    | SetOverwrite(policy: Policy)

  function Step(v: View, op: Op): (w: View)
    requires v.Valid()
    ensures w.Valid()
  {
    match op
    case Write(s, granted) => v.Write(s, granted).view
    case WriteLine(s, g0, g1, g2) => v.WriteLine(s, g0, g1, g2).view
    case WriteFromFd(len, d, granted) => v.Grown(v.Wanted(len), granted).Arrive(d)
    case CopyFrom(s, granted) => v.Copy(s, granted).view
    case Drop(n) => v.Drop(Min(n, |v.unread|))
    case Rewind(n) => v.Rewind(Min(n, |v.replay|))
    case Flush => v.Flush()
    case SetOverwrite(policy) => v.(policy := policy)
  }

  // Everything accepted since the buffer was created or flushed.
  function Log(v: View, log: seq<Byte>, op: Op): seq<Byte>
    requires v.Valid()
  {
    match op
    case Write(s, granted) => log + s[..Max(v.Write(s, granted).rc, 0)]
    case WriteLine(s, g0, g1, g2) => if v.WriteLine(s, g0, g1, g2).rc < 0 then log else log + Line(s)
    case WriteFromFd(len, d, granted) => log + d
    case CopyFrom(s, granted) => log + s[..Max(v.Copy(s, granted).rc, 0)]
    case Flush => []
    case _ => log
  }

  // The flag is honest if data is missing from the history only when it is set.
  // The line scanner relies on this when it takes the first byte to start a line.
  ghost predicate Honest(v: View, log: seq<Byte>) {
    v.gotWrap || v.History() == log
  }

  // The size after the requests for room that a line makes for its text and for the
  // newline it lacks, if nothing is overwritten on the way.
  function SizeForText(g: View, s: seq<Byte>, g1: bool): nat
    requires g.Valid() && |Missing(s)| <= Kept(g, s)
  {
    g.Grown(Kept(g, s) - |Missing(s)|, g1).size
  }

  function SizeForLine(g: View, s: seq<Byte>, g1: bool, g2: bool): nat
    requires g.Valid() && |Missing(s)| <= Kept(g, s)
  {
    if Missing(s) == [] then SizeForText(g, s, g1)
    else g.(size := SizeForText(g, s, g1)).Grown(Kept(g, s), g2).size
  }

  // A copy too long for a buffer with no history, or a line too long for the buffer
  // whose end is stored without overwriting anything, leaves the flag clear.
  predicate SkipsSilently(v: View, op: Op)
    requires v.Valid()
  {
    v.policy == WrapMany && !v.gotWrap &&
    match op
    case WriteLine(s, g0, g1, g2) =>
      var g := v.Grown(|Line(s)|, g0);
      && |Line(s)| > g.size
      && |v.History()| + g.size - |Missing(s)| <= SizeForText(g, s, g1)
      && |v.History()| + g.size <= SizeForLine(g, s, g1, g2)
    case CopyFrom(s, granted) => v.History() == [] && |s| > v.Grown(|s|, granted).size
    case _ => false
  }

  // The flag stays honest across an operation unless that skips silently.
  lemma HonestUnlessSkipped(v: View, log: seq<Byte>, op: Op)
    requires v.Valid() && Honest(v, log)
    ensures Honest(Step(v, op), Log(v, log, op)) <==> !SkipsSilently(v, op)
  {
    match op
    case Write(s, granted) => WriteIsHonest(v, log, s, granted);
    case WriteFromFd(len, d, granted) => ArriveIsHonest(v.Grown(v.Wanted(len), granted), log, d);
    case CopyFrom(s, granted) => CopyIsHonest(v, log, s, granted);
    case WriteLine(s, g0, g1, g2) => LineIsHonest(v, log, s, g0, g1, g2);
    case _ =>
  }

  lemma ArriveIsHonest(v: View, log: seq<Byte>, d: seq<Byte>)
    requires v.Valid() && Honest(v, log)
    ensures Honest(v.Arrive(d), log + d)
  {
    v.ArriveKeepsLatest(d);
    LastNIsSlice(v.History() + d, v.size);
  }

  lemma WriteIsHonest(v: View, log: seq<Byte>, s: seq<Byte>, granted: bool)
    requires v.Valid() && Honest(v, log)
    ensures Honest(v.Write(s, granted).view, log + s[..Max(v.Write(s, granted).rc, 0)])
  {
    var g := v.Grown(|s|, granted);
    assert Honest(g, log);
    ArriveIsHonest(g, log, s[..g.Admitted(|s|)]);
    assert log + [] == log;
  }

  lemma CopyIsHonest(v: View, log: seq<Byte>, s: seq<Byte>, granted: bool)
    requires v.Valid() && Honest(v, log)
    ensures Honest(v.Copy(s, granted).view, log + s[..Max(v.Copy(s, granted).rc, 0)])
       <==> !SkipsSilently(v, CopyFrom(s, granted))
  {
    WriteIsHonest(v, log, s, granted);
    CopyIsWrite(v, s, granted);
  }

  lemma LineIsHonest(v: View, log: seq<Byte>, s: seq<Byte>, g0: bool, g1: bool, g2: bool)
    requires v.Valid() && Honest(v, log)
    ensures Honest(Step(v, WriteLine(s, g0, g1, g2)), Log(v, log, WriteLine(s, g0, g1, g2)))
       <==> !SkipsSilently(v, WriteLine(s, g0, g1, g2))
  {
    var line := Line(s);
    var g := v.Grown(|line|, g0);
    if g.AdmitsLine(|line|) {
      var pre := Max(0, |line| - g.size);
      LineEnd(s, g.size, pre);
      v.WriteLineAdmitted(s, |line|, pre, g0, g1, g2);
      if pre == 0 {
        assert s[pre..] == s;
        WritesAreHonest(g, log, s, Missing(s), g1, g2);
      } else {
        SkippedIsMissing(g, log, line, s[pre..], Missing(s), g1, g2);
        if !v.gotWrap {
          FlagOfWrites(g, s, s[pre..], g1, g2);
        }
      }
    }
  }

  // A line that loses its head is not in the history, so only the flag can be honest.
  lemma SkippedIsMissing(g: View, log: seq<Byte>, line: seq<Byte>, a: seq<Byte>, t: seq<Byte>, g1: bool, g2: bool)
    requires g.Valid() && Honest(g, log) && |a| + |t| < |line|
    ensures var w := g.Write(a, g1).view.Write(t, g2).view;
      (g.gotWrap ==> w.gotWrap) && (Honest(w, log + line) <==> w.gotWrap)
  {
    HistoryBound(g, a, g1);
    HistoryBound(g.Write(a, g1).view, t, g2);
  }

  lemma FlagOfWrites(g: View, s: seq<Byte>, a: seq<Byte>, g1: bool, g2: bool)
    requires g.Valid() && g.policy == WrapMany && !g.gotWrap
    requires |a| + |Missing(s)| == g.size == Kept(g, s)
    ensures g.Write(a, g1).view.Write(Missing(s), g2).view.gotWrap <==>
      |g.History()| + |a| > SizeForText(g, s, g1) || |g.History()| + g.size > SizeForLine(g, s, g1, g2)
  {
    var t := Missing(s);
    var h, v1 := g.Grown(|a|, g1), g.Write(a, g1).view;
    FlagOfWrite(g, a, g1);
    HistoryBound(v1, t, g2);
    if !v1.gotWrap {
      FlagOfWrite(v1, t, g2);
      if t != [] {
        NextRequest(g.(size := h.size), v1, |a|, |t|, g.size, g2);
      }
    }
  }

  // A write sets the flag if it overwrites something, and else only appends.
  lemma FlagOfWrite(v: View, a: seq<Byte>, granted: bool)
    requires v.Valid() && v.policy == WrapMany && !v.gotWrap
    ensures var w := v.Write(a, granted).view; var size := v.Grown(|a|, granted).size;
      && w.size == size && w.maxsize == v.maxsize && w.meta == v.meta && w.policy == v.policy
      && (w.gotWrap <==> |v.History()| + |a| > size)
      && (!w.gotWrap ==> |w.History()| == |v.History()| + |a| && |w.unread| == |v.unread| + |a|)
  {
    assert a[..|a|] == a;
    v.Grown(|a|, granted).ArriveKeepsLatest(a);
  }

  // A request made after n bytes arrived is one for as many bytes more made before.
  lemma NextRequest(v: View, w: View, n: nat, m: nat, both: nat, granted: bool)
    requires v.Valid() && w.Valid() && w.size == v.size && w.maxsize == v.maxsize && w.meta == v.meta
    requires |w.unread| == |v.unread| + n && both == n + m
    ensures w.Grown(m, granted).size == v.Grown(both, granted).size
  {
  }

  lemma WritesAreHonest(g: View, log: seq<Byte>, s: seq<Byte>, t: seq<Byte>, g1: bool, g2: bool)
    requires g.Valid() && Honest(g, log) && g.AdmitsLine(|s| + |t|) && |s| + |t| <= g.size
    ensures Honest(g.Write(s, g1).view.Write(t, g2).view, log + (s + t))
  {
    AcceptsWhole(g, s, g1);
    WriteIsHonest(g, log, s, g1);
    assert s[..|s|] == s && t[..|t|] == t;
    var v := g.Write(s, g1).view;
    AcceptsWhole(v, t, g2);
    WriteIsHonest(v, log + s, t, g2);
    Associative(log, s, t);
  }

  lemma HistoryBound(v: View, s: seq<Byte>, granted: bool)
    requires v.Valid()
    ensures |v.Write(s, granted).view.History()| <= |v.History()| + |s|
    ensures v.gotWrap ==> v.Write(s, granted).view.gotWrap
  {
    var g := v.Grown(|s|, granted);
    g.ArriveKeepsLatest(s[..g.Admitted(|s|)]);
  }

  function Run(v: View, ops: seq<Op>): (w: View)
    requires v.Valid()
    ensures w.Valid()
    decreases |ops|
  {
    if ops == [] then v else Run(Step(v, ops[0]), ops[1..])
  }

  function RunLog(v: View, log: seq<Byte>, ops: seq<Op>): seq<Byte>
    requires v.Valid()
    decreases |ops|
  {
    if ops == [] then log else RunLog(Step(v, ops[0]), Log(v, log, ops[0]), ops[1..])
  }

  // Bytes are missing and the flag is clear.
  ghost predicate Lost(v: View, log: seq<Byte>) {
    !v.gotWrap && |v.History()| < |log|
  }

  // A line adds no more to the history than is kept of it.
  lemma LineBound(v: View, s: seq<Byte>, g0: bool, g1: bool, g2: bool)
    requires v.Valid()
    ensures var l := v.WriteLine(s, g0, g1, g2);
      |l.view.History()| <= |v.History()| + if l.rc < 0 then 0 else Kept(v.Grown(|Line(s)|, g0), s)
  {
    var line := Line(s);
    var g := v.Grown(|line|, g0);
    if g.AdmitsLine(|line|) {
      var pre := Max(0, |line| - g.size);
      LineEnd(s, g.size, pre);
      v.WriteLineAdmitted(s, |line|, pre, g0, g1, g2);
      HistoryBound(g, s[pre..], g1);
      HistoryBound(g.Write(s[pre..], g1).view, Missing(s), g2);
    }
  }

  lemma WriteBound(v: View, s: seq<Byte>, granted: bool)
    requires v.Valid()
    ensures |v.Write(s, granted).view.History()| <= |v.History()| + Max(v.Write(s, granted).rc, 0)
  {
    var g := v.Grown(|s|, granted);
    g.ArriveKeepsLatest(s[..g.Admitted(|s|)]);
  }

  lemma CopyBound(v: View, s: seq<Byte>, granted: bool)
    requires v.Valid()
    ensures |v.Copy(s, granted).view.History()| <= |v.History()| + Max(v.Copy(s, granted).rc, 0)
  {
    CopyIsWrite(v, s, granted);
    WriteBound(v, s, granted);
  }

  // No operation but a flush adds more to the history than to the log.
  lemma LogGrows(v: View, log: seq<Byte>, op: Op)
    requires v.Valid() && !op.Flush?
    ensures |Step(v, op).History()| - |v.History()| <= |Log(v, log, op)| - |log|
    ensures |log| <= |Log(v, log, op)|
  {
    match op
    case Write(s, granted) => WriteBound(v, s, granted);
    case WriteFromFd(len, d, granted) => v.Grown(v.Wanted(len), granted).ArriveKeepsLatest(d);
    case CopyFrom(s, granted) => CopyBound(v, s, granted);
    case WriteLine(s, g0, g1, g2) => LineBound(v, s, g0, g1, g2);
    case _ =>
  }

  // An operation can then make the flag honest only by setting it, or by a flush.
  lemma LostStays(v: View, log: seq<Byte>, op: Op)
    requires v.Valid() && Lost(v, log)
    ensures !op.Flush? && !Step(v, op).gotWrap ==> Lost(Step(v, op), Log(v, log, op))
  {
    if !op.Flush? {
      LogGrows(v, log, op);
    }
  }

  lemma SkippedIsLost(v: View, log: seq<Byte>, op: Op)
    requires v.Valid() && Honest(v, log) && SkipsSilently(v, op)
    ensures Lost(Step(v, op), Log(v, log, op))
  {
    HonestUnlessSkipped(v, log, op);
    match op
    case WriteLine(s, g0, g1, g2) =>
      LineBound(v, s, g0, g1, g2);
    case CopyFrom(s, granted) =>
      CopyIsWrite(v, s, granted);
      assert s[..|s|] == s;
  }

  // A silent skip stands at the end of the run: since the last one, no flush and no
  // operation that set the flag. `skipped` says whether one stands at its start.
  predicate EndsSkipped(v: View, ops: seq<Op>, skipped: bool)
    requires v.Valid()
    decreases |ops|
  {
    if ops == [] then skipped
    else
      var w := Step(v, ops[0]);
      EndsSkipped(w, ops[1..], !ops[0].Flush? && !w.gotWrap && (skipped || SkipsSilently(v, ops[0])))
  }

  // The flag is honest or bytes are lost, at every point of a run.
  lemma {:induction false} RunsAreDecided(v: View, log: seq<Byte>, ops: seq<Op>, skipped: bool)
    requires v.Valid() && if skipped then Lost(v, log) else Honest(v, log)
    ensures Honest(Run(v, ops), RunLog(v, log, ops)) <==> !EndsSkipped(v, ops, skipped)
    decreases |ops|
  {
    if ops != [] {
      var op, w, next := ops[0], Step(v, ops[0]), Log(v, log, ops[0]);
      if skipped {
        LostStays(v, log, op);
      } else {
        HonestUnlessSkipped(v, log, op);
        if SkipsSilently(v, op) {
          SkippedIsLost(v, log, op);
        }
      }
      RunsAreDecided(w, next, ops[1..], !op.Flush? && !w.gotWrap && (skipped || SkipsSilently(v, op)));
    }
  }

  // So over every run the flag is honest at the end if and only if no silent skip stands.
  lemma RunsAreHonest(v: View, log: seq<Byte>, ops: seq<Op>)
    requires v.Valid() && Honest(v, log)
    ensures Honest(Run(v, ops), RunLog(v, log, ops)) <==> !EndsSkipped(v, ops, false)
  {
    RunsAreDecided(v, log, ops, false);
  }

  // A line that skips silently although there is history: room is refused for it and
  // granted for its end.
  lemma LineCanSkip()
    ensures var v, op := View([], [7], 1, 4, 1, WrapMany, false), WriteLine([1, NEWLINE], false, true, true);
      && v.Valid() && SkipsSilently(v, op) && Honest(v, [7])
      && !Honest(Step(v, op), [7, 1, NEWLINE])
  {
    var v, s := View([], [7], 1, 4, 1, WrapMany, false), [1, NEWLINE];
    assert Line(s) == s && Missing(s) == [];
    assert v.Grown(1, true).size == 4;
    HonestUnlessSkipped(v, [7], WriteLine(s, false, true, true));
    assert [7] + s == [7, 1, NEWLINE];
  }

  // And a copy that does.
  lemma CopyCanSkip()
    ensures var v, op := View([], [], 1, 1, 1, WrapMany, false), CopyFrom([1, 2], false);
      && v.Valid() && SkipsSilently(v, op) && Honest(v, [])
      && !Honest(Step(v, op), [1, 2])
  {
    var v, s := View([], [], 1, 1, 1, WrapMany, false), [1, 2];
    CopyIsWrite(v, s, false);
    HonestUnlessSkipped(v, [], CopyFrom(s, false));
    assert s[..2] == s && [] + s == [1, 2];
  }
}
