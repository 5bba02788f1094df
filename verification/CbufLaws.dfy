// Laws that relate the operations of a cbuf, on its meaning alone.

module CbufLaws {
  import opened Seqs
  import opened CbufSpec

  // ----- arrivals ------------------------------------------------------------

  // Bytes may arrive in pieces.
  lemma {:induction false} ArriveInPieces(v: View, a: seq<Byte>, b: seq<Byte>)
    requires v.Valid()
    ensures v.Arrive(a).Arrive(b) == v.Arrive(a + b)
    decreases |a|
  {
    if a == [] {
      assert a + b == b;
    } else {
      assert (a + b)[0] == a[0] && (a + b)[1..] == a[1..] + b;
      ArriveInPieces(v.ArriveOne(a[0]), a[1..], b);
    }
  }

  // And what they overwrite adds up.
  lemma OverwrittenInPieces(v: View, a: seq<Byte>, n: nat)
    requires v.Valid()
    ensures v.Overwritten(|a|) + v.Arrive(a).Overwritten(n) == v.Overwritten(|a| + n)
  {
    v.ArriveKeepsLatest(a);
  }

  // What would be overwritten within one arrival need not arrive.
  lemma ArriveTail(v: View, d: seq<Byte>)
    requires v.Valid()
    ensures v.Arrive(LastN(d, v.size)) == v.Arrive(d).(gotWrap := v.Arrive(LastN(d, v.size)).gotWrap)
    ensures v.Arrive(LastN(d, v.size)).gotWrap != v.Arrive(d).gotWrap <==>
            !v.gotWrap && v.History() == [] && |d| > v.size
  {
    var t := LastN(d, v.size);
    var w, x := v.Arrive(t), v.Arrive(d);
    v.ArriveKeepsLatest(t);
    v.ArriveKeepsLatest(d);
    TailOfTail(v.History(), d, v.size);
    TailOfTail(v.unread, d, v.size);
    SamePrefix(w.replay, x.replay, w.unread);
  }

  lemma TailOfTail<T>(s: seq<T>, d: seq<T>, n: nat)
    ensures LastN(s + LastN(d, n), n) == LastN(s + d, n)
  {
    LastNIsSlice(d, n);
    LastNIsSlice(s + d, n);
    LastNIsSlice(s + LastN(d, n), n);
  }

  // ----- copying is writing --------------------------------------------------

  // cbuf_copy leaves and reports what cbuf_write of the same bytes does, but for
  // the wrap flag, which it forgets to set when it skips part of what it copies
  // into a buffer with no history.
  lemma CopyIsWrite(v: View, s: seq<Byte>, granted: bool)
    requires v.Valid()
    ensures var c, w := v.Copy(s, granted), v.Write(s, granted);
      && c.rc == w.rc && c.ndropped == w.ndropped
      && c.view == w.view.(gotWrap := c.view.gotWrap)
      && (c.view.gotWrap != w.view.gotWrap <==>
            !v.gotWrap && v.History() == [] && v.policy == WrapMany && |s| > v.Grown(|s|, granted).size)
  {
    var g := v.Grown(|s|, granted);
    var k := g.Admitted(|s|);
    ArriveTail(g, s[..k]);
  }

  // ----- writing in pieces ------------------------------------------------------

  // A write of bytes that are all admitted without growth.
  lemma WriteWhole(v: View, s: seq<Byte>, granted: bool, o: Outcome)
    requires v.Valid() && v.Admitted(|s|) == |s| && o == v.Write(s, granted) && o.view.size == v.size
    ensures o.view == v.Arrive(s) && o.rc == |s| && o.ndropped == v.Overwritten(|s|)
  {
    if s != [] {
      WriteUngrown(v, s, granted, v.Grown(|s|, granted), o);
    }
  }

  lemma WriteUngrown(v: View, s: seq<Byte>, granted: bool, g: View, o: Outcome)
    requires v.Valid() && v.Admitted(|s|) == |s| && s != []
    requires g == v.Grown(|s|, granted) && o == v.Write(s, granted) && o.view.size == v.size
    ensures o.view == v.Arrive(s) && o.rc == |s| && o.ndropped == v.Overwritten(|s|)
  {
    assert g.size == v.size;
    assert g == v;
    assert s[..|s|] == s;
  }

  // Two writes without growth of bytes that are all admitted are one arrival.
  lemma TwoWrites(g: View, s: seq<Byte>, t: seq<Byte>, len: nat, pre: nat, g1: bool, g2: bool)
    requires g.Valid() && g.AdmitsLine(|s| + |t|) && |s| + |t| <= g.size
    requires g.WriteTwice(s, t, len, pre, g1, g2).view.size == g.size
    ensures var o := g.WriteTwice(s, t, len, pre, g1, g2);
      o.view == g.Arrive(s + t) && o.rc == len && o.ndropped == pre + g.Overwritten(|s| + |t|)
  {
    var v := g.Write(s, g1).view;
    assert v.size == g.size;
    WriteWhole(g, s, g1, g.Write(s, g1));
    g.ArriveKeepsLatest(s);
    WriteWhole(v, t, g2, v.Write(t, g2));
    ArriveInPieces(g, s, t);
    OverwrittenInPieces(g, s, |t|);
  }

  // What is not dropped beforehand of a line is its end.
  lemma LineEnd(s: seq<Byte>, size: nat, pre: nat)
    requires 0 < size && pre == Max(0, |Line(s)| - size)
    ensures pre <= |s| && s[pre..] + Missing(s) == LastN(Line(s), size)
  {
    LastNIsSlice(Line(s), size);
  }

  // ----- bytes are conserved ---------------------------------------------------

  ghost predicate Conserves(v: View, o: Outcome) {
    Max(o.rc, 0) + |v.unread| == |o.view.unread| + o.ndropped
  }

  // Of the bytes that arrive, however few were delivered, and those unread before, each
  // is unread afterwards or overwritten.
  lemma ArriveConserves(v: View, d: seq<Byte>)
    requires v.Valid()
    ensures |d| + |v.unread| == |v.Arrive(d).unread| + v.Overwritten(|d|)
    ensures |d| <= v.Free() ==> v.Overwritten(|d|) == 0 && v.Arrive(d).unread == v.unread + d
  {
    v.ArriveKeepsLatest(d);
    LastNIsSlice(v.unread + d, v.size);
  }

  // So too for what is accepted and counted as dropped; under NoDrop nothing is dropped.
  lemma WriteConserves(v: View, s: seq<Byte>, granted: bool)
    requires v.Valid()
    ensures Conserves(v, v.Write(s, granted))
    ensures v.policy == NoDrop ==> v.Write(s, granted).ndropped == 0 && v.unread <= v.Write(s, granted).view.unread
  {
    var g := v.Grown(|s|, granted);
    ArriveConserves(g, s[..g.Admitted(|s|)]);
  }

  lemma CopyConserves(v: View, s: seq<Byte>, granted: bool)
    requires v.Valid()
    ensures Conserves(v, v.Copy(s, granted))
    ensures v.policy == NoDrop ==> v.Copy(s, granted).ndropped == 0 && v.unread <= v.Copy(s, granted).view.unread
  {
    CopyIsWrite(v, s, granted);
    WriteConserves(v, s, granted);
  }

  // cbuf_move drops from its source what it copied.
  lemma MoveConserves(src: View, dst: View, len: nat, granted: bool)
    requires src.Valid() && dst.Valid()
    ensures var o := dst.Copy(src.unread[..Min(len, |src.unread|)], granted);
      && o.rc <= |src.unread|
      && |src.unread| + |dst.unread| == |src.Drop(Max(o.rc, 0)).unread| + |o.view.unread| + o.ndropped
  {
    CopyConserves(dst, src.unread[..Min(len, |src.unread|)], granted);
  }

  // Lines too, whatever realloc answers on the way.
  lemma WriteLineConserves(v: View, s: seq<Byte>, g0: bool, g1: bool, g2: bool)
    requires v.Valid()
    ensures Conserves(v, v.WriteLine(s, g0, g1, g2))
    ensures v.policy == NoDrop ==>
      v.WriteLine(s, g0, g1, g2).ndropped == 0 && v.unread <= v.WriteLine(s, g0, g1, g2).view.unread
  {
    var line := Line(s);
    var g := v.Grown(|line|, g0);
    if g.AdmitsLine(|line|) {
      var pre := Max(0, |line| - g.size);
      LineEnd(s, g.size, pre);
      WritesConserve(g, s[pre..], Missing(s), g1, g2);
    }
  }

  lemma WritesConserve(g: View, s: seq<Byte>, t: seq<Byte>, g1: bool, g2: bool)
    requires g.Valid() && g.AdmitsLine(|s| + |t|) && |s| + |t| <= g.size
    ensures var o := g.WriteTwice(s, t, |s| + |t|, 0, g1, g2);
      && Conserves(g, o)
      && (g.policy == NoDrop ==> o.ndropped == 0 && g.unread <= o.view.unread)
  {
    var v := g.Write(s, g1).view;
    AcceptsWhole(g, s, g1);
    AcceptsWhole(v, t, g2);
    WriteConserves(g, s, g1);
    WriteConserves(v, t, g2);
  }

  // A write of bytes that are admitted before growing accepts them all.
  lemma AcceptsWhole(v: View, s: seq<Byte>, granted: bool)
    requires v.Valid() && v.Admitted(|s|) == |s|
    ensures v.Write(s, granted).rc == |s|
    ensures v.Free() >= |s| || v.policy == NoDrop ==> v.Write(s, granted).view.Free() >= v.Free() - |s|
  {
    v.Grown(|s|, granted).ArriveKeepsLatest(s);
    assert s[..|s|] == s;
  }

  lemma AcceptsBoth(v: View, s: seq<Byte>, t: seq<Byte>, g1: bool, g2: bool)
    requires v.Valid() && v.AdmitsLine(|s| + |t|) && |s| + |t| <= v.size
    ensures v.Write(s, g1).rc == |s| && v.Write(s, g1).view.Write(t, g2).rc == |t|
  {
    AcceptsWhole(v, s, g1);
    AcceptsWhole(v.Write(s, g1).view, t, g2);
  }

  // ----- reading, replaying and rewinding -------------------------------------

  // What has been read can be replayed, and rewinding undoes the read.
  lemma ReplayAndRewindUndoRead(v: View, n: nat)
    requires v.Valid() && n <= |v.unread|
    ensures LastN(v.Drop(n).replay, n) == v.unread[..n]
    ensures v.Drop(n).Rewind(n) == v
  {
    LastNIsSlice(v.Drop(n).replay, n);
  }
}
