// What cbuf_write_line stores, said of the bytes themselves.

module CbufLineBytes {
  import opened Seqs
  import opened CbufSpec
  import opened CbufLaws
  import opened CbufBytes
  import opened CbufLines
  import opened CbufLineLaws

  // The string with the newline (10) that it may lack.
  predicate IsLine(s: seq<Byte>, line: seq<Byte>) {
    if s != [] && s[|s| - 1] == 10 then line == s else line == s + [10]
  }

  lemma EndOfTwo<T>(u: seq<T>, t: seq<T>, n: nat, m: nat, x: seq<T>)
    requires n <= m && |t| <= n && x == LastN(LastN(u, n) + t, m)
    ensures x == LastN(u + t, |x|) && |x| >= Min(|u| + |t|, n)
  {
    LastNAll(LastN(u, n) + t, m);
    LastNAppend(u, t, n, |x|);
  }

  // One write of bytes that are all admitted.
  lemma AllArrive(v: View, s: seq<Byte>, granted: bool, g: View, o: Outcome)
    requires v.Valid() && s != [] && g == v.Grown(|s|, granted) && o == v.Write(s, granted) && o.rc == |s|
    ensures o.view == g.Arrive(s) && g.Valid() && g.unread == v.unread && v.size <= g.size
  {
    assert s[..|s|] == s;
  }

  lemma ArrivalStored(g: View, s: seq<Byte>, w: View)
    requires g.Valid() && w == g.Arrive(s)
    ensures w.Valid() && w.unread == LastN(g.unread + s, w.size) && w.size == g.size
  {
    g.ArriveKeepsLatest(s);
  }

  lemma NothingIsKept<T>(u: seq<T>, s: seq<T>, n: nat)
    requires s == [] && |u| <= n
    ensures LastN(u + s, n) == u
  {
    assert u + s == u;
  }

  // Room for more bytes, and what was unread followed by s, as far as it fits.
  ghost predicate Holds(w: View, size: nat, u: seq<Byte>, s: seq<Byte>) {
    w.Valid() && size <= w.size && w.unread == LastN(u + s, w.size)
  }

  lemma SomeStored(v: View, s: seq<Byte>, granted: bool, g: View, o: Outcome)
    requires v.Valid() && s != [] && g == v.Grown(|s|, granted) && o == v.Write(s, granted) && o.rc == |s|
    ensures Holds(o.view, v.size, v.unread, s)
  {
    AllArrive(v, s, granted, g, o);
    ArrivalStored(g, s, o.view);
  }

  lemma NoneStored(v: View, s: seq<Byte>, granted: bool)
    requires v.Valid() && s == []
    ensures Holds(v.Write(s, granted).view, v.size, v.unread, s)
  {
    NothingIsKept(v.unread, s, v.size);
  }

  lemma AllStored(v: View, s: seq<Byte>, granted: bool)
    requires v.Valid() && v.Write(s, granted).rc == |s|
    ensures Holds(v.Write(s, granted).view, v.size, v.unread, s)
  {
    if s == [] {
      NoneStored(v, s, granted);
    } else {
      SomeStored(v, s, granted, v.Grown(|s|, granted), v.Write(s, granted));
    }
  }

  lemma TwoHold(u: seq<Byte>, size: nat, v: View, w: View, s: seq<Byte>, t: seq<Byte>)
    requires Holds(v, size, u, s) && Holds(w, v.size, v.unread, t) && |s| + |t| <= size
    ensures w.unread == LastN(u + s + t, |w.unread|) && |s| + |t| <= |w.unread| && size <= w.size
  {
    EndOfTwo(u + s, t, v.size, w.size, w.unread);
  }

  // The two writes leave the end of what was unread, of the text and of the newline.
  lemma TwoWritesStore(g: View, s: seq<Byte>, t: seq<Byte>, g1: bool, g2: bool, w: View)
    requires g.Valid() && g.AdmitsLine(|s| + |t|) && |s| + |t| <= g.size && w == g.Write(s, g1).view.Write(t, g2).view
    ensures w.unread == LastN(g.unread + s + t, |w.unread|) && |s| + |t| <= |w.unread| && g.size <= w.size
  {
    var v := g.Write(s, g1).view;
    AcceptsBoth(g, s, t, g1, g2);
    AllStored(g, s, g1);
    AllStored(v, t, g2);
    TwoHold(g.unread, g.size, v, w, s, t);
  }

  // What of the line is kept from the start is the end of what a line write leaves unread.
  lemma KeptIsEnd(v: View, s: seq<Byte>, g0: bool, g1: bool, g2: bool, line: seq<Byte>, kept: seq<Byte>, o: Outcome)
    requires v.Valid() && IsLine(s, line) && o == v.WriteLine(s, g0, g1, g2) && o.rc != -1
    requires kept == LastN(line, v.Grown(|line|, g0).size)
    ensures o.rc == |line| && o.view.unread == LastN(v.unread + kept, |o.view.unread|)
    ensures |kept| <= |o.view.unread| && v.Grown(|line|, g0).size <= o.view.size
  {
    assert Line(s) == line;
    var g := v.Grown(|line|, g0);
    var pre := Max(0, |line| - g.size);
    LineEnd(s, g.size, pre);
    v.WriteLineAdmitted(s, |line|, pre, g0, g1, g2);
    KeptOfTwo(g, s[pre..], Missing(s), |line|, pre, g1, g2, kept, o);
  }

  lemma KeptOfTwo(g: View, a: seq<Byte>, t: seq<Byte>, len: nat, pre: nat, g1: bool, g2: bool, kept: seq<Byte>,
      o: Outcome)
    requires g.Valid() && g.AdmitsLine(|a| + |t|) && |a| + |t| <= g.size
    requires kept == a + t && o == g.WriteTwice(a, t, len, pre, g1, g2)
    ensures o.rc == len && o.view.unread == LastN(g.unread + kept, |o.view.unread|)
    ensures |kept| <= |o.view.unread| && g.size <= o.view.size
  {
    TwoWritesStore(g, a, t, g1, g2, o.view);
    Associative(g.unread, a, t);
  }

  // There is no place for a line of len bytes.
  predicate NoPlace(v: View, len: nat, size: nat) {
    (v.policy == NoDrop && |v.unread| + len > size) || (v.policy == WrapOnce && len > size)
  }

  lemma LineIsRefused(v: View, s: seq<Byte>, g0: bool, g1: bool, g2: bool, line: seq<Byte>, o: Outcome)
    requires v.Valid() && IsLine(s, line) && o == v.WriteLine(s, g0, g1, g2)
    ensures o.rc == -1 || o.rc == |line|
    ensures o.rc == -1 <==> NoPlace(v, |line|, v.Grown(|line|, g0).size)
    ensures o.rc == -1 ==> o.view == v.Grown(|line|, g0) && o.ndropped == 0
  {
    assert Line(s) == line;
  }

  lemma EndOfKept(u: seq<Byte>, line: seq<Byte>, kept: seq<Byte>, x: seq<Byte>, n: nat)
    requires line != [] && 0 < n && kept == LastN(line, n) && x == LastN(u + kept, |x|) && |kept| <= |x|
    ensures x != [] && x[|x| - 1] == line[|line| - 1]
  {
    LastNIsSlice(line, n);
    LastNIsSlice(u + kept, |x|);
  }

  lemma NewlineIsLast(v: View, s: seq<Byte>, g0: bool, g1: bool, g2: bool, line: seq<Byte>, o: Outcome)
    requires v.Valid() && IsLine(s, line) && o == v.WriteLine(s, g0, g1, g2) && o.rc != -1
    ensures o.view.unread != [] && o.view.unread[|o.view.unread| - 1] == 10 && v.Grown(|line|, g0).size <= o.view.size
    ensures |line| <= o.rc
  {
    var kept := LastN(line, v.Grown(|line|, g0).size);
    KeptIsEnd(v, s, g0, g1, g2, line, kept, o);
    EndOfKept(v.unread, line, kept, o.view.unread, v.Grown(|line|, g0).size);
  }

  // A line is accepted exactly if the policy has a place for it, and then it counts with
  // its newline, which is the last unread byte.
  lemma LineIsAccepted(v: View, s: seq<Byte>, g0: bool, g1: bool, g2: bool)
    requires v.Valid()
    ensures var o := v.WriteLine(s, g0, g1, g2); var u := o.view.unread;
      var len := if s != [] && s[|s| - 1] == 10 then |s| else |s| + 1;
      && (o.rc == -1 || o.rc == len)
      && (o.rc == -1 <==> NoPlace(v, len, o.view.size))
      && (o.rc == -1 ==> o.view == v.(size := o.view.size) && o.ndropped == 0)
      && (o.rc == -1 && g0 ==> o.view.size == v.maxsize)
      && (o.rc != -1 ==> u != [] && u[|u| - 1] == 10)
  {
    var line, o := Line(s), v.WriteLine(s, g0, g1, g2);
    assert IsLine(s, line);
    LineIsRefused(v, s, g0, g1, g2, line, o);
    GrowsExactly(v, |line|, g0);
    if o.rc != -1 {
      NewlineIsLast(v, s, g0, g1, g2, line, o);
    }
  }

  lemma EndOfSum<T>(u: seq<T>, kept: seq<T>, x: seq<T>, n: nat)
    requires x == LastN(u + kept, |x|) && |kept| <= n <= |x|
    ensures LastN(x, n) == LastN(u, n - |kept|) + kept
  {
    LastNTwice(u + kept, |x|, n);
    EndOfLine(u, kept, n, n - |kept|);
  }

  lemma EndOfLine<T>(head: seq<T>, kept: seq<T>, n: nat, more: nat)
    requires n == more + |kept| && more <= |head|
    ensures LastN(head + kept, n) == LastN(head, more) + kept
  {
    LastNIsSlice(head + kept, n);
    LastNIsSlice(head, more);
  }

  lemma KeptIsLast<T>(u: seq<T>, kept: seq<T>, x: seq<T>)
    requires x == LastN(u + kept, |x|) && |kept| <= |x|
    ensures LastN(x, |kept|) == kept
  {
    EndOfSum(u, kept, x, |kept|);
    assert LastN(u, 0) + kept == kept;
  }

  lemma HeadDecides<T>(u: seq<T>, head: seq<T>, kept: seq<T>, x: seq<T>, n: nat, more: nat)
    requires x == LastN(u + kept, |x|) && more + |kept| == n <= |x| && more <= |head|
    ensures LastN(x, n) == LastN(head + kept, n) <==> LastN(u, more) == LastN(head, more)
  {
    EndOfSum(u, kept, x, n);
    EndOfLine(head, kept, n, more);
    if LastN(x, n) == LastN(head + kept, n) {
      SamePrefix(LastN(u, more), LastN(head, more), kept);
    }
  }

  // The unread bytes x end with the line, as far as there was room for it at first. If
  // the line has lost its head before the buffer grew, older bytes of u stand in the place
  // of that head: then as much of the line as x can hold is its end exactly if those
  // older bytes read like it.
  ghost predicate EndsIn<T>(x: seq<T>, line: seq<T>, u: seq<T>, size: nat) {
    var sure, n := Min(|line|, size), Min(|line|, |x|);
    && sure <= n && LastN(x, sure) == LastN(line, sure)
    && (LastN(x, n) == LastN(line, n) <==> LastN(u, n - sure) == LastN(line[..|line| - sure], n - sure))
    && (|x| <= size || |line| <= size ==> LastN(x, n) == LastN(line, n))
  }

  lemma LineEndsUnread(v: View, s: seq<Byte>, g0: bool, g1: bool, g2: bool, line: seq<Byte>, o: Outcome)
    requires v.Valid() && IsLine(s, line) && o == v.WriteLine(s, g0, g1, g2) && o.rc != -1
    ensures EndsIn(o.view.unread, line, v.unread, v.Grown(|line|, g0).size)
    ensures o.ndropped == 0 ==> o.view.unread == v.unread + line
  {
    var size, kept := v.Grown(|line|, g0).size, LastN(line, v.Grown(|line|, g0).size);
    KeptIsEnd(v, s, g0, g1, g2, line, kept, o);
    EndOfUnread(v.unread, line, size, kept, o.view.unread);
    NothingDropped(v, s, g0, g1, g2, line, kept, o);
  }

  lemma EndOfUnread<T>(u: seq<T>, line: seq<T>, size: nat, kept: seq<T>, x: seq<T>)
    requires kept == LastN(line, size) && x == LastN(u + kept, |x|) && |kept| <= |x|
    ensures EndsIn(x, line, u, size)
  {
    var sure := Min(|line|, size);
    var n, head := Min(|line|, |x|), line[..|line| - sure];
    LastNIsSlice(line, size);
    assert line == head + kept;
    LastNAll(line, size);
    KeptIsLast(u, kept, x);
    HeadDecides(u, head, kept, x, n, n - sure);
  }

  lemma NothingDropped(v: View, s: seq<Byte>, g0: bool, g1: bool, g2: bool, line: seq<Byte>, kept: seq<Byte>,
      o: Outcome)
    requires v.Valid() && IsLine(s, line) && o == v.WriteLine(s, g0, g1, g2) && o.rc == |line|
    requires |kept| <= |line| && o.view.unread == LastN(v.unread + kept, |o.view.unread|)
    requires |kept| == |line| ==> kept == line
    ensures o.ndropped == 0 ==> o.view.unread == v.unread + line
  {
    WriteLineConserves(v, s, g0, g1, g2);
  }

  const TIGHT := View([], [7], 1, 4, 1, WrapMany, false)

  lemma LateLineKeepsTheEnd(s: seq<Byte>, o: Outcome)
    requires s == [1, 10] && o == TIGHT.WriteLine(s, false, true, true)
    ensures o.rc == 2 && o.view.unread == LastN([7, 10], |o.view.unread|)
  {
    assert IsLine(s, s) && TIGHT.Grown(2, false).size == 1;
    LineIsRefused(TIGHT, s, false, true, true, s, o);
    var kept := LastN(s, 1);
    LastNIsSlice(s, 1);
    assert kept == [10];
    KeptIsEnd(TIGHT, s, false, true, true, s, kept, o);
    assert TIGHT.unread + kept == [7, 10];
  }

  lemma LateLineIsLonger(s: seq<Byte>, o: Outcome)
    requires s == [1, 10] && o == TIGHT.WriteLine(s, false, true, true)
    ensures |o.view.unread| > 1
  {
    assert Line(s) == s && Missing(s) == [];
    TIGHT.WriteLineAdmitted(s, 2, 1, false, true, true);
    LateIsLonger(TIGHT, s, s, 1, true, true);
  }

  // The byte before a line whose head is lost can stay in the place of that head.
  lemma LateLineLosesItsHead()
    ensures TIGHT.Valid() && TIGHT.WriteLine([1, 10], false, true, true).rc == 2
    ensures TIGHT.WriteLine([1, 10], false, true, true).view.unread == [7, 10]
  {
    var o := TIGHT.WriteLine([1, 10], false, true, true);
    LateLineKeepsTheEnd([1, 10], o);
    LateLineIsLonger([1, 10], o);
  }

  // ----- the reader finds it -----------------------------------------------------------

  lemma EndsInNewline(u: seq<Byte>)
    requires u != [] && u[|u| - 1] == 10
    ensures Newlines(u) > 0
  {
    NoNewlines(u);
  }

  // After a line write a reader that asks for one line finds one, and a reader that asks
  // for what fits gets all that is unread exactly if it fits.
  lemma LineIsFound(v: View, s: seq<Byte>, g0: bool, g1: bool, g2: bool, chars: int, m: nat, found: nat)
    requires v.Valid() && v.WriteLine(s, g0, g1, g2).rc != -1
    ensures var u := v.WriteLine(s, g0, g1, g2).view.unread;
      && (UnreadLines(u, chars, 1, m, found) ==> m > 0 && found == 1)
      && (UnreadLines(u, chars, -1, m, found) ==> (m == |u| <==> chars >= |u|) && (m == |u| ==> found > 0))
  {
    var u := v.WriteLine(s, g0, g1, g2).view.unread;
    LineIsAccepted(v, s, g0, g1, g2);
    EndsInNewline(u);
    if UnreadLines(u, chars, 1, m, found) {
      assert u[..0] == [];
    }
    if UnreadLines(u, chars, -1, m, found) && chars >= |u| {
      assert u[m..|u|] == u[m..];
      if m < |u| {
        assert u[m..][|u| - m - 1] == u[|u| - 1];
        EndsInNewline(u[m..]);
      }
      assert u[..|u|] == u;
    }
  }

  // A string without a newline, written to a buffer with nothing unread that has room for
  // it, is the line that is read next.
  lemma LineWrittenIsLineRead(v: View, s: seq<Byte>, g0: bool, g1: bool, g2: bool, chars: int, m: nat, found: nat)
    requires v.Valid() && v.unread == [] && 10 !in s && |s| < v.Grown(|s| + 1, g0).size
    requires UnreadLines(v.WriteLine(s, g0, g1, g2).view.unread, chars, 1, m, found)
    ensures v.WriteLine(s, g0, g1, g2).rc == |s| + 1
    ensures m == |s| + 1 && v.WriteLine(s, g0, g1, g2).view.unread[..m] == s + [10]
  {
    var line, o := s + [10], v.WriteLine(s, g0, g1, g2);
    var u := o.view.unread;
    assert IsLine(s, line);
    RoomForLine(v, s, g0, g1, g2);
    KeptIsEnd(v, s, g0, g1, g2, line, line, o);
    assert [] + line == line && |u| == |line|;
    LineIsFound(v, s, g0, g1, g2, chars, m, found);
    assert u == s + [10];
    forall k | 0 <= k < |s| ensures u[k] != 10 {
      assert u[k] == s[k] && s[k] in s;
    }
    assert u[..|u|] == u;
  }

  lemma RoomForLine(v: View, s: seq<Byte>, g0: bool, g1: bool, g2: bool)
    requires v.Valid() && v.unread == [] && 10 !in s && |s| < v.Grown(|s| + 1, g0).size
    ensures v.WriteLine(s, g0, g1, g2).rc == |s| + 1
  {
    assert s != [] ==> s[|s| - 1] in s;
  }

  // ----- and finds it again -------------------------------------------------------------

  lemma OneLine(s: seq<Byte>)
    requires 10 !in s
    ensures Newlines(s + [10]) == 1 && LinesOf(s + [10]) == 1
  {
    forall k | 0 <= k < |s| ensures s[k] != NEWLINE {
      assert s[k] in s;
    }
    NoNewlines(s);
    NewlinesAppend(s, [10]);
    assert [10][1..] == [];
  }

  lemma LastLineIsReplayed(r: seq<Byte>, line: seq<Byte>, gotWrap: bool, chars: int, p: nat)
    requires p + |line| == |r| && r[p..] == line && line != [] && line[|line| - 1] == 10 && LinesOf(line) == 1
    requires LineStart(r, p, gotWrap)
    ensures ReplayLines(r, gotWrap, chars, 1, |line|, 1)
  {
    assert |r| - |line| == p;
    assert LineStart(r, p, gotWrap) && LinesOf(r[p..]) == 1;
  }

  // A reader that asks to replay what fits gets everything that was ever written exactly if
  // it fits, with the newline it may lack.
  lemma AllIsReplayed(r: seq<Byte>, chars: int, m: nat, found: nat)
    requires r != [] && ReplayLines(r, false, chars, -1, m, found)
    ensures m == |r| <==> |r| + (if r[|r| - 1] == 10 then 0 else 1) <= chars
  {
    assert LineStart(r, 0, false);
  }

  // A line that starts where one can be told to start, once read, is the line that is
  // replayed, and rewinding a line puts it back.
  lemma LineReadIsReplayed(v: View, s: seq<Byte>, chars: int, m: nat, found: nat)
    requires v.Valid() && 10 !in s && |s| < |v.unread| && v.unread[..|s| + 1] == s + [10]
    requires if v.replay == [] then !v.gotWrap else v.replay[|v.replay| - 1] == 10
    requires var w := v.Drop(|s| + 1); ReplayLines(w.replay, w.gotWrap, chars, 1, m, found)
    ensures var w := v.Drop(|s| + 1);
      m == |s| + 1 && w.replay[|w.replay| - m..] == s + [10] && w.Rewind(m) == v
  {
    var line, p := s + [10], |v.replay|;
    var r := v.Drop(|line|).replay;
    OneLine(s);
    assert r == v.replay + line && r[p..] == line;
    LastLineIsReplayed(r, line, v.gotWrap, chars, p);
    ReplayLinesAreUnique(r, v.gotWrap, chars, 1, m, found, |line|, 1);
    ReplayAndRewindUndoRead(v, |line|);
  }
}
