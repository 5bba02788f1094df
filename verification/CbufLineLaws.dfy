// When writing a line is writing: cbuf_write_line against cbuf_write.

module CbufLineLaws {
  import opened Seqs
  import opened CbufSpec
  import opened CbufLaws

  // ----- growth after the first request for room --------------------------------

  // How many bytes of the line are not dropped beforehand.
  function Kept(g: View, s: seq<Byte>): nat {
    Min(|Line(s)|, g.size)
  }

  // The second request for room is made for the text, the third for the newline
  // that it lacks.
  predicate TextGrows(g: View, s: seq<Byte>, granted: bool) {
    granted && g.size < g.maxsize && Kept(g, s) - |Missing(s)| > g.Free()
  }

  predicate NewlineGrows(g: View, s: seq<Byte>, granted: bool) {
    granted && g.size < g.maxsize && Missing(s) != [] && Kept(g, s) > g.Free()
  }

  // One of them makes the buffer grow.
  predicate GrowsLate(v: View, s: seq<Byte>, g0: bool, g1: bool, g2: bool)
    requires v.Valid()
  {
    var g := v.Grown(|Line(s)|, g0);
    g.AdmitsLine(|Line(s)|) && (TextGrows(g, s, g1) || NewlineGrows(g, s, g2))
  }

  lemma SizeOfTwoWrites(g: View, s: seq<Byte>, t: seq<Byte>, len: nat, pre: nat, g1: bool, g2: bool)
    requires g.Valid() && g.AdmitsLine(|s| + |t|) && |s| + |t| <= g.size && |t| <= 1
    ensures g.WriteTwice(s, t, len, pre, g1, g2).view.size == g.size
       <==> ((g1 && g.size < g.maxsize ==> |s| <= g.Free())
             && (g2 && g.size < g.maxsize && t != [] ==> |s| + |t| <= g.Free()))
  {
    var first := g.Write(s, g1);
    if first.view.size == g.size {
      WriteWhole(g, s, g1, first);
      g.ArriveKeepsLatest(s);
    }
  }

  lemma SizeOfLine(g: View, s: seq<Byte>, pre: nat, g1: bool, g2: bool)
    requires g.Valid() && g.AdmitsLine(|Line(s)|) && pre == Max(0, |Line(s)| - g.size) && pre <= |s|
    ensures g.WriteTwice(s[pre..], Missing(s), |Line(s)|, pre, g1, g2).view.size == g.size
       <==> !TextGrows(g, s, g1) && !NewlineGrows(g, s, g2)
  {
    var a, t := s[pre..], Missing(s);
    assert |a| + |t| == Kept(g, s);
    SizeOfTwoWrites(g, a, t, |Line(s)|, pre, g1, g2);
  }

  // The size stays that of the first request exactly when no later one is made,
  // granted and below the maximum.
  lemma SizeStays(v: View, s: seq<Byte>, g0: bool, g1: bool, g2: bool)
    requires v.Valid()
    ensures v.WriteLine(s, g0, g1, g2).view.size == v.Grown(|Line(s)|, g0).size <==> !GrowsLate(v, s, g0, g1, g2)
  {
    var len := |Line(s)|;
    var g := v.Grown(len, g0);
    if g.AdmitsLine(len) {
      var pre := Max(0, len - g.size);
      LineEnd(s, g.size, pre);
      v.WriteLineAdmitted(s, len, pre, g0, g1, g2);
      SizeOfLine(g, s, pre, g1, g2);
    }
  }

  // ----- without late growth ------------------------------------------------------

  // If no later request makes the buffer grow, cbuf_write_line of an accepted line
  // leaves and reports what one cbuf_write of the line does, but for the wrap flag of
  // a line too long for a buffer with no history.
  lemma WriteLineIsWrite(v: View, s: seq<Byte>, g0: bool, g1: bool, g2: bool)
    requires v.Valid() && v.Grown(|Line(s)|, g0).AdmitsLine(|Line(s)|) && !GrowsLate(v, s, g0, g1, g2)
    ensures var l, w := v.WriteLine(s, g0, g1, g2), v.Write(Line(s), g0);
      && l.rc == w.rc && l.ndropped == w.ndropped
      && l.view == w.view.(gotWrap := l.view.gotWrap)
      && (l.view.gotWrap != w.view.gotWrap <==>
            !v.gotWrap && v.History() == [] && |Line(s)| > v.Grown(|Line(s)|, g0).size)
  {
    var line := Line(s);
    var g := v.Grown(|line|, g0);
    var pre := Max(0, |line| - g.size);
    SizeStays(v, s, g0, g1, g2);
    LineEnd(s, g.size, pre);
    v.WriteLineAdmitted(s, |line|, pre, g0, g1, g2);
    TwoWrites(g, s[pre..], Missing(s), |line|, pre, g1, g2);
    LineWritten(g, line, pre, v.WriteLine(s, g0, g1, g2));
    assert line[..|line|] == line;
  }

  lemma LineWritten(g: View, line: seq<Byte>, pre: nat, o: Outcome)
    requires g.Valid() && pre == Max(0, |line| - g.size)
    requires o.view == g.Arrive(LastN(line, g.size)) && o.ndropped == pre + g.Overwritten(|LastN(line, g.size)|)
    ensures o.ndropped == g.Overwritten(|line|)
    ensures o.view == g.Arrive(line).(gotWrap := o.view.gotWrap)
    ensures o.view.gotWrap != g.Arrive(line).gotWrap <==> !g.gotWrap && g.History() == [] && |line| > g.size
  {
    ArriveTail(g, line);
  }

  // ----- with late growth -----------------------------------------------------------

  // What bytes and counts a caller sees.
  predicate SameBytes(o: Outcome, w: Outcome) {
    o.view.replay == w.view.replay && o.view.unread == w.view.unread && o.rc == w.rc && o.ndropped == w.ndropped
  }

  // Growing makes room for a byte more than was asked for, up to the maximum.
  lemma RoomForMore(v: View, n: nat)
    requires v.Valid() && v.Free() < n && v.size < v.maxsize
    ensures var size := v.Grown(n, true).size; v.size < size && (size == v.maxsize || |v.unread| + n < size)
  {
  }

  // The text makes the buffer grow: its end is there, as if it had been large enough.
  lemma TextGrown(v: View, s: seq<Byte>, t: seq<Byte>, len: nat, pre: nat, g1: bool, g2: bool, h: View)
    requires v.Valid() && v.AdmitsLine(|s| + |t|) && |s| + |t| <= v.size && |t| <= 1
    requires g1 && v.size < v.maxsize && |s| > v.Free() && h == v.Grown(|s|, true)
    ensures h.Valid() && v.WriteTwice(s, t, len, pre, g1, g2).view == h.Arrive(s + t)
    ensures v.WriteTwice(s, t, len, pre, g1, g2).rc == len
  {
    RoomForMore(v, |s|);
    assert h.Grown(|s|, g1) == h;
    assert v.Write(s, g1) == h.Write(s, g1);
    assert v.WriteTwice(s, t, len, pre, g1, g2) == h.WriteTwice(s, t, len, pre, g1, g2);
    SizeOfTwoWrites(h, s, t, len, pre, g1, g2);
    TwoWrites(h, s, t, len, pre, g1, g2);
  }

  // The newline does: the text has filled the buffer of the old size.
  lemma NewlineGrown(v: View, s: seq<Byte>, t: seq<Byte>, len: nat, pre: nat, g1: bool, g2: bool)
    requires v.Valid() && v.AdmitsLine(|s| + |t|) && |s| + |t| <= v.size && |t| == 1
    requires g2 && v.size < v.maxsize && |s| + 1 > v.Free() && (g1 ==> |s| <= v.Free())
    ensures var o := v.WriteTwice(s, t, len, pre, g1, g2);
      && o.rc == len && o.view.replay == []
      && o.view.unread == LastN(v.unread + s, v.size) + t && |o.view.unread| == v.size + 1
  {
    var v1 := v.Write(s, g1).view;
    WriteWhole(v, s, g1, v.Write(s, g1));
    v.ArriveKeepsLatest(s);
    assert |v1.unread| == v.size && v1.replay == [];
    RoomForMore(v1, 1);
    var h := v1.Grown(1, g2);
    assert h.Admitted(1) == 1 && t[..1] == t;
    h.ArriveKeepsLatest(t);
  }

  // ----- when late growth leaves what a single write would ----------------------------

  // Late growth leaves what one write with room would. If the line fits the old size,
  // this is a matter of what the new sizes hold. If not, its head has been dropped, and
  // the older bytes in the place of that head must happen to read like it.
  predicate LateGrowthFits(v: View, s: seq<Byte>, g1: bool)
    requires v.Valid()
  {
    var len := |Line(s)|;
    if len <= v.size then
      if TextGrows(v, s, g1) then
        var size := v.Grown(len - |Missing(s)|, true).size;
        |v.History()| + len <= size || size == v.Grown(len, true).size
      else
        |v.History()| + len == v.size + 1 || v.maxsize == v.size + 1
    else
      var room := v.maxsize - v.size;
      && (TextGrows(v, s, g1) || room == 1)
      && |v.unread| >= room && LastN(v.unread, room) == LastN(v.unread + Line(s)[..len - v.size], room)
  }

  lemma SameTails<T>(x: seq<T>, n: nat, m: nat)
    requires n <= m
    ensures LastN(x, n) == LastN(x, m) <==> |x| <= n || n == m
  {
    LastNIsSlice(x, n);
    LastNIsSlice(x, m);
  }

  lemma SameReplay(o: View, w: View)
    requires o.unread == w.unread
    ensures o.replay == w.replay <==> o.History() == w.History()
  {
    if o.History() == w.History() {
      SamePrefix(o.replay, w.replay, w.unread);
    }
  }

  // A short line whose text makes the buffer grow from v to h, and to f if written at once.
  lemma ShortTextFits(v: View, line: seq<Byte>, h: View, f: View, o: View, w: View)
    requires v.Valid() && h == v.(size := h.size) && f == v.(size := f.size) && v.size < h.size <= f.size <= v.maxsize
    requires h.size == v.maxsize || |v.unread| + |line| <= h.size
    requires o == h.Arrive(line) && w == f.Arrive(line)
    ensures o.unread == w.unread
    ensures o.replay == w.replay <==> |v.History()| + |line| <= h.size || h.size == f.size
  {
    h.ArriveKeepsLatest(line);
    f.ArriveKeepsLatest(line);
    SameTails(v.unread + line, h.size, f.size);
    SameTails(v.History() + line, h.size, f.size);
    SameReplay(o, w);
  }

  // A short line whose newline does.
  lemma ShortNewlineFits(v: View, line: seq<Byte>, f: View, o: View, w: View)
    requires v.Valid() && f == v.(size := f.size) && v.size < f.size <= v.maxsize
    requires f.size == v.maxsize || |v.unread| + |line| < f.size
    requires |v.unread| + |line| > v.size && o.replay == [] && o.unread == LastN(v.unread + line, v.size + 1)
    requires w == f.Arrive(line)
    ensures o.replay == w.replay && o.unread == w.unread <==>
            |v.History()| + |line| == v.size + 1 || v.maxsize == v.size + 1
  {
    f.ArriveKeepsLatest(line);
    SameTails(v.unread + line, v.size + 1, f.size);
    assert |w.replay| == |w.History()| - |w.unread|;
  }

  lemma TailAndKept<T>(u: seq<T>, kept: seq<T>, room: nat, max: nat)
    requires |u| >= room && max == room + |kept|
    ensures LastN(u + kept, max) == LastN(u, room) + kept
  {
    LastNIsSlice(u + kept, max);
    LastNIsSlice(u, room);
  }

  // A long line x + kept, of which x is dropped before the buffer grows to size.
  lemma LongTails<T>(u: seq<T>, x: seq<T>, kept: seq<T>, line: seq<T>, max: nat, size: nat, full: nat, room: nat)
    requires line == x + kept && |u| <= |kept| && max == room + |kept| && x != []
    requires size <= max && (size == max || |u| + |kept| <= size)
    requires full <= max && (full == max || |u| + |line| < full)
    ensures LastN(u + kept, size) == LastN(u + line, full) <==>
            |u| >= room && LastN(u, room) == LastN(u + x, room)
  {
    if |u| >= room {
      Associative(u, x, kept);
      TailAndKept(u, kept, room, max);
      TailAndKept(u + x, kept, room, max);
      if LastN(u + kept, size) == LastN(u + line, full) {
        SamePrefix(LastN(u, room), LastN(u + x, room), kept);
      }
    }
  }

  // One write of an accepted line.
  lemma WrittenAtOnce(v: View, line: seq<Byte>, granted: bool)
    requires v.Valid() && v.AdmitsLine(|line|) && line != [] && v.policy != NoDrop
    ensures var w := v.Write(line, granted);
      w.view == v.Grown(|line|, granted).Arrive(line) && w.rc == |line| && Conserves(v, w)
  {
    assert line[..|line|] == line;
    WriteConserves(v, line, granted);
  }

  lemma GrownMore(v: View, n: nat, m: nat)
    requires v.Valid() && v.Free() < n <= m
    ensures v.Grown(n, true).size <= v.Grown(m, true).size
  {
  }

  // A long line, of which x is dropped, whose text makes the buffer grow.
  lemma LongTextFits(v: View, x: seq<Byte>, kept: seq<Byte>, line: seq<Byte>, h: View, f: View, o: View, w: View,
      room: nat)
    requires v.Valid() && h == v.(size := h.size) && f == v.(size := f.size)
    requires v.size < h.size <= v.maxsize && v.size < f.size <= v.maxsize
    requires line == x + kept && |kept| == v.size && x != [] && room == v.maxsize - v.size
    requires h.size == v.maxsize || |v.unread| + |kept| <= h.size
    requires f.size == v.maxsize || |v.unread| + |line| < f.size
    requires o == h.Arrive(kept) && w == f.Arrive(line)
    ensures o.replay == w.replay && o.unread == w.unread <==>
            |v.unread| >= room && LastN(v.unread, room) == LastN(v.unread + x, room)
  {
    LongTails(v.unread, x, kept, line, v.maxsize, h.size, f.size, room);
    h.ArriveKeepsLatest(kept);
    f.ArriveKeepsLatest(line);
    if |v.unread| >= room {
      assert |o.unread| == v.maxsize && |w.unread| == v.maxsize;
    }
  }

  // And one whose newline does.
  lemma LongNewlineFits(v: View, x: seq<Byte>, kept: seq<Byte>, line: seq<Byte>, f: View, o: View, w: View,
      room: nat)
    requires v.Valid() && f == v.(size := f.size) && v.size < f.size <= v.maxsize
    requires line == x + kept && |kept| == v.size && x != [] && room == v.maxsize - v.size && v.unread != []
    requires f.size == v.maxsize || |v.unread| + |line| < f.size
    requires o.replay == [] && o.unread == LastN(v.unread + kept, v.size + 1) && w == f.Arrive(line)
    ensures o.replay == w.replay && o.unread == w.unread <==>
            room == 1 && |v.unread| >= room && LastN(v.unread, room) == LastN(v.unread + x, room)
  {
    f.ArriveKeepsLatest(line);
    if room == 1 {
      LongTails(v.unread, x, kept, line, v.maxsize, v.maxsize, f.size, room);
      assert |w.unread| == v.maxsize;
    }
  }

  lemma TailAndOne<T>(u: seq<T>, a: seq<T>, t: seq<T>, both: seq<T>, n: nat, m: nat)
    requires both == a + t && |t| == 1 && m == n + 1 && |u| + |a| >= n
    ensures LastN(u + a, n) + t == LastN(u + both, m)
  {
    LastNAppend(u + a, t, n, m);
    Associative(u, a, t);
  }

  // The same for the two writes of a line: text a and newline t, or what it lacks of one.
  lemma ShortText(v: View, a: seq<Byte>, t: seq<Byte>, line: seq<Byte>, pre: nat, g2: bool)
    requires v.Valid() && v.AdmitsLine(|line|) && v.policy != NoDrop && v.size < v.maxsize
    requires line == a + t && |line| <= v.size && |t| <= 1 && |a| > v.Free()
    ensures var o, w := v.WriteTwice(a, t, |line|, pre, true, g2).view, v.Write(line, true).view;
      var size := v.Grown(|a|, true).size;
      o.replay == w.replay && o.unread == w.unread <==>
      |v.History()| + |line| <= size || size == v.Grown(|line|, true).size
  {
    var h, f := v.Grown(|a|, true), v.Grown(|line|, true);
    TextGrown(v, a, t, |line|, pre, true, g2, h);
    WrittenAtOnce(v, line, true);
    RoomForMore(v, |a|);
    GrownMore(v, |a|, |line|);
    ShortTextFits(v, line, h, f, h.Arrive(line), f.Arrive(line));
  }

  lemma LongText(v: View, x: seq<Byte>, a: seq<Byte>, t: seq<Byte>, line: seq<Byte>, pre: nat, g2: bool, room: nat)
    requires v.Valid() && v.AdmitsLine(|line|) && v.policy != NoDrop && v.size < v.maxsize
    requires line == x + (a + t) && |a + t| == v.size && |t| <= 1 && |a| > v.Free()
    requires x != [] && room == v.maxsize - v.size
    ensures var o, w := v.WriteTwice(a, t, |line|, pre, true, g2).view, v.Write(line, true).view;
      o.replay == w.replay && o.unread == w.unread <==>
      |v.unread| >= room && LastN(v.unread, room) == LastN(v.unread + x, room)
  {
    var h, f := v.Grown(|a|, true), v.Grown(|line|, true);
    TextGrown(v, a, t, |line|, pre, true, g2, h);
    WrittenAtOnce(v, line, true);
    RoomForMore(v, |a|);
    RoomForMore(v, |line|);
    LongTextFits(v, x, a + t, line, h, f, h.Arrive(a + t), f.Arrive(line), room);
  }

  lemma ShortNewline(v: View, a: seq<Byte>, t: seq<Byte>, line: seq<Byte>, pre: nat, g1: bool)
    requires v.Valid() && v.AdmitsLine(|line|) && v.policy != NoDrop && v.size < v.maxsize
    requires line == a + t && |line| <= v.size && |t| == 1 && |line| > v.Free() && (g1 ==> |a| <= v.Free())
    ensures var o, w := v.WriteTwice(a, t, |line|, pre, g1, true).view, v.Write(line, true).view;
      o.replay == w.replay && o.unread == w.unread <==>
      |v.History()| + |line| == v.size + 1 || v.maxsize == v.size + 1
  {
    var f := v.Grown(|line|, true);
    var o := v.WriteTwice(a, t, |line|, pre, g1, true).view;
    NewlineGrown(v, a, t, |line|, pre, g1, true);
    TailAndOne(v.unread, a, t, line, v.size, v.size + 1);
    WrittenAtOnce(v, line, true);
    RoomForMore(v, |line|);
    ShortNewlineFits(v, line, f, o, f.Arrive(line));
  }

  lemma LongNewline(v: View, x: seq<Byte>, a: seq<Byte>, t: seq<Byte>, line: seq<Byte>, pre: nat, g1: bool, room: nat)
    requires v.Valid() && v.AdmitsLine(|line|) && v.policy != NoDrop && v.size < v.maxsize
    requires line == x + (a + t) && |a + t| == v.size && |t| == 1 && v.size > v.Free() && (g1 ==> |a| <= v.Free())
    requires x != [] && room == v.maxsize - v.size
    ensures var o, w := v.WriteTwice(a, t, |line|, pre, g1, true).view, v.Write(line, true).view;
      o.replay == w.replay && o.unread == w.unread <==>
      room == 1 && |v.unread| >= room && LastN(v.unread, room) == LastN(v.unread + x, room)
  {
    var f := v.Grown(|line|, true);
    var o := v.WriteTwice(a, t, |line|, pre, g1, true).view;
    NewlineGrown(v, a, t, |line|, pre, g1, true);
    TailAndOne(v.unread, a, t, a + t, v.size, v.size + 1);
    WrittenAtOnce(v, line, true);
    RoomForMore(v, |line|);
    LongNewlineFits(v, x, a + t, line, f, o, f.Arrive(line), room);
  }

  lemma LateFits(v: View, s: seq<Byte>, line: seq<Byte>, pre: nat, g1: bool, g2: bool)
    requires v.Valid() && line == Line(s) && v.AdmitsLine(|line|) && v.policy != NoDrop
    requires TextGrows(v, s, g1) || NewlineGrows(v, s, g2)
    requires pre == Max(0, |line| - v.size) && pre <= |s|
    ensures var o, w := v.WriteTwice(s[pre..], Missing(s), |line|, pre, g1, g2).view, v.Write(line, true).view;
      o.replay == w.replay && o.unread == w.unread <==> LateGrowthFits(v, s, g1)
  {
    var a, t := s[pre..], Missing(s);
    if pre == 0 {
      assert a + t == line;
      if TextGrows(v, s, g1) {
        ShortText(v, a, t, line, pre, g2);
      } else {
        ShortNewline(v, a, t, line, pre, g1);
      }
    } else {
      var x := line[..pre];
      assert line == x + (a + t);
      if TextGrows(v, s, g1) {
        LongText(v, x, a, t, line, pre, g2, v.maxsize - v.size);
      } else {
        LongNewline(v, x, a, t, line, pre, g1, v.maxsize - v.size);
      }
    }
  }

  // Late growth keeps more unread bytes than a write without growth could.
  lemma LateIsLonger(v: View, s: seq<Byte>, line: seq<Byte>, pre: nat, g1: bool, g2: bool)
    requires v.Valid() && line == Line(s) && v.AdmitsLine(|line|)
    requires TextGrows(v, s, g1) || NewlineGrows(v, s, g2)
    requires pre == Max(0, |line| - v.size) && pre <= |s|
    ensures v.size < |v.WriteTwice(s[pre..], Missing(s), |line|, pre, g1, g2).view.unread|
  {
    var a, t := s[pre..], Missing(s);
    if TextGrows(v, s, g1) {
      var h := v.Grown(|a|, true);
      TextGrown(v, a, t, |line|, pre, g1, g2, h);
      RoomForMore(v, |a|);
      h.ArriveKeepsLatest(a + t);
    } else {
      NewlineGrown(v, a, t, |line|, pre, g1, g2);
    }
  }

  lemma LateLine(v: View, s: seq<Byte>, g0: bool, g1: bool, g2: bool)
    requires v.Valid() && GrowsLate(v, s, g0, g1, g2)
    ensures v.Grown(|Line(s)|, g0) == v && v.AdmitsLine(|Line(s)|) && v.policy != NoDrop
  {
  }

  lemma LateGrowthIsWrite(v: View, s: seq<Byte>, g0: bool, g1: bool, g2: bool)
    requires v.Valid() && GrowsLate(v, s, g0, g1, g2)
    ensures !SameBytes(v.WriteLine(s, g0, g1, g2), v.Write(Line(s), false))
    ensures SameBytes(v.WriteLine(s, g0, g1, g2), v.Write(Line(s), true)) <==> LateGrowthFits(v, s, g1)
  {
    var line := Line(s);
    var pre := Max(0, |line| - v.size);
    LateLine(v, s, g0, g1, g2);
    LineEnd(s, v.size, pre);
    v.WriteLineAdmitted(s, |line|, pre, g0, g1, g2);
    LateIsLonger(v, s, line, pre, g1, g2);
    LateFits(v, s, line, pre, g1, g2);
    WrittenAtOnce(v, line, true);
    WriteLineConserves(v, s, g0, g1, g2);
  }

  lemma RefusedLine(v: View, s: seq<Byte>, g0: bool, g1: bool, g2: bool)
    requires v.Valid() && !v.Grown(|Line(s)|, g0).AdmitsLine(|Line(s)|)
    ensures var l := v.WriteLine(s, g0, g1, g2);
      SameBytes(l, v.Write(Line(s), false)) || SameBytes(l, v.Write(Line(s), true))
      <==> v.policy == NoDrop && v.Free() == 0
  {
  }

  // cbuf_write_line leaves the bytes and reports the counts of one cbuf_write of the
  // line, with or without room granted, exactly when this holds of the arguments.
  predicate IsOneWrite(v: View, s: seq<Byte>, g0: bool, g1: bool, g2: bool)
    requires v.Valid()
  {
    if !v.Grown(|Line(s)|, g0).AdmitsLine(|Line(s)|) then v.policy == NoDrop && v.Free() == 0
    else if GrowsLate(v, s, g0, g1, g2) then LateGrowthFits(v, s, g1)
    else true
  }

  lemma LineIsOneWrite(v: View, s: seq<Byte>, g0: bool, g1: bool, g2: bool)
    requires v.Valid()
    ensures var l := v.WriteLine(s, g0, g1, g2);
      SameBytes(l, v.Write(Line(s), false)) || SameBytes(l, v.Write(Line(s), true)) <==> IsOneWrite(v, s, g0, g1, g2)
  {
    if !v.Grown(|Line(s)|, g0).AdmitsLine(|Line(s)|) {
      RefusedLine(v, s, g0, g1, g2);
    } else if GrowsLate(v, s, g0, g1, g2) {
      LateGrowthIsWrite(v, s, g0, g1, g2);
    } else {
      WriteLineIsWrite(v, s, g0, g1, g2);
    }
  }

  // A line that no single write leaves: room is refused first and granted when the
  // line has lost its head, and the byte before it stays.
  lemma LateGrowthCanDiffer()
    ensures var v, s := View([], [7], 1, 4, 1, WrapMany, false), [1, NEWLINE];
      && v.Valid() && GrowsLate(v, s, false, true, true)
      && !SameBytes(v.WriteLine(s, false, true, true), v.Write(Line(s), false))
      && !SameBytes(v.WriteLine(s, false, true, true), v.Write(Line(s), true))
  {
    var v, s := View([], [7], 1, 4, 1, WrapMany, false), [1, NEWLINE];
    assert Line(s) == s && Missing(s) == [];
    assert v.Grown(1, true).size == 4;
    LineIsOneWrite(v, s, false, true, true);
  }

  // And one that is as one write with room, although the size changes late.
  lemma LateGrowthCanFit(g2: bool)
    ensures var v, s := View([], [0, 0, 0, 0, 0, 0, 0, 0], 10, 100, 1, WrapMany, false), [1, 2, 3, 4];
      && v.Valid() && GrowsLate(v, s, false, true, g2)
      && SameBytes(v.WriteLine(s, false, true, g2), v.Write(Line(s), true))
  {
    var v, s := View([], [0, 0, 0, 0, 0, 0, 0, 0], 10, 100, 1, WrapMany, false), [1, 2, 3, 4];
    assert Missing(s) == [NEWLINE] && |Line(s)| == 5;
    LateGrowthIsWrite(v, s, false, true, g2);
  }
}
