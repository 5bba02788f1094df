// When hostlist_uniq removes every duplicate, whatever the widths are.

module HostDistinct {
  import opened Seqs
  import opened HostNames
  import opened HostRange
  import opened HostSpec
  import opened HostUniq

  // ----- the condition ---------------------------------------------------------------

  // Two ranges stand for a host in common, and a third that sorts between them does not
  // print its numbers like the first.
  ghost predicate Parts(a: Range, c: Range, b: Range)
    requires Sound(a) && Sound(b)
  {
    && a.prefix == b.prefix == c.prefix && !a.single && !b.single && !c.single
    && Shares(a, b) && KeyCmp(a, c) <= 0 && KeyCmp(c, b) <= 0
    && !Compatible(a.lo, a.width, c.lo, c.width)
  }

  // No duplicates are kept apart. The third range may be the second.
  ghost predicate Unparted(hr: seq<Range>)
    requires AllSound(hr)
  {
    forall i, k, j {:trigger Parts(hr[i], hr[k], hr[j])} |
      0 <= i < |hr| && 0 <= k < |hr| && 0 <= j < |hr| :: !Parts(hr[i], hr[k], hr[j])
  }

  // ----- it depends on keys alone ------------------------------------------------------

  lemma SameNames(h: Range, h': Range)
    requires Sound(h) && Sound(h') && SameKey(h, h')
    ensures Names(h) == Names(h')
  {
    RewidthKeepsNames(h, h'.width);
    if !h.single {
      assert h' == h.(width := h'.width);
    }
  }

  lemma PartsByKey(a: Range, c: Range, b: Range, a': Range, c': Range, b': Range)
    requires Sound(a) && Sound(b) && Sound(a') && Sound(b')
    requires SameKey(a, a') && SameKey(c, c') && SameKey(b, b') && Parts(a, c, b)
    ensures Parts(a', c', b')
  {
    SameNames(a, a');
    SameNames(b, b');
    CompatibleByStart(a, c, a', c');
  }

  // A range of the list has the key of r.
  ghost predicate KeyIn(r: Range, hr: seq<Range>) {
    exists j :: 0 <= j < |hr| && SameKey(r, hr[j])
  }

  ghost predicate KeysIn(s: seq<Range>, t: seq<Range>) {
    forall i | 0 <= i < |s| :: KeyIn(s[i], t)
  }

  lemma UnpartedKeys(a: Range, c: Range, b: Range, hr: seq<Range>)
    requires AllSound(hr) && Unparted(hr) && Sound(a) && Sound(b)
    requires KeyIn(a, hr) && KeyIn(c, hr) && KeyIn(b, hr)
    ensures !Parts(a, c, b)
  {
    var i :| 0 <= i < |hr| && SameKey(a, hr[i]);
    var k :| 0 <= k < |hr| && SameKey(c, hr[k]);
    var j :| 0 <= j < |hr| && SameKey(b, hr[j]);
    if Parts(a, c, b) {
      PartsByKey(a, c, b, hr[i], hr[k], hr[j]);
    }
  }

  lemma UnpartedByKeys(s: seq<Range>, t: seq<Range>)
    requires AllSound(s) && AllSound(t) && KeysIn(s, t) && Unparted(t)
    ensures Unparted(s)
  {
    forall i, k, j | 0 <= i < |s| && 0 <= k < |s| && 0 <= j < |s| ensures !Parts(s[i], s[k], s[j]) {
      UnpartedKeys(s[i], s[k], s[j], t);
    }
  }

  lemma OwnByKeys(s: seq<Range>, t: seq<Range>)
    requires AllSound(s) && AllSound(t) && KeysIn(s, t) && OwnNames(t)
    ensures OwnNames(s)
  {
    forall i, j | 0 <= i < |s| && 0 <= j < |s| && Shares(s[i], s[j]) ensures SameKind(s[i], s[j]) {
      assert KeyIn(s[i], t) && KeyIn(s[j], t);
      var m :| 0 <= m < |t| && SameKey(s[i], t[m]);
      var n :| 0 <= n < |t| && SameKey(s[j], t[n]);
      SameNames(s[i], t[m]);
      SameNames(s[j], t[n]);
      assert Shares(t[m], t[n]);
    }
  }

  // Both parts of the condition.
  ghost predicate LeavesNoneTwice(hr: seq<Range>)
    requires AllSound(hr)
  {
    Unparted(hr) && OwnNames(hr)
  }

  // qsort keeps the keys.
  lemma ReplacedKeys(s: seq<Range>, t: seq<Range>)
    requires |s| == |t| && forall i | 0 <= i < |s| :: SameKey(s[i], t[i])
    ensures KeysIn(s, t) && KeysIn(t, s)
  {
    forall i | 0 <= i < |t| ensures KeyIn(t[i], s) {
      assert SameKey(t[i], s[i]);
    }
  }

  lemma SwappedKeys(s: seq<Range>, a: nat, b: nat, t: seq<Range>)
    requires a < |s| && b < |s| && t == s[a := s[b]][b := s[a]]
    ensures KeysIn(s, t) && KeysIn(t, s)
  {
    forall i | 0 <= i < |s| ensures KeyIn(s[i], t) && KeyIn(t[i], s) {
      var j := if i == a then b else if i == b then a else i;
      assert t[j] == s[i] && s[j] == t[i];
      assert SameKey(s[i], t[j]) && SameKey(t[i], s[j]);
    }
  }

  lemma ComparedKeys(s: seq<Range>, a: nat, b: nat, h1: Range, h2: Range, t: seq<Range>)
    requires a < |s| && b < |s| && SameKey(s[a], h1) && SameKey(s[b], h2) && t == s[a := h1][b := h2]
    ensures KeysIn(s, t) && KeysIn(t, s)
  {
    ReplacedKeys(s, t);
  }

  lemma QSteppedKeys(hr: seq<Range>, step: QStep)
    requires AllSound(hr) && step.a < |hr| && step.b < |hr|
    ensures KeysIn(hr, QStepped(hr, step)) && KeysIn(QStepped(hr, step), hr)
  {
    match step
    case Compare(a, b) =>
      CmpKeepsNames(hr[a], hr[b]);
      ComparedKeys(hr, a, b, Compared(hr[a], hr[b]).0, Compared(hr[a], hr[b]).1, QStepped(hr, step));
    case Swap(a, b) =>
      SwappedKeys(hr, a, b, QStepped(hr, step));
  }

  lemma NoneTwiceByStep(hr: seq<Range>, step: QStep, t: seq<Range>)
    requires AllSound(hr) && step.a < |hr| && step.b < |hr| && t == QStepped(hr, step)
    ensures AllSound(t) && (LeavesNoneTwice(hr) <==> LeavesNoneTwice(t))
  {
    QSteppedKeeps(hr, step);
    QSteppedKeys(hr, step);
    if LeavesNoneTwice(hr) {
      UnpartedByKeys(t, hr);
      OwnByKeys(t, hr);
    } else if LeavesNoneTwice(t) {
      UnpartedByKeys(hr, t);
      OwnByKeys(hr, t);
    }
  }

  lemma {:induction false} NoneTwiceByPlan(hr: seq<Range>, plan: seq<QStep>, sorted: seq<Range>)
    requires AllSound(hr) && Legal(plan, |hr|) && sorted == QSorted(hr, plan)
    ensures AllSound(sorted) && (LeavesNoneTwice(hr) <==> LeavesNoneTwice(sorted))
    decreases |plan|
  {
    if plan != [] {
      var t := QStepped(hr, plan[0]);
      NoneTwiceByStep(hr, plan[0], t);
      NoneTwiceByPlan(t, plan[1..], sorted);
    }
  }

  // ----- what is joined into what ------------------------------------------------------

  // The range x has all hosts of a, printed alike.
  predicate Covers(x: Range, a: Range) {
    x.prefix == a.prefix && x.single == a.single && x.lo <= a.lo && a.hi <= x.hi
    && Printed(a.lo, x.width) == Printed(a.lo, a.width)
  }

  ghost predicate NamedIn(name: string, s: seq<Range>, from: nat, to: nat)
    requires AllSound(s) && to <= |s|
  {
    exists p :: from <= p < to && name in Names(s[p])
  }

  // The range x was joined from the ranges of s from `from` up to `to`.
  ghost predicate Block(x: Range, s: seq<Range>, from: nat, to: nat)
    requires AllSound(s) && Sound(x)
  {
    && from < to <= |s| && SameStart(s[from], x)
    && (forall p | from <= p < to :: Covers(x, s[p]))
    && (forall name | name in Names(x) :: NamedIn(name, s, from, to))
  }

  lemma CoveredNames(x: Range, a: Range, name: string)
    requires Sound(x) && Sound(a) && Covers(x, a) && name in Names(a)
    ensures name in Names(x)
  {
    if !a.single {
      var k :| 0 <= k < Count(a) && Names(a)[k] == name;
      SameAbove(a.lo, a.lo + k, a.width, x.width);
      assert Names(x)[a.lo + k - x.lo] == name;
    }
  }

  // What one range covers is compatible.
  lemma CoveredAreCompatible(x: Range, a: Range, b: Range)
    requires Covers(x, a) && Covers(x, b)
    ensures Compatible(a.lo, a.width, b.lo, b.width)
  {
    if a.lo <= b.lo {
      SameAbove(a.lo, b.lo, a.width, x.width);
    } else {
      SameAbove(b.lo, a.lo, b.width, x.width);
    }
  }

  // The widths may change, the hosts may become more.
  lemma CoversMore(x: Range, a: Range, y: Range)
    requires Covers(x, a) && y.prefix == x.prefix && y.single == x.single && y.lo <= x.lo && x.hi <= y.hi
    requires Printed(x.lo, x.width) == Printed(x.lo, y.width)
    ensures Covers(y, a)
  {
    SameAbove(x.lo, a.lo, x.width, y.width);
  }

  lemma RewidthBlock(x: Range, y: Range, s: seq<Range>, from: nat, to: nat)
    requires AllSound(s) && Sound(x) && Sound(y) && Block(x, s, from, to) && SameKey(x, y)
    ensures Block(y, s, from, to)
  {
    SameNames(x, y);
    forall p | from <= p < to ensures Covers(y, s[p]) {
      CoversMore(x, s[p], y);
    }
  }

  lemma JoinedCovers(a: Range, b: Range, x: Range)
    requires Sound(a) && Sound(b) && KeyCmp(a, b) <= 0 && Joins(a, b) && x == Joined(a, b).0
    ensures Sound(x) && SameStart(a, x) && Covers(x, a) && Covers(x, b)
    ensures Printed(a.lo, a.width) == Printed(a.lo, x.width) && Printed(b.lo, b.width) == Printed(b.lo, x.width)
  {
    JoinKeepsNames(a, b);
    OrderOfLows(a, b);
    CmpKeepsNames(a, b);
  }

  lemma JoinedBlock(a: Range, b: Range, x: Range, s: seq<Range>, from: nat, mid: nat, to: nat)
    requires AllSound(s) && Sound(a) && Sound(b) && KeyCmp(a, b) <= 0 && Joins(a, b) && x == Joined(a, b).0
    requires Block(a, s, from, mid) && Block(b, s, mid, to)
    ensures Sound(x) && Block(x, s, from, to)
  {
    JoinedCovers(a, b, x);
    JoinKeepsNames(a, b);
    forall p | from <= p < to ensures Covers(x, s[p]) {
      if p < mid {
        CoversMore(a, s[p], x);
      } else {
        CoversMore(b, s[p], x);
      }
    }
    forall name | name in Names(x) ensures NamedIn(name, s, from, to) {
      assert name in Elements(Names(x));
      if name in Names(a) {
        NamedInMore(name, s, from, mid, from, to);
      } else {
        assert name in Names(b);
        NamedInMore(name, s, mid, to, from, to);
      }
    }
  }

  lemma NamedInMore(name: string, s: seq<Range>, from: nat, to: nat, from': nat, to': nat)
    requires AllSound(s) && from' <= from <= to <= to' <= |s| && NamedIn(name, s, from, to)
    ensures NamedIn(name, s, from', to')
  {
    var p :| from <= p < to && name in Names(s[p]);
  }

  // The list was joined from s: range k from those between two cuts.
  ghost predicate Blocks(hr: seq<Range>, s: seq<Range>, cuts: seq<nat>)
    requires AllSound(hr) && AllSound(s)
  {
    && |cuts| == |hr| + 1 && cuts[0] == 0 && cuts[|hr|] == |s|
    && (forall k, m | 0 <= k < m < |cuts| :: cuts[k] < cuts[m])
    && forall k | 0 <= k < |hr| :: Block(hr[k], s, cuts[k], cuts[k + 1])
  }

  lemma OwnBlocks(s: seq<Range>) returns (cuts: seq<nat>)
    requires AllSound(s)
    ensures Blocks(s, s, cuts)
  {
    cuts := seq(|s| + 1, k => k);
    forall k | 0 <= k < |s| ensures Block(s[k], s, k, k + 1) {
      forall name | name in Names(s[k]) ensures NamedIn(name, s, k, k + 1) {
      }
    }
  }

  lemma BlocksJoined(hr: seq<Range>, i: nat, x: Range, t: seq<Range>, s: seq<Range>, cuts: seq<nat>)
      returns (cuts': seq<nat>)
    requires AllSound(hr) && AllSound(s) && Blocks(hr, s, cuts) && 0 < i < |hr| && Sound(x)
    requires Block(x, s, cuts[i - 1], cuts[i + 1]) && t == hr[..i - 1] + [x] + hr[i + 1..]
    ensures AllSound(t) && Blocks(t, s, cuts')
  {
    cuts' := cuts[..i] + cuts[i + 1..];
    assert forall k | 0 <= k < |cuts'| :: cuts'[k] == if k < i then cuts[k] else cuts[k + 1];
    forall k | 0 <= k < |t| ensures Sound(t[k]) && Block(t[k], s, cuts'[k], cuts'[k + 1]) {
      if k < i - 1 {
        assert t[k] == hr[k];
      } else if k > i - 1 {
        assert t[k] == hr[k + 1];
      }
    }
  }

  lemma BlocksRewidthed(hr: seq<Range>, t: seq<Range>, s: seq<Range>, cuts: seq<nat>)
    requires AllSound(hr) && AllSound(s) && Blocks(hr, s, cuts) && AllSound(t)
    requires |t| == |hr| && forall k | 0 <= k < |t| :: SameKey(hr[k], t[k])
    ensures Blocks(t, s, cuts)
  {
    forall k | 0 <= k < |t| ensures Block(t[k], s, cuts[k], cuts[k + 1]) {
      RewidthBlock(hr[k], t[k], s, cuts[k], cuts[k + 1]);
    }
  }

  // ----- neighbours that do not join -----------------------------------------------------

  ghost predicate NoneJoins(hr: seq<Range>, n: nat) {
    forall k | 0 < k < n && k < |hr| :: !Joins(hr[k - 1], hr[k])
  }

  lemma JoinsByStart(a: Range, b: Range, a': Range, b': Range)
    requires SameKey(a, a') && SameStart(b, b')
    ensures Joins(a, b) <==> Joins(a', b')
  {
    CompatibleByStart(a, b, a', b');
  }

  lemma NoneJoinsTurned(hr: seq<Range>, i: nat, t: seq<Range>)
    requires AllSmall(hr) && KeySorted(hr) && 0 < i < |hr| && NoneJoins(hr, i) && t == Turned(hr, i)
    ensures NoneJoins(t, if Joins(hr[i - 1], hr[i]) then i else i + 1)
  {
    var a, b := hr[i - 1], hr[i];
    if Joins(a, b) {
      JoinedCovers(a, b, t[i - 1]);
    } else {
      CmpKeepsNames(a, b);
      JoinsByStart(a, b, t[i - 1], t[i]);
    }
    if i > 1 {
      assert t[i - 2] == hr[i - 2];
      JoinsByStart(hr[i - 2], a, hr[i - 2], t[i - 1]);
    }
    forall k | 0 < k < i - 1 ensures !Joins(t[k - 1], t[k]) {
      assert t[k - 1] == hr[k - 1] && t[k] == hr[k];
    }
  }

  lemma BlocksTurned(hr: seq<Range>, i: nat, t: seq<Range>, s: seq<Range>, cuts: seq<nat>)
      returns (cuts': seq<nat>)
    requires AllSmall(hr) && KeySorted(hr) && 0 < i < |hr| && t == Turned(hr, i) && AllSound(t)
    requires AllSound(s) && AllSound(hr) && Blocks(hr, s, cuts)
    ensures Blocks(t, s, cuts')
  {
    var a, b := hr[i - 1], hr[i];
    if Joins(a, b) {
      assert Block(a, s, cuts[i - 1], cuts[i]) && Block(b, s, cuts[i], cuts[i + 1]);
      JoinedBlock(a, b, Joined(a, b).0, s, cuts[i - 1], cuts[i], cuts[i + 1]);
      cuts' := BlocksJoined(hr, i, Joined(a, b).0, t, s, cuts);
    } else {
      CmpKeepsNames(a, b);
      cuts' := cuts;
      forall k | 0 <= k < |t| ensures SameKey(hr[k], t[k]) {
      }
      BlocksRewidthed(hr, t, s, cuts);
    }
  }

  // What hostlist_uniq leaves was joined from blocks of the sorted list.
  lemma {:induction false} AllJoinedBlocks(hr: seq<Range>, i: nat, s: seq<Range>, cuts: seq<nat>, left: seq<Range>)
      returns (cuts': seq<nat>)
    requires AllSmall(hr) && KeySorted(hr) && 0 < i && NoneJoins(hr, i) && left == AllJoined(hr, i)
    requires AllSound(s) && AllSound(hr) && Blocks(hr, s, cuts)
    ensures AllSound(left) && NoneJoins(left, |left|) && Blocks(left, s, cuts')
    decreases 2 * |hr| - i
  {
    cuts' := cuts;
    if i < |hr| {
      var a, b := hr[i - 1], hr[i];
      TurnKeepsOrder(hr, i);
      NoneJoinsTurned(hr, i, Turned(hr, i));
      cuts' := BlocksTurned(hr, i, Turned(hr, i), s, cuts);
      cuts' := AllJoinedBlocks(Turned(hr, i), if Joins(a, b) then i else i + 1, s, cuts', left);
    }
  }

  // ----- if no host is left twice ----------------------------------------------------------

  lemma SameKeys(a: Range, b: Range)
    requires KeyCmp(a, b) <= 0 && KeyCmp(b, a) <= 0
    ensures SameStart(a, b)
  {
    KeyIsOrder(a, b, a);
    StrCmpIsEqual(a.prefix, b.prefix);
  }

  lemma {:induction false} BlockOf(hr: seq<Range>, s: seq<Range>, cuts: seq<nat>, p: nat, n: nat) returns (b: nat)
    requires AllSound(hr) && AllSound(s) && Blocks(hr, s, cuts) && n <= |hr| && p < cuts[n]
    ensures b < n && cuts[b] <= p < cuts[b + 1]
    decreases n
  {
    if p < cuts[n - 1] {
      b := BlockOf(hr, s, cuts, p, n - 1);
    } else {
      b := n - 1;
    }
  }

  lemma InExpand(hr: seq<Range>, k: nat, name: string)
    requires AllSound(hr) && k < |hr| && name in Names(hr[k])
    ensures name in Expand(hr)
  {
    ExpandAt(hr, k);
  }

  lemma InLater(hr: seq<Range>, m: nat, n: nat, name: string)
    requires AllSound(hr) && m < n < |hr| && name in Names(hr[n])
    ensures name in Expand(hr[m + 1..])
  {
    var rest := hr[m + 1..];
    assert rest[n - m - 1] == hr[n];
    InExpand(rest, n - m - 1, name);
  }

  lemma SharedIsTwice(hr: seq<Range>, m: nat, n: nat, name: string)
    requires AllSound(hr) && m < n < |hr| && name in Names(hr[m]) && name in Names(hr[n])
    ensures !Distinct(Expand(hr))
  {
    InLater(hr, m, n, name);
    ExpandAt(hr, m);
    TwiceInSum(Expand(hr[..m]), Names(hr[m]), Expand(hr[m + 1..]), name);
  }

  lemma TwiceInSum(s: seq<string>, t: seq<string>, u: seq<string>, name: string)
    requires name in t && name in u
    ensures !Distinct(s + t + u)
  {
    var i :| 0 <= i < |t| && t[i] == name;
    var j :| 0 <= j < |u| && u[j] == name;
    assert (s + t + u)[|s| + i] == name && (s + t + u)[|s| + |t| + j] == name;
  }

  // Ranges that share a host are in one block.
  lemma SharersMeet(hr: seq<Range>, s: seq<Range>, cuts: seq<nat>, i: nat, j: nat, m: nat, n: nat)
    requires AllSound(hr) && AllSound(s) && Blocks(hr, s, cuts) && Distinct(Expand(hr))
    requires m < |hr| && n < |hr| && cuts[m] <= i < cuts[m + 1] && cuts[n] <= j < cuts[n + 1]
    requires Shares(s[i], s[j])
    ensures m == n
  {
    var name :| name in Names(s[i]) && name in Names(s[j]);
    assert Block(hr[m], s, cuts[m], cuts[m + 1]) && Block(hr[n], s, cuts[n], cuts[n + 1]);
    CoveredNames(hr[m], s[i], name);
    CoveredNames(hr[n], s[j], name);
    if m < n {
      SharedIsTwice(hr, m, n, name);
    } else if n < m {
      SharedIsTwice(hr, n, m, name);
    }
  }

  // And what sorts between ranges of one block is compatible with them.
  lemma BetweenIsCompatible(s: seq<Range>, x: Range, from: nat, to: nat, i: nat, k: nat, j: nat)
    requires AllSound(s) && KeySorted(s) && Sound(x) && Block(x, s, from, to)
    requires from <= i < to && from <= j < to && k < |s| && KeyCmp(s[i], s[k]) <= 0 && KeyCmp(s[k], s[j]) <= 0
    ensures Compatible(s[i].lo, s[i].width, s[k].lo, s[k].width)
  {
    if from <= k < to {
      CoveredAreCompatible(x, s[i], s[k]);
    } else if k < from {
      KeySortedFar(s, k, i);
      SameKeys(s[i], s[k]);
    } else {
      KeySortedFar(s, j, k);
      SameKeys(s[j], s[k]);
      CoveredAreCompatible(x, s[i], s[j]);
      CompatibleByStart(s[i], s[j], s[i], s[k]);
    }
  }

  lemma DistinctIsUnparted(hr: seq<Range>, s: seq<Range>, cuts: seq<nat>)
    requires AllSound(hr) && AllSound(s) && KeySorted(s) && Blocks(hr, s, cuts) && Distinct(Expand(hr))
    ensures Unparted(s)
  {
    forall i, k, j | 0 <= i < |s| && 0 <= k < |s| && 0 <= j < |s| ensures !Parts(s[i], s[k], s[j]) {
      if Parts(s[i], s[k], s[j]) {
        var m := BlockOf(hr, s, cuts, i, |hr|);
        var n := BlockOf(hr, s, cuts, j, |hr|);
        SharersMeet(hr, s, cuts, i, j, m, n);
        BetweenIsCompatible(s, hr[m], cuts[m], cuts[m + 1], i, k, j);
      }
    }
  }

  // Only ranges of one prefix are in one block.
  lemma DistinctIsOwn(hr: seq<Range>, s: seq<Range>, cuts: seq<nat>)
    requires AllSound(hr) && AllSound(s) && Blocks(hr, s, cuts) && Distinct(Expand(hr))
    ensures OwnNames(s)
  {
    forall i, j | 0 <= i < |s| && 0 <= j < |s| && Shares(s[i], s[j]) ensures SameKind(s[i], s[j]) {
      var m := BlockOf(hr, s, cuts, i, |hr|);
      var n := BlockOf(hr, s, cuts, j, |hr|);
      SharersMeet(hr, s, cuts, i, j, m, n);
      assert Block(hr[m], s, cuts[m], cuts[m + 1]);
      assert Covers(hr[m], s[i]) && Covers(hr[m], s[j]);
    }
  }

  // ----- if no duplicates are kept apart ---------------------------------------------------

  // Of ranges compatible with a, those that sort later start later.
  lemma LowsBetween(a: Range, c: Range, b: Range)
    requires KeyCmp(a, c) <= 0 && KeyCmp(c, b) <= 0 && KeyCmp(a, b) <= 0
    requires PrefixCmp(a, c) == 0 && PrefixCmp(c, b) == 0 && PrefixCmp(a, b) == 0
    requires Compatible(a.lo, a.width, c.lo, c.width) && Compatible(a.lo, a.width, b.lo, b.width)
    ensures a.lo <= c.lo <= b.lo
  {
    OrderOfLows(a, c);
    OrderOfLows(a, b);
    CompatibleUpwards(a, c);
    CompatibleUpwards(a, b);
    if c.lo > b.lo {
      MoreDigits(b.lo, c.lo);
    }
  }

  // A block would have gone on with the next, which starts like c.
  lemma WouldJoin(x: Range, y: Range, a: Range, c: Range)
    requires Covers(x, a) && SameStart(c, y) && PrefixCmp(x, y) == 0 && a.lo <= c.lo <= a.hi
    requires Compatible(a.lo, a.width, c.lo, c.width)
    ensures Joins(x, y)
  {
    CompatibleUpwards(a, c);
    SameAbove(a.lo, c.lo, a.width, x.width);
    CompatibleUpwards(x, y);
  }

  lemma SinglesJoin(a: Range, b: Range, c: Range)
    requires Sound(a) && Sound(b) && Sound(c) && a.single && KeyCmp(a, b) <= 0 && KeyCmp(b, c) <= 0
    requires a.prefix == c.prefix && a.single == c.single
    ensures Joins(a, b)
  {
    PrefixIsContiguous(a, b, c);
    StrCmpIsEqual(a.prefix, b.prefix);
  }

  // Two ranges of s with a host in common in different blocks: the first range of the
  // block that follows the first of them would have been joined to it.
  lemma NextWouldJoin(s: seq<Range>, x: Range, y: Range, p: nat, f: nat, q: nat, name: string)
    requires AllSound(s) && KeySorted(s) && Unparted(s) && p <= f <= q < |s|
    requires s[p].prefix == s[q].prefix && !s[p].single && !s[q].single
    requires name in Names(s[p]) && name in Names(s[q])
    requires Covers(x, s[p]) && SameStart(s[f], y)
    ensures Joins(x, y)
  {
    KeySortedFar(s, p, f);
    KeySortedFar(s, f, q);
    KeySortedFar(s, p, q);
    KeySortedFar(s, q, q);
    PrefixIsContiguous(s[p], s[f], s[q]);
    StrCmpIsEqual(s[p].prefix, s[p].prefix);
    SharedNumber(s[p], s[q], name);
    assert Shares(s[p], s[q]);
    assert !Parts(s[p], s[f], s[q]) && !Parts(s[p], s[q], s[q]);
    LowsBetween(s[p], s[f], s[q]);
    WouldJoin(x, y, s[p], s[f]);
  }

  lemma NeighboursJoin(hr: seq<Range>, s: seq<Range>, cuts: seq<nat>, m: nat, n: nat, name: string)
    requires AllSound(hr) && AllSound(s) && KeySorted(s) && LeavesNoneTwice(s) && Blocks(hr, s, cuts)
    requires KeySorted(hr) && m < n < |hr| && name in Names(hr[m]) && name in Names(hr[n])
    ensures Joins(hr[m], hr[m + 1])
  {
    var f := cuts[m + 1];
    assert Block(hr[m], s, cuts[m], f) && Block(hr[m + 1], s, f, cuts[m + 2]) && Block(hr[n], s, cuts[n], cuts[n + 1]);
    assert NamedIn(name, s, cuts[m], f) && NamedIn(name, s, cuts[n], cuts[n + 1]);
    var p :| cuts[m] <= p < f && name in Names(s[p]);
    var q :| cuts[n] <= q < cuts[n + 1] && name in Names(s[q]);
    assert Covers(hr[m], s[p]) && Covers(hr[n], s[q]);
    assert Shares(s[p], s[q]);
    assert SameKind(s[p], s[q]);
    if hr[m].single {
      KeySortedFar(hr, m + 1, n);
      SinglesJoin(hr[m], hr[m + 1], hr[n]);
    } else {
      NextWouldJoin(s, hr[m], hr[m + 1], p, f, q, name);
    }
  }

  lemma NoneTwiceIsDistinct(hr: seq<Range>, s: seq<Range>, cuts: seq<nat>)
    requires AllSound(hr) && AllSound(s) && KeySorted(s) && LeavesNoneTwice(s) && Blocks(hr, s, cuts)
    requires KeySorted(hr) && NoneJoins(hr, |hr|)
    ensures Distinct(Expand(hr))
  {
    forall m, n | 0 <= m < n < |hr| ensures !Shares(hr[m], hr[n]) {
      if name :| name in Names(hr[m]) && name in Names(hr[n]) {
        NeighboursJoin(hr, s, cuts, m, n, name);
      }
    }
    NoneSharesIsDistinct(hr);
  }

  // ----- the exact condition -----------------------------------------------------------------

  lemma UniqedBlocks(hr: seq<Range>, plan: seq<QStep>) returns (s: seq<Range>, cuts: seq<nat>)
    requires AllSmall(hr) && Legal(plan, |hr|) && InOrder(QSorted(hr, plan))
    ensures var left := Uniqed(hr, plan);
      && AllSound(hr) && AllSound(s) && KeySorted(s) && (LeavesNoneTwice(hr) <==> LeavesNoneTwice(s))
      && AllSound(left) && NoneJoins(left, |left|) && Blocks(left, s, cuts)
  {
    s := if |hr| <= 1 then hr else QSorted(hr, plan);
    QSortKeeps(hr, plan, p => 0);
    NoneTwiceByPlan(hr, plan, QSorted(hr, plan));
    cuts := OwnBlocks(s);
    if |hr| > 1 {
      InOrderIsKeySorted(s);
      cuts := AllJoinedBlocks(s, 1, s, cuts, Uniqed(hr, plan));
    }
  }

  // Whatever the list and whatever qsort does, hostlist_uniq leaves no host twice if and
  // only if no duplicates are kept apart by a range that sorts between them, and ranges of
  // different prefixes, which it never compares for hosts, have none in common.
  lemma UniqIsExact(hr: seq<Range>, plan: seq<QStep>)
    requires AllSmall(hr) && Legal(plan, |hr|) && InOrder(QSorted(hr, plan))
    ensures AllSound(hr) && AllSound(Uniqed(hr, plan))
    ensures Distinct(Expand(Uniqed(hr, plan))) <==> Unparted(hr) && OwnNames(hr)
  {
    var left := Uniqed(hr, plan);
    var s, cuts := UniqedBlocks(hr, plan);
    UniqedIsSound(hr, plan);
    if Distinct(Expand(left)) {
      DistinctIsUnparted(left, s, cuts);
      DistinctIsOwn(left, s, cuts);
    } else if LeavesNoneTwice(hr) {
      NoneTwiceIsDistinct(left, s, cuts);
    }
  }

  // Prefixes that do not end in digits make every host that of one prefix.
  lemma UniqOfDigitFree(hr: seq<Range>, plan: seq<QStep>)
    requires AllSmall(hr) && Legal(plan, |hr|) && InOrder(QSorted(hr, plan)) && DigitFree(hr)
    ensures AllSound(hr) && AllSound(Uniqed(hr, plan))
    ensures Distinct(Expand(Uniqed(hr, plan))) <==> Unparted(hr)
  {
    UniqIsExact(hr, plan);
    DigitFreeIsOwn(hr);
  }

  // So two ranges with a host in common that do not print their numbers alike keep it.
  lemma IncompatibleStay(hr: seq<Range>, plan: seq<QStep>, i: nat, j: nat)
    requires AllSmall(hr) && AllSound(hr) && Legal(plan, |hr|) && InOrder(QSorted(hr, plan)) && i < |hr| && j < |hr|
    requires hr[i].prefix == hr[j].prefix && !hr[i].single && !hr[j].single && Shares(hr[i], hr[j])
    requires !Compatible(hr[i].lo, hr[i].width, hr[j].lo, hr[j].width)
    ensures AllSound(Uniqed(hr, plan)) && !Distinct(Expand(Uniqed(hr, plan)))
  {
    var (a, b) := if KeyCmp(hr[i], hr[j]) <= 0 then (i, j) else (j, i);
    KeyIsOrder(hr[i], hr[j], hr[j]);
    KeyIsOrder(hr[b], hr[b], hr[b]);
    assert Shares(hr[a], hr[b]);
    assert Parts(hr[a], hr[b], hr[b]);
    UniqIsExact(hr, plan);
  }

  // So do two of different prefixes, or of which one has no number.
  lemma StrangersStay(hr: seq<Range>, plan: seq<QStep>, i: nat, j: nat)
    requires AllSmall(hr) && AllSound(hr) && Legal(plan, |hr|) && InOrder(QSorted(hr, plan)) && i < |hr| && j < |hr|
    requires Shares(hr[i], hr[j]) && !SameKind(hr[i], hr[j])
    ensures AllSound(Uniqed(hr, plan)) && !Distinct(Expand(Uniqed(hr, plan)))
  {
    UniqIsExact(hr, plan);
  }

  // Ranges of one prefix that print alike do not.
  lemma CompatibleIsUnparted(hr: seq<Range>)
    requires AllSound(hr) && PairwiseCompatible(hr)
    ensures Unparted(hr)
  {
    forall i, k, j | 0 <= i < |hr| && 0 <= k < |hr| && 0 <= j < |hr| ensures !Parts(hr[i], hr[k], hr[j]) {
    }
  }

  // So with a common width per prefix only different prefixes can leave a host twice.
  lemma UniqOfUniform(hr: seq<Range>, plan: seq<QStep>, w: string -> nat)
    requires AllSmall(hr) && Legal(plan, |hr|) && InOrder(QSorted(hr, plan)) && Uniform(hr, w)
    ensures AllSound(hr) && AllSound(Uniqed(hr, plan))
    ensures Distinct(Expand(Uniqed(hr, plan))) <==> OwnNames(hr)
  {
    UniformIffCompatible(hr);
    CompatibleIsUnparted(hr);
    UniqIsExact(hr, plan);
  }

  lemma NoneSharesOnce(hr: seq<Range>, i: nat, j: nat)
    requires AllSound(hr) && NoneShares(hr) && i < |hr| && j < |hr| && Shares(hr[i], hr[j])
    ensures i == j
  {
    var name :| name in Names(hr[i]) && name in Names(hr[j]);
    if i != j {
      var a, b := Min(i, j), Max(i, j);
      assert name in Names(hr[a]) && name in Names(hr[b]);
      assert Shares(hr[a], hr[b]);
    }
  }

  // Nor do ranges with no host in common.
  lemma NoneSharesIsUnparted(hr: seq<Range>)
    requires AllSound(hr) && NoneShares(hr)
    ensures LeavesNoneTwice(hr)
  {
    forall i, k, j | 0 <= i < |hr| && 0 <= k < |hr| && 0 <= j < |hr| ensures !Parts(hr[i], hr[k], hr[j]) {
      if Parts(hr[i], hr[k], hr[j]) {
        NoneSharesOnce(hr, i, j);
        SameKeys(hr[i], hr[k]);
      }
    }
    forall i, j | 0 <= i < |hr| && 0 <= j < |hr| && Shares(hr[i], hr[j]) ensures SameKind(hr[i], hr[j]) {
      NoneSharesOnce(hr, i, j);
    }
  }

  lemma NoneSharesStays(hr: seq<Range>, plan: seq<QStep>)
    requires AllSmall(hr) && AllSound(hr) && Legal(plan, |hr|) && InOrder(QSorted(hr, plan)) && NoneShares(hr)
    ensures AllSound(Uniqed(hr, plan)) && Distinct(Expand(Uniqed(hr, plan)))
  {
    NoneSharesIsUnparted(hr);
    UniqIsExact(hr, plan);
  }

  // ----- mixed widths ------------------------------------------------------------------------

  lemma NameAt(r: Range, n: nat, name: string)
    requires Sound(r) && !r.single && r.lo <= n <= r.hi && name == r.prefix + Pad(n, r.width)
    ensures name in Names(r)
  {
    assert Names(r)[n - r.lo] == name;
  }

  // Both stand for f100, and do not print alike: it stays there twice, whatever qsort does.
  const LEFT_TWICE: seq<Range> := [Range("f", 1, 150, 1, false), Range("f", 8, 120, 3, false)]

  lemma MixedWidthsCanStay(plan: seq<QStep>)
    requires Legal(plan, |LEFT_TWICE|) && InOrder(QSorted(LEFT_TWICE, plan))
    ensures AllSound(Uniqed(LEFT_TWICE, plan)) && !Distinct(Expand(Uniqed(LEFT_TWICE, plan)))
  {
    var hr := LEFT_TWICE;
    assert NumDigits(100) == 3;
    NameAt(hr[0], 100, "f" + Pad(100, 1));
    NameAt(hr[1], 100, "f" + Pad(100, 3));
    assert Shares(hr[0], hr[1]);
    IncompatibleStay(hr, plan, 0, 1);
  }

  // The first and the last stand for f100 and do print alike, but f09 keeps them apart.
  const KEPT_APART: seq<Range> :=
    [Range("f", 8, 120, 1, false), Range("f", 9, 9, 2, false), Range("f", 100, 150, 3, false)]

  lemma MixedWidthsCanPart(plan: seq<QStep>)
    requires Legal(plan, |KEPT_APART|) && InOrder(QSorted(KEPT_APART, plan))
    ensures AllSound(Uniqed(KEPT_APART, plan)) && !Distinct(Expand(Uniqed(KEPT_APART, plan)))
  {
    var hr := KEPT_APART;
    assert NumDigits(100) == 3;
    NameAt(hr[0], 100, "f" + Pad(100, 1));
    NameAt(hr[2], 100, "f" + Pad(100, 3));
    assert Shares(hr[0], hr[2]);
    assert Parts(hr[0], hr[1], hr[2]);
    UniqIsExact(hr, plan);
  }

  // These do not print alike, and have no host in common.
  const NOTHING_SHARED: seq<Range> := [Range("f", 1, 2, 1, false), Range("f", 7, 8, 3, false)]

  lemma NothingIsShared()
    ensures AllSmall(NOTHING_SHARED) && AllSound(NOTHING_SHARED)
    ensures NoneShares(NOTHING_SHARED) && !PairwiseCompatible(NOTHING_SHARED)
  {
    var hr := NOTHING_SHARED;
    assert !Compatible(hr[0].lo, hr[0].width, hr[1].lo, hr[1].width);
    if Shares(hr[0], hr[1]) {
      var name :| name in Names(hr[0]) && name in Names(hr[1]);
      SharedNumber(hr[0], hr[1], name);
    }
  }

  lemma MixedWidthsCanPass(plan: seq<QStep>)
    requires Legal(plan, |NOTHING_SHARED|) && InOrder(QSorted(NOTHING_SHARED, plan))
    ensures !PairwiseCompatible(NOTHING_SHARED)
    ensures AllSound(Uniqed(NOTHING_SHARED, plan)) && Distinct(Expand(Uniqed(NOTHING_SHARED, plan)))
  {
    NothingIsShared();
    NoneSharesStays(NOTHING_SHARED, plan);
  }

  // ----- prefixes that end in digits --------------------------------------------------------

  // All widths are those of the numbers, and f10 is the first host of the one range and
  // the first of the other: it stays there twice.
  const TWO_PREFIXES: seq<Range> := [Range("f", 10, 12, 2, false), Range("f1", 0, 2, 1, false)]

  lemma BothAreF10()
    ensures AllSmall(TWO_PREFIXES) && AllSound(TWO_PREFIXES) && Shares(TWO_PREFIXES[0], TWO_PREFIXES[1])
    ensures PairwiseCompatible(TWO_PREFIXES)
  {
    var hr := TWO_PREFIXES;
    assert "f" + Pad(10, 2) == "f10" == "f1" + Pad(0, 1);
    NameAt(hr[0], 10, "f10");
    NameAt(hr[1], 0, "f10");
  }

  lemma PrefixesCanShare(plan: seq<QStep>)
    requires Legal(plan, |TWO_PREFIXES|) && InOrder(QSorted(TWO_PREFIXES, plan))
    ensures AllSound(TWO_PREFIXES) && PairwiseCompatible(TWO_PREFIXES) && Unparted(TWO_PREFIXES)
    ensures AllSound(Uniqed(TWO_PREFIXES, plan)) && !Distinct(Expand(Uniqed(TWO_PREFIXES, plan)))
  {
    BothAreF10();
    CompatibleIsUnparted(TWO_PREFIXES);
    StrangersStay(TWO_PREFIXES, plan, 0, 1);
  }
}
