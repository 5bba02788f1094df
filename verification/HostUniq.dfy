// Removing duplicates from a sorted list of ranges.

module HostUniq {
  import opened Seqs
  import opened HostNames
  import opened HostRange
  import opened HostSpec

  ghost predicate KeySorted(hr: seq<Range>) {
    forall k | 0 < k < |hr| :: KeyCmp(hr[k - 1], hr[k]) <= 0
  }

  lemma InOrderIsKeySorted(hr: seq<Range>)
    requires AllSmall(hr) && InOrder(hr)
    ensures KeySorted(hr)
  {
    forall k | 0 < k < |hr| ensures KeyCmp(hr[k - 1], hr[k]) <= 0 {
      CmpIsKey(hr[k - 1], hr[k]);
    }
  }

  // The same hosts, or numbers of one prefix with no gap between them.
  predicate Touches(a: Range, b: Range) {
    PrefixCmp(a, b) == 0 && (a.single || a.hi + 1 >= b.lo)
  }

  // ----- one turn of the loop of hostlist_uniq ------------------------------------------

  // Two neighbours are replaced by others with the same keys, up to `hi`.
  lemma KeySortedPair(front: seq<Range>, a: Range, b: Range, back: seq<Range>, a': Range, b': Range)
    requires KeySorted(front + [a, b] + back)
    requires SameKey(a.(hi := a'.hi), a') && SameKey(b.(hi := b'.hi), b')
    ensures KeySorted(front + [a', b'] + back)
  {
    var s, t := front + [a, b] + back, front + [a', b'] + back;
    forall k | 0 < k < |t| ensures KeyCmp(t[k - 1], t[k]) <= 0 {
      assert KeyCmp(t[k - 1], t[k]) == KeyCmp(s[k - 1], s[k]);
    }
  }

  // Of two neighbours the second goes.
  lemma KeySortedJoined(front: seq<Range>, a: Range, b: Range, back: seq<Range>, a': Range)
    requires KeySorted(front + [a, b] + back) && SameKey(a.(hi := a'.hi), a')
    ensures KeySorted(front + [a'] + back)
  {
    var s, t := front + [a, b] + back, front + [a'] + back;
    var n := |front|;
    forall k | 0 < k < |t| ensures KeyCmp(t[k - 1], t[k]) <= 0 {
      if k < n {
        assert t[k - 1] == s[k - 1] && t[k] == s[k];
      } else if k == n {
        assert t[k - 1] == s[k - 1] && s[k] == a;
      } else if k == n + 1 {
        assert s[n] == a && s[n + 1] == b && s[n + 2] == t[k];
        assert KeyCmp(s[n], s[n + 1]) <= 0 && KeyCmp(s[n + 1], s[n + 2]) <= 0;
        KeyIsOrder(a, b, t[k]);
      } else {
        assert t[k - 1] == s[k] && t[k] == s[k + 1];
      }
    }
  }

  lemma ExpandPair(front: seq<Range>, a: Range, b: Range, back: seq<Range>)
    requires AllSound(front) && Sound(a) && Sound(b) && AllSound(back)
    ensures AllSound(front + [a, b] + back)
    ensures Expand(front + [a, b] + back) == Expand(front) + (Names(a) + Names(b)) + Expand(back)
  {
    ExpandOfOne(b);
    assert [a, b][1..] == [b];
    ExpandOfSum(front, [a, b]);
    ExpandOfSum(front + [a, b], back);
  }

  // After a join as many names are left as were there, but for the duplicates, and they
  // are the same if the ranges were in order.
  lemma JoinStep(front: seq<Range>, a: Range, b: Range, back: seq<Range>, a': Range)
    requires AllSound(front) && Sound(a) && Sound(b) && AllSound(back)
    requires Joins(a, b) && a' == Joined(a, b).0 && Sound(a')
    ensures AllSound(front + [a, b] + back) && AllSound(front + [a'] + back)
    ensures |Expand(front + [a'] + back)| == |Expand(front + [a, b] + back)| - Count(a) - Count(b) + Count(a')
    ensures KeyCmp(a, b) <= 0 ==> Elements(Expand(front + [a'] + back)) == Elements(Expand(front + [a, b] + back))
  {
    ExpandPair(front, a, b, back);
    ExpandOfThree(front, a', back);
    if KeyCmp(a, b) <= 0 {
      JoinKeepsNames(a, b);
      ElementsOfSum(Names(a), Names(b));
      ElementsOfThree(Expand(front), Names(a) + Names(b), Expand(back));
      ElementsOfThree(Expand(front), Names(a'), Expand(back));
    }
  }

  lemma ElementsOfThree(s: seq<string>, t: seq<string>, u: seq<string>)
    ensures Elements(s + t + u) == Elements(s) + Elements(t) + Elements(u)
  {
    ElementsOfSum(s, t);
    ElementsOfSum(s + t, u);
  }

  // Without a join only widths may change.
  lemma SkipStep(front: seq<Range>, a: Range, b: Range, back: seq<Range>, a': Range, b': Range)
    requires AllSound(front) && Sound(a) && Sound(b) && AllSound(back) && (a', b') == Compared(a, b)
    ensures AllSound(front + [a, b] + back) && AllSound(front + [a', b'] + back)
    ensures Expand(front + [a', b'] + back) == Expand(front + [a, b] + back)
  {
    CmpKeepsNames(a, b);
    ExpandPair(front, a, b, back);
    ExpandPair(front, a', b', back);
  }

  // ----- with a common width per prefix ---------------------------------------------------

  // No two neighbours among the first n touch.
  ghost predicate ApartTo(hr: seq<Range>, n: nat) {
    forall k | 0 < k < n && k < |hr| :: !Touches(hr[k - 1], hr[k])
  }

  lemma JoinApart(front: seq<Range>, a: Range, b: Range, back: seq<Range>, a': Range, w: string -> nat)
    requires AllSmall(front) && Small(a) && Small(b) && AllSmall(back)
    requires KeyCmp(a, b) <= 0 && Joins(a, b) && a' == Joined(a, b).0
    requires Uniform(front + [a, b] + back, w) && ApartTo(front + [a, b] + back, |front| + 1)
    ensures Uniform(front + [a'] + back, w) && ApartTo(front + [a'] + back, |front| + 1)
  {
    var s, t := front + [a, b] + back, front + [a'] + back;
    assert s[|front|] == a && s[|front| + 1] == b;
    ComparedFits(a, b, w);
    assert Fits(a', w);
    forall k | 0 <= k < |t| ensures Fits(t[k], w) {
      assert k > |front| ==> t[k] == s[k + 1];
      assert k < |front| ==> t[k] == s[k];
    }
    forall k | 0 < k < |front| + 1 && k < |t| ensures !Touches(t[k - 1], t[k]) {
      assert !Touches(s[k - 1], s[k]);
    }
  }

  lemma SkipApart(front: seq<Range>, a: Range, b: Range, back: seq<Range>, a': Range, b': Range, w: string -> nat)
    requires AllSmall(front) && Small(a) && Small(b) && AllSmall(back)
    requires !Joins(a, b) && (a', b') == Compared(a, b)
    requires Uniform(front + [a, b] + back, w) && ApartTo(front + [a, b] + back, |front| + 1)
    ensures Uniform(front + [a', b'] + back, w) && ApartTo(front + [a', b'] + back, |front| + 2)
  {
    var s, t := front + [a, b] + back, front + [a', b'] + back;
    assert s[|front|] == a && s[|front| + 1] == b;
    ComparedFits(a, b, w);
    if PrefixCmp(a, b) == 0 {
      FitsIsCompatible(a, b, w);
    }
    assert !Touches(a', b');
    forall k | 0 <= k < |t| ensures Fits(t[k], w) {
      assert k != |front| && k != |front| + 1 ==> t[k] == s[k];
    }
    forall k | 0 < k < |front| + 2 && k < |t| ensures !Touches(t[k - 1], t[k]) {
      assert k <= |front| ==> !Touches(s[k - 1], s[k]);
    }
  }

  // What a turn of the loop at i makes of the list.
  function Turned(hr: seq<Range>, i: nat): (r: seq<Range>)
    requires 0 < i < |hr|
    ensures |r| == if Joins(hr[i - 1], hr[i]) then |hr| - 1 else |hr|
  {
    var (a, b) := (hr[i - 1], hr[i]);
    if Joins(a, b) then hr[..i - 1] + [Joined(a, b).0] + hr[i + 1..]
    else hr[..i - 1] + [Compared(a, b).0, Compared(a, b).1] + hr[i + 1..]
  }

  // What its turns from i on do.
  function AllJoined(hr: seq<Range>, i: nat): seq<Range>
    requires 0 < i
    decreases 2 * |hr| - i
  {
    if i >= |hr| then hr
    else AllJoined(Turned(hr, i), if Joins(hr[i - 1], hr[i]) then i else i + 1)
  }

  // At every turn from i on the two ranges compare in order, as the code asserts
  // (hostlist.c:851).
  predicate AllAsserted(hr: seq<Range>, i: nat)
    requires 0 < i
    decreases 2 * |hr| - i
  {
    i < |hr| ==>
      && CmpValue(hr[i - 1], hr[i]) <= 0
      && AllAsserted(Turned(hr, i), if Joins(hr[i - 1], hr[i]) then i else i + 1)
  }

  // What hostlist_uniq leaves.
  function Uniqed(hr: seq<Range>, plan: seq<QStep>): seq<Range>
    requires Legal(plan, |hr|)
  {
    if |hr| <= 1 then hr else AllJoined(QSorted(hr, plan), 1)
  }

  // One turn keeps the hosts, but for duplicates.
  lemma TurnKeepsHosts(hr: seq<Range>, i: nat, dup: int)
    requires AllSound(hr) && 0 < i < |hr|
    requires Joins(hr[i - 1], hr[i]) ==>
      Sound(Joined(hr[i - 1], hr[i]).0) && Count(Joined(hr[i - 1], hr[i]).0) == Count(hr[i - 1]) + Count(hr[i]) - dup
    ensures AllSound(Turned(hr, i))
    ensures |Expand(Turned(hr, i))| == if Joins(hr[i - 1], hr[i]) then |Expand(hr)| - dup else |Expand(hr)|
    ensures KeyCmp(hr[i - 1], hr[i]) <= 0 ==> Elements(Expand(Turned(hr, i))) == Elements(Expand(hr))
  {
    var front, a, b, back := hr[..i - 1], hr[i - 1], hr[i], hr[i + 1..];
    assert hr == front + [a, b] + back;
    if Joins(a, b) {
      JoinStep(front, a, b, back, Joined(a, b).0);
    } else {
      var (a', b') := Compared(a, b);
      SkipStep(front, a, b, back, a', b');
    }
  }

  lemma TurnIsSmall(hr: seq<Range>, i: nat)
    requires AllSmall(hr) && KeySorted(hr) && 0 < i < |hr|
    ensures AllSmall(Turned(hr, i))
  {
    var a, b := hr[i - 1], hr[i];
    ComparedFits(a, b, p => 0);
    if Joins(a, b) {
      JoinKeepsNames(a, b);
    }
  }

  // And the order.
  lemma TurnKeepsOrder(hr: seq<Range>, i: nat)
    requires AllSmall(hr) && KeySorted(hr) && 0 < i < |hr|
    ensures AllSmall(Turned(hr, i)) && KeySorted(Turned(hr, i))
  {
    var front, a, b, back := hr[..i - 1], hr[i - 1], hr[i], hr[i + 1..];
    assert hr == front + [a, b] + back;
    TurnIsSmall(hr, i);
    if Joins(a, b) {
      JoinKeepsNames(a, b);
      KeySortedJoined(front, a, b, back, Joined(a, b).0);
    } else {
      CmpKeepsNames(a, b);
      KeySortedPair(front, a, b, back, Compared(a, b).0, Compared(a, b).1);
    }
  }

  lemma TurnKeeps(hr: seq<Range>, i: nat, hr': seq<Range>, w: string -> nat)
    requires AllSmall(hr) && KeySorted(hr) && 0 < i < |hr| && hr' == Turned(hr, i)
    ensures Uniform(hr, w) && ApartTo(hr, i) ==>
      Uniform(hr', w) && ApartTo(hr', if Joins(hr[i - 1], hr[i]) then i else i + 1)
  {
    var front, a, b, back := hr[..i - 1], hr[i - 1], hr[i], hr[i + 1..];
    assert hr == front + [a, b] + back;
    if Uniform(hr, w) && ApartTo(hr, i) {
      if Joins(a, b) {
        JoinApart(front, a, b, back, Joined(a, b).0, w);
      } else {
        SkipApart(front, a, b, back, Compared(a, b).0, Compared(a, b).1, w);
      }
    }
  }

  // So for all turns.
  lemma {:induction false} AllJoinedKeeps(hr: seq<Range>, i: nat, w: string -> nat)
    requires AllSmall(hr) && KeySorted(hr) && 0 < i
    ensures AllSmall(AllJoined(hr, i)) && KeySorted(AllJoined(hr, i))
    ensures Uniform(hr, w) && ApartTo(hr, i) ==> ApartTo(AllJoined(hr, i), |AllJoined(hr, i)|)
    decreases 2 * |hr| - i
  {
    if i < |hr| {
      var a, b := hr[i - 1], hr[i];
      TurnKeepsOrder(hr, i);
      TurnKeeps(hr, i, Turned(hr, i), w);
      AllJoinedKeeps(Turned(hr, i), if Joins(a, b) then i else i + 1, w);
    }
  }

  lemma {:induction false} SmallIsAsserted(hr: seq<Range>, i: nat)
    requires AllSmall(hr) && KeySorted(hr) && 0 < i
    ensures AllAsserted(hr, i)
    decreases 2 * |hr| - i
  {
    if i < |hr| {
      CmpIsKey(hr[i - 1], hr[i]);
      TurnKeepsOrder(hr, i);
      SmallIsAsserted(Turned(hr, i), if Joins(hr[i - 1], hr[i]) then i else i + 1);
    }
  }

  lemma {:induction false} AllJoinedKeepsNames(hr: seq<Range>, i: nat)
    requires AllSmall(hr) && AllSound(hr) && KeySorted(hr) && 0 < i
    ensures AllSound(AllJoined(hr, i)) && Elements(Expand(AllJoined(hr, i))) == Elements(Expand(hr))
    decreases 2 * |hr| - i
  {
    if i < |hr| {
      var a, b := hr[i - 1], hr[i];
      if Joins(a, b) {
        JoinKeepsNames(a, b);
      }
      var dup := if Joins(a, b) then Count(a) + Count(b) - Count(Joined(a, b).0) else 0;
      TurnKeepsHosts(hr, i, dup);
      TurnKeepsOrder(hr, i);
      AllJoinedKeepsNames(Turned(hr, i), if Joins(a, b) then i else i + 1);
    }
  }

  // ----- what is left -------------------------------------------------------------------------

  // Of two ranges of a prefix the later starts beyond the number after the end of
  // the earlier; no host without a number is there twice.
  ghost predicate Separate(hr: seq<Range>) {
    forall i, j | 0 <= i < j < |hr| && hr[i].prefix == hr[j].prefix && hr[i].single == hr[j].single ::
      !hr[i].single && hr[i].hi + 1 < hr[j].lo
  }

  lemma {:induction false} KeySortedFar(hr: seq<Range>, i: nat, j: nat)
    requires KeySorted(hr) && i <= j < |hr|
    ensures KeyCmp(hr[i], hr[j]) <= 0
    decreases j - i
  {
    if i < j {
      KeySortedFar(hr, i, j - 1);
      KeyIsOrder(hr[i], hr[j - 1], hr[j]);
    } else {
      KeyIsOrder(hr[i], hr[i], hr[i]);
    }
  }

  // Between two ranges of a prefix there are only ranges of that prefix.
  lemma PrefixIsContiguous(a: Range, b: Range, c: Range)
    requires KeyCmp(a, b) <= 0 && KeyCmp(b, c) <= 0 && a.prefix == c.prefix && a.single == c.single
    ensures b.prefix == a.prefix && b.single == a.single
  {
    StrCmpIsOrder(a.prefix, b.prefix, c.prefix);
    StrCmpIsOrder(b.prefix, c.prefix, a.prefix);
    StrCmpIsEqual(a.prefix, b.prefix);
    StrCmpIsEqual(b.prefix, c.prefix);
    StrCmpIsEqual(a.prefix, c.prefix);
  }

  lemma {:induction false} ApartIsSeparate(hr: seq<Range>, i: nat, j: nat)
    requires KeySorted(hr) && AllSound(hr) && ApartTo(hr, |hr|) && i < j < |hr|
    requires hr[i].prefix == hr[j].prefix && hr[i].single == hr[j].single
    ensures !hr[i].single && hr[i].hi + 1 < hr[j].lo
    decreases j - i
  {
    StrCmpIsEqual(hr[j - 1].prefix, hr[j].prefix);
    if j - 1 > i {
      KeySortedFar(hr, i, j - 1);
      PrefixIsContiguous(hr[i], hr[j - 1], hr[j]);
      ApartIsSeparate(hr, i, j - 1);
    }
    assert !Touches(hr[j - 1], hr[j]);
  }

  lemma ApartIsSeparateAll(hr: seq<Range>)
    requires KeySorted(hr) && AllSound(hr) && ApartTo(hr, |hr|)
    ensures Separate(hr)
  {
    forall i, j | 0 <= i < j < |hr| && hr[i].prefix == hr[j].prefix && hr[i].single == hr[j].single
      ensures !hr[i].single && hr[i].hi + 1 < hr[j].lo
    {
      ApartIsSeparate(hr, i, j);
    }
  }

  // ----- and so the names differ --------------------------------------------------------------

  // The two ranges stand for a host in common.
  ghost predicate Shares(a: Range, b: Range)
    requires Sound(a) && Sound(b)
  {
    exists name :: name in Names(a) && name in Names(b)
  }

  predicate SameKind(a: Range, b: Range) {
    a.prefix == b.prefix && a.single == b.single
  }

  // Ranges of different prefixes, or with and without numbers, have no host in common.
  ghost predicate OwnNames(hr: seq<Range>)
    requires AllSound(hr)
  {
    forall i, j {:trigger Shares(hr[i], hr[j])} |
      0 <= i < |hr| && 0 <= j < |hr| && Shares(hr[i], hr[j]) :: SameKind(hr[i], hr[j])
  }

  lemma SharedNumber(a: Range, b: Range, name: string)
    requires Sound(a) && Sound(b) && !a.single && !b.single && a.prefix == b.prefix
    requires name in Names(a) && name in Names(b)
    ensures a.lo <= b.hi && b.lo <= a.hi
  {
    var k :| 0 <= k < Count(a) && Names(a)[k] == name;
    var m :| 0 <= m < Count(b) && Names(b)[m] == name;
    SameNumber(a, k, b, m);
  }

  lemma NamesAreDistinct(r: Range)
    requires Sound(r)
    ensures Distinct(Names(r))
  {
    forall a, b | 0 <= a < b < |Names(r)| ensures Names(r)[a] != Names(r)[b] {
      if Names(r)[a] == Names(r)[b] {
        SameNumber(r, a, r, b);
      }
    }
  }

  lemma {:induction false} InExpansion(hr: seq<Range>, name: string) returns (j: nat, m: nat)
    requires AllSound(hr) && name in Expand(hr)
    ensures j < |hr| && m < Count(hr[j]) && Names(hr[j])[m] == name
  {
    if name in Names(hr[0]) {
      j := 0;
      m :| 0 <= m < Count(hr[0]) && Names(hr[0])[m] == name;
    } else {
      j, m := InExpansion(hr[1..], name);
      j := j + 1;
    }
  }

  lemma DistinctSum(s: seq<string>, t: seq<string>)
    requires Distinct(s) && Distinct(t) && forall k | 0 <= k < |s| :: s[k] !in t
    ensures Distinct(s + t)
  {
  }

  ghost predicate NoneShares(hr: seq<Range>)
    requires AllSound(hr)
  {
    forall i, j {:trigger Shares(hr[i], hr[j])} | 0 <= i < j < |hr| :: !Shares(hr[i], hr[j])
  }

  lemma SharesWithLater(hr: seq<Range>, name: string)
    requires AllSound(hr) && hr != [] && name in Names(hr[0]) && name in Expand(hr[1..])
    ensures exists j :: 0 < j < |hr| && Shares(hr[0], hr[j])
  {
    var j, m := InExpansion(hr[1..], name);
    assert name in Names(hr[j + 1]);
    assert Shares(hr[0], hr[j + 1]);
  }

  lemma {:induction false} NoneSharesIsDistinct(hr: seq<Range>)
    requires AllSound(hr) && NoneShares(hr)
    ensures Distinct(Expand(hr))
    decreases |hr|
  {
    if hr != [] {
      var r, rest := hr[0], hr[1..];
      assert forall k | 0 <= k < |rest| :: rest[k] == hr[k + 1];
      NoneSharesIsDistinct(rest);
      NamesAreDistinct(r);
      forall k | 0 <= k < |Names(r)| ensures Names(r)[k] !in Expand(rest) {
        if Names(r)[k] in Expand(rest) {
          SharesWithLater(hr, Names(r)[k]);
        }
      }
      DistinctSum(Names(r), Expand(rest));
    }
  }

  lemma SeparateIsDistinct(hr: seq<Range>)
    requires AllSound(hr) && Separate(hr) && OwnNames(hr)
    ensures Distinct(Expand(hr))
  {
    forall i, j | 0 <= i < j < |hr| ensures !Shares(hr[i], hr[j]) {
      if name :| name in Names(hr[i]) && name in Names(hr[j]) {
        assert Shares(hr[i], hr[j]);
        assert SameKind(hr[i], hr[j]);
        SharedNumber(hr[i], hr[j], name);
      }
    }
    NoneSharesIsDistinct(hr);
  }

  // ----- prefixes that do not end in digits ---------------------------------------------------

  ghost predicate DigitFree(hr: seq<Range>) {
    forall k | 0 <= k < |hr| :: !EndsInDigit(hr[k].prefix)
  }

  lemma NameTells(r: Range, k: nat)
    requires Sound(r) && k < Count(r) && !EndsInDigit(r.prefix)
    ensures var name := Names(r)[k]; var n := PrefixLength(name);
      name[..n] == r.prefix && (r.single <==> n == |name|)
  {
    var digits := if r.single then "" else Pad(r.lo + k, r.width);
    var name := Names(r)[k];
    assert name == r.prefix + digits;
    PrefixLengthOfSum(r.prefix, digits);
    assert name[..|r.prefix|] == r.prefix && name[|r.prefix|..] == digits;
  }

  lemma SharedHost(a: Range, b: Range, name: string)
    requires Sound(a) && Sound(b) && !EndsInDigit(a.prefix) && !EndsInDigit(b.prefix)
    requires name in Names(a) && name in Names(b)
    ensures SameKind(a, b)
  {
    var k :| 0 <= k < Count(a) && Names(a)[k] == name;
    var m :| 0 <= m < Count(b) && Names(b)[m] == name;
    NameTells(a, k);
    NameTells(b, m);
  }

  // They are where a name splits, so every name is that of one kind of range.
  lemma DigitFreeIsOwn(hr: seq<Range>)
    requires AllSound(hr) && DigitFree(hr)
    ensures OwnNames(hr)
  {
    forall i, j | 0 <= i < |hr| && 0 <= j < |hr| && Shares(hr[i], hr[j]) ensures SameKind(hr[i], hr[j]) {
      var name :| name in Names(hr[i]) && name in Names(hr[j]);
      SharedHost(hr[i], hr[j], name);
    }
  }

  // ----- what hostlist_uniq leaves --------------------------------------------------------------

  lemma UniqedIsSound(hr: seq<Range>, plan: seq<QStep>)
    requires AllSmall(hr) && Legal(plan, |hr|) && InOrder(QSorted(hr, plan))
    ensures AllSmall(Uniqed(hr, plan)) && KeySorted(Uniqed(hr, plan))
  {
    if |hr| > 1 {
      var w: string -> nat := p => 0;
      QSortKeeps(hr, plan, w);
      InOrderIsKeySorted(QSorted(hr, plan));
      AllJoinedKeeps(QSorted(hr, plan), 1, w);
    }
  }

  lemma UniqedIsSeparate(hr: seq<Range>, plan: seq<QStep>, w: string -> nat)
    requires AllSmall(hr) && Legal(plan, |hr|) && InOrder(QSorted(hr, plan)) && Uniform(hr, w)
    ensures Separate(Uniqed(hr, plan))
  {
    UniqedIsSound(hr, plan);
    if |hr| > 1 {
      QSortKeeps(hr, plan, w);
      InOrderIsKeySorted(QSorted(hr, plan));
      AllJoinedKeeps(QSorted(hr, plan), 1, w);
      ApartIsSeparateAll(Uniqed(hr, plan));
    }
  }

  lemma UniqKeepsNames(hr: seq<Range>, plan: seq<QStep>)
    requires AllSmall(hr) && AllSound(hr) && Legal(plan, |hr|) && InOrder(QSorted(hr, plan))
    ensures AllSound(Uniqed(hr, plan)) && Elements(Expand(Uniqed(hr, plan))) == Elements(Expand(hr))
  {
    if |hr| > 1 {
      var sorted := QSorted(hr, plan);
      QSortKeeps(hr, plan, p => 0);
      SameCensus(Expand(sorted), Expand(hr));
      InOrderIsKeySorted(sorted);
      AllJoinedKeepsNames(sorted, 1);
    }
  }

  // f2147483648 and f0 compare in order, and joining them loses f0.
  const WRAPPED: seq<Range> := [Range("f", INT_RANGE, INT_RANGE, 10, false), Range("f", 0, 0, 1, false)]

  lemma WrappedJoins()
    ensures CmpValue(WRAPPED[0], WRAPPED[1]) <= 0 && Joins(WRAPPED[0], WRAPPED[1])
    ensures KeyCmp(WRAPPED[0], WRAPPED[1]) > 0
  {
    assert NumDigits(INT_RANGE) == 10;
    StrCmpIsEqual("f", "f");
  }

  lemma UniqLosesNames()
    ensures AllSound(WRAPPED) && Legal([], |WRAPPED|) && InOrder(QSorted(WRAPPED, []))
    ensures AllSound(Uniqed(WRAPPED, []))
    ensures "f0" in Expand(WRAPPED) && "f0" !in Expand(Uniqed(WRAPPED, []))
  {
    var a, b := WRAPPED[0], WRAPPED[1];
    var joined := Joined(a, b).0;
    WrappedJoins();
    LowIsLost(a, b);
    assert Turned(WRAPPED, 1) == [joined];
    assert Uniqed(WRAPPED, []) == AllJoined([joined], 1) == [joined];
    ExpandOfOne(joined);
    ExpandPair([], a, b, []);
    assert [] + [a, b] + [] == WRAPPED;
    assert Names(b)[0] == "f" + Pad(0, 1) == "f0";
  }

  predicate AllBelow(hr: seq<Range>, bound: nat) {
    forall k | 0 <= k < |hr| :: Sound(hr[k]) && hr[k].lo < bound && hr[k].width < INT_RANGE
  }

  // Whatever qsort leaves in order, the names stay.
  ghost predicate KeepsNamesBelow(bound: nat) {
    forall hr, plan | AllSound(hr) && AllBelow(hr, bound) && Legal(plan, |hr|) && InOrder(QSorted(hr, plan)) ::
      AllSound(Uniqed(hr, plan)) && Elements(Expand(Uniqed(hr, plan))) == Elements(Expand(hr))
  }

  // hostlist_uniq keeps the names of all lists with numbers below a bound if and only if
  // the bound is at most 2^31.
  lemma UniqIsExactBelow(bound: nat)
    requires bound <= ULONG_MAX
    ensures KeepsNamesBelow(bound) <==> bound <= INT_RANGE
  {
    if bound <= INT_RANGE {
      forall hr, plan | AllSound(hr) && AllBelow(hr, bound) && Legal(plan, |hr|) && InOrder(QSorted(hr, plan))
        ensures AllSound(Uniqed(hr, plan)) && Elements(Expand(Uniqed(hr, plan))) == Elements(Expand(hr))
      {
        UniqKeepsNames(hr, plan);
      }
    } else {
      UniqLosesNames();
      assert AllBelow(WRAPPED, bound);
      assert "f0" in Elements(Expand(WRAPPED)) && "f0" !in Elements(Expand(Uniqed(WRAPPED, [])));
    }
  }

  // ----- there is such a qsort ------------------------------------------------------------------

  // The first i ranges are in their final places.
  ghost predicate Selected(hr: seq<Range>, i: nat) {
    forall j, k | 0 <= j < i && j < k < |hr| :: KeyCmp(hr[j], hr[k]) <= 0
  }

  lemma {:induction false} LeastFrom(hr: seq<Range>, i: nat) returns (m: nat)
    requires i < |hr|
    ensures i <= m < |hr| && forall k | i <= k < |hr| :: KeyCmp(hr[m], hr[k]) <= 0
    decreases |hr| - i
  {
    m := i;
    KeyIsOrder(hr[i], hr[i], hr[i]);
    if i + 1 < |hr| {
      var rest := LeastFrom(hr, i + 1);
      KeyIsOrder(hr[i], hr[rest], hr[i]);
      if KeyCmp(hr[rest], hr[i]) <= 0 {
        m := rest;
      } else {
        forall k | i < k < |hr| ensures KeyCmp(hr[i], hr[k]) <= 0 {
          KeyIsOrder(hr[i], hr[rest], hr[k]);
          KeyIsOrder(hr[rest], hr[i], hr[i]);
        }
      }
    }
  }

  lemma {:induction false} SelectionPlan(hr: seq<Range>, i: nat) returns (plan: seq<QStep>)
    requires Selected(hr, i) && i <= |hr|
    ensures Legal(plan, |hr|) && KeySorted(QSorted(hr, plan))
    decreases |hr| - i
  {
    plan := [];
    if i < |hr| {
      var m := LeastFrom(hr, i);
      var next := QStepped(hr, Swap(i, m));
      assert Selected(next, i + 1);
      var rest := SelectionPlan(next, i + 1);
      plan := [Swap(i, m)] + rest;
      assert plan[1..] == rest;
    }
  }

  // For every list there are comparisons and swaps that leave it in order, so a qsort
  // that does what libc promises exists.
  lemma SomePlanSorts(hr: seq<Range>)
    requires AllSmall(hr)
    ensures exists plan :: Legal(plan, |hr|) && InOrder(QSorted(hr, plan))
  {
    var plan := SelectionPlan(hr, 0);
    QSortKeeps(hr, plan, p => 0);
    var sorted := QSorted(hr, plan);
    forall k | 0 < k < |sorted| ensures CmpValue(sorted[k - 1], sorted[k]) <= 0 {
      CmpIsKey(sorted[k - 1], sorted[k]);
    }
    assert InOrder(sorted);
  }
}
