// Splitting the overlapping ranges of a sorted list, as hostlist_sort does.

module HostCoalesce {
  import opened Seqs
  import opened HostNames
  import opened HostRange
  import opened HostSpec

  // ----- order by number ------------------------------------------------------------

  // With a common width per prefix the comparison goes by the numbers alone.
  predicate LowLeq(a: Range, b: Range) {
    PrefixCmp(a, b) < 0 || (PrefixCmp(a, b) == 0 && a.lo <= b.lo)
  }

  lemma FitsComparesLows(a: Range, b: Range, w: string -> nat)
    requires Sound(a) && Sound(b) && Fits(a, w) && Fits(b, w)
    ensures KeyCmp(a, b) <= 0 <==> LowLeq(a, b)
  {
    if PrefixCmp(a, b) == 0 {
      StrCmpIsEqual(a.prefix, b.prefix);
      if a.lo <= b.lo {
        MoreDigits(a.lo, b.lo);
      } else {
        MoreDigits(b.lo, a.lo);
      }
    }
  }

  ghost predicate LowSorted(hr: seq<Range>) {
    forall k | 0 < k < |hr| :: LowLeq(hr[k - 1], hr[k])
  }

  lemma LowSortedSum(s: seq<Range>, t: seq<Range>)
    requires LowSorted(s) && LowSorted(t)
    requires s != [] && t != [] ==> LowLeq(s[|s| - 1], t[0])
    ensures LowSorted(s + t)
  {
    var r := s + t;
    forall k | 0 < k < |r| ensures LowLeq(r[k - 1], r[k]) {
      if k > |s| {
        assert r[k - 1] == t[k - 1 - |s|] && r[k] == t[k - |s|];
      }
    }
  }

  lemma LowSortedParts(s: seq<Range>, t: seq<Range>)
    requires LowSorted(s + t)
    ensures LowSorted(s) && LowSorted(t)
    ensures s != [] && t != [] ==> LowLeq(s[|s| - 1], t[0])
  {
    var r := s + t;
    forall k | 0 < k < |s| ensures LowLeq(s[k - 1], s[k]) {
      assert s[k - 1] == r[k - 1] && s[k] == r[k];
    }
    forall k | 0 < k < |t| ensures LowLeq(t[k - 1], t[k]) {
      assert t[k - 1] == r[|s| + k - 1] && t[k] == r[|s| + k];
    }
    if s != [] && t != [] {
      assert LowLeq(r[|s| - 1], r[|s|]);
    }
  }

  // Two ranges of a prefix have more than one number in common, or one that is not
  // the start of the second.
  predicate Crosses(a: Range, b: Range) {
    !a.single && !b.single && PrefixCmp(a, b) == 0 && a.hi > b.lo
  }

  // No neighbours from n on cross.
  ghost predicate CalmFrom(hr: seq<Range>, n: nat) {
    forall k | n <= k < |hr| && k > 0 :: !Crosses(hr[k - 1], hr[k])
  }

  // ----- what a split makes of two crossing ranges -------------------------------------

  function One(r: Range, n: nat): Range {
    Range(r.prefix, n, n, r.width, false)
  }

  function Placed(r: Range, c: nat, n: nat): seq<Range> {
    if n > c then [One(r, n)] else []
  }

  function Kept(r: Range, e: nat, n: nat): seq<Range> {
    if n < e then [One(r, n)] else []
  }

  // The single numbers that are put between the two ranges: those from c up to, but
  // not including, x; all but c once, and all but e once more.
  function Between(r: Range, c: nat, e: nat, x: nat): (s: seq<Range>)
    requires c <= x <= e + 1
  {
    if x == c then [] else Between(r, c, e, x - 1) + Placed(r, c, x - 1) + Kept(r, e, x - 1)
  }

  // a and b after hostlist_coalesce has cut them at the ends of their intersection.
  function Cut(a: Range, b: Range): (Range, Range) {
    var (a1, b1) := Compared(a, b);
    (a1.(hi := b.lo), b1.(lo := Min(a.hi, b.hi), hi := Max(a.hi, b.hi)))
  }

  function Split(a: Range, b: Range): seq<Range>
    requires Crosses(a, b) && Sound(a) && Sound(b)
  {
    var (p, q) := Cut(a, b);
    [p] + Between(p, b.lo, Min(a.hi, b.hi), Min(a.hi, b.hi) + 1) + [q]
  }

  // ----- the names stay ------------------------------------------------------------------

  lemma {:induction false} BetweenIsSound(r: Range, c: nat, e: nat, x: nat)
    requires c <= x <= e + 1 && e < ULONG_MAX
    ensures AllSound(Between(r, c, e, x))
    decreases x
  {
    if x > c {
      BetweenIsSound(r, c, e, x - 1);
    }
  }

  lemma OneName(r: Range, n: nat)
    requires n < ULONG_MAX
    ensures AllSound([One(r, n)]) && Expand([One(r, n)]) == Span(r.prefix, r.width, n, n + 1)
  {
    ExpandOfOne(One(r, n));
  }

  lemma BetweenSpans(r: Range, c: nat, e: nat, n: nat)
    requires c <= n <= e < ULONG_MAX
    ensures AllSound(Placed(r, c, n)) && AllSound(Kept(r, e, n))
    ensures Span(r.prefix, r.width, Min(c + 1, n + 1), n + 1) ==
      Span(r.prefix, r.width, Min(c + 1, n), n) + Expand(Placed(r, c, n))
    ensures Span(r.prefix, r.width, c, Min(n + 1, e)) == Span(r.prefix, r.width, c, Min(n, e)) + Expand(Kept(r, e, n))
  {
    OneName(r, n);
    if n > c {
      SpanSplits(r.prefix, r.width, c + 1, n, n + 1);
    }
    if n < e {
      SpanSplits(r.prefix, r.width, c, n, n + 1);
    }
  }

  lemma CensusStep(x: seq<string>, p: seq<string>, k: seq<string>, a: seq<string>, b: seq<string>)
    requires multiset(x) == multiset(a) + multiset(b)
    ensures multiset(x + p + k) == multiset(a + p) + multiset(b + k)
  {
  }

  lemma {:induction false} BetweenNames(r: Range, c: nat, e: nat, x: nat, lows: seq<string>, highs: seq<string>)
    requires c <= x <= e + 1 && c <= e < ULONG_MAX && AllSound(Between(r, c, e, x))
    requires lows == Span(r.prefix, r.width, Min(c + 1, x), x) && highs == Span(r.prefix, r.width, c, Min(x, e))
    ensures multiset(Expand(Between(r, c, e, x))) == multiset(lows) + multiset(highs)
    decreases x
  {
    if x == c {
      assert lows == [] && highs == [];
    } else {
      var n := x - 1;
      var before, placed, kept := Between(r, c, e, n), Placed(r, c, n), Kept(r, e, n);
      BetweenIsSound(r, c, e, n);
      var lows', highs' := Span(r.prefix, r.width, Min(c + 1, n), n), Span(r.prefix, r.width, c, Min(n, e));
      BetweenNames(r, c, e, n, lows', highs');
      BetweenSpans(r, c, e, n);
      BetweenUnfolds(r, c, e, n, x);
      ExpandOfTwo(before, placed, kept, Between(r, c, e, x));
      CensusStep(Expand(before), Expand(placed), Expand(kept), lows', highs');
    }
  }

  lemma ExpandOfTwo(s: seq<Range>, t: seq<Range>, u: seq<Range>, all: seq<Range>)
    requires AllSound(s) && AllSound(t) && AllSound(u) && all == s + t + u
    ensures AllSound(all) && Expand(all) == Expand(s) + Expand(t) + Expand(u)
  {
    ExpandOfSum(s, t);
    ExpandOfSum(s + t, u);
  }

  // Two spans are cut at the ends of their intersection.
  lemma CutSpans(prefix: string, w: nat, a: nat, b: nat, c: nat, d: nat, e: nat, m: nat,
      first: seq<string>, second: seq<string>, low: seq<string>, lows: seq<string>, highs: seq<string>,
      high: seq<string>)
    requires a <= c < b && c <= d && e == Min(b, d) && m == Max(b, d)
    requires first == Span(prefix, w, a, b + 1) && second == Span(prefix, w, c, d + 1)
    requires low == Span(prefix, w, a, c + 1) && lows == Span(prefix, w, c + 1, e + 1)
    requires highs == Span(prefix, w, c, e) && high == Span(prefix, w, e, m + 1)
    ensures multiset(first) + multiset(second) == multiset(low) + multiset(lows) + multiset(highs) + multiset(high)
  {
    SpanSplits(prefix, w, a, c + 1, b + 1);
    if b <= d {
      SpanSplits(prefix, w, c, b, d + 1);
      Regroup(first, second, high, low, lows, [], highs, high);
    } else {
      var last, rest := Span(prefix, w, d, d + 1), Span(prefix, w, d + 1, b + 1);
      SpanSplits(prefix, w, c + 1, d + 1, b + 1);
      SpanSplits(prefix, w, d, d + 1, b + 1);
      SpanSplits(prefix, w, c, d, d + 1);
      Regroup(first, second, high, low, lows, rest, highs, last);
    }
  }

  lemma Regroup(first: seq<string>, second: seq<string>, high: seq<string>,
      x: seq<string>, y: seq<string>, z: seq<string>, u: seq<string>, v: seq<string>)
    requires first == x + (y + z) && second == u + v && high == v + z
    ensures multiset(first) + multiset(second) == multiset(x) + multiset(y) + multiset(u) + multiset(high)
  {
  }

  lemma BetweenUnfolds(r: Range, c: nat, e: nat, n: nat, x: nat)
    requires c <= n <= e && x == n + 1
    ensures Between(r, c, e, x) == Between(r, c, e, n) + Placed(r, c, n) + Kept(r, e, n)
  {
  }

  lemma CutIsSound(a: Range, b: Range)
    requires Sound(a) && Sound(b) && Crosses(a, b) && LowLeq(a, b)
    ensures var (p, q) := Cut(a, b); Sound(p) && Sound(q) && p.prefix == q.prefix == a.prefix == b.prefix
  {
    StrCmpIsEqual(a.prefix, b.prefix);
  }

  lemma SplitNames(a: Range, b: Range)
    requires Sound(a) && Sound(b) && Crosses(a, b) && LowLeq(a, b)
    requires Compatible(a.lo, a.width, b.lo, b.width)
    ensures AllSound(Split(a, b)) && multiset(Expand(Split(a, b))) == multiset(Names(a)) + multiset(Names(b))
  {
    CutIsSound(a, b);
    CmpKeepsNames(a, b);
    var (p, q) := Cut(a, b);
    assert p.width == q.width;
    SplitOf(p, q, Names(a), Names(b), a.hi, b.hi, Split(a, b));
  }

  lemma ExpandOfEnds(p: Range, between: seq<Range>, q: Range, split: seq<Range>)
    requires Sound(p) && Sound(q) && AllSound(between) && split == [p] + between + [q]
    ensures AllSound(split) && Expand(split) == Names(p) + Expand(between) + Names(q)
  {
    ExpandOfOne(p);
    ExpandOfOne(q);
    ExpandOfTwo([p], between, [q], split);
  }

  lemma SplitOf(p: Range, q: Range, first: seq<string>, second: seq<string>, b: nat, d: nat, split: seq<Range>)
    requires Sound(p) && Sound(q) && !p.single && !q.single && p.prefix == q.prefix && p.width == q.width
    requires p.hi < b < ULONG_MAX && p.hi <= d < ULONG_MAX && q.lo == Min(b, d) && q.hi == Max(b, d)
    requires first == Span(p.prefix, p.width, p.lo, b + 1) && second == Span(p.prefix, p.width, p.hi, d + 1)
    requires split == [p] + Between(p, p.hi, q.lo, q.lo + 1) + [q]
    ensures AllSound(split) && multiset(Expand(split)) == multiset(first) + multiset(second)
  {
    var between := Between(p, p.hi, q.lo, q.lo + 1);
    BetweenIsSound(p, p.hi, q.lo, q.lo + 1);
    ExpandOfEnds(p, between, q, split);
    var lows, highs := CutNames(p, q, first, second, b, d);
    CensusOfSplit(Names(p), Expand(between), Names(q), lows, highs, first, second);
  }

  lemma CutNames(p: Range, q: Range, first: seq<string>, second: seq<string>, b: nat, d: nat)
    returns (lows: seq<string>, highs: seq<string>)
    requires Sound(p) && Sound(q) && !p.single && !q.single && p.prefix == q.prefix && p.width == q.width
    requires p.hi < b < ULONG_MAX && p.hi <= d < ULONG_MAX && q.lo == Min(b, d) && q.hi == Max(b, d)
    requires first == Span(p.prefix, p.width, p.lo, b + 1) && second == Span(p.prefix, p.width, p.hi, d + 1)
    requires AllSound(Between(p, p.hi, q.lo, q.lo + 1))
    ensures multiset(Expand(Between(p, p.hi, q.lo, q.lo + 1))) == multiset(lows) + multiset(highs)
    ensures multiset(first) + multiset(second) ==
      multiset(Names(p)) + multiset(lows) + multiset(highs) + multiset(Names(q))
  {
    var c, e := p.hi, q.lo;
    lows, highs := Span(p.prefix, p.width, c + 1, e + 1), Span(p.prefix, p.width, c, e);
    BetweenNames(p, c, e, e + 1, lows, highs);
    CutSpans(p.prefix, p.width, p.lo, b, c, d, e, q.hi, first, second, Names(p), lows, highs, Names(q));
  }

  lemma CensusOfSplit(low: seq<string>, mid: seq<string>, high: seq<string>, lows: seq<string>, highs: seq<string>,
      first: seq<string>, second: seq<string>)
    requires multiset(mid) == multiset(lows) + multiset(highs)
    requires multiset(first) + multiset(second) == multiset(low) + multiset(lows) + multiset(highs) + multiset(high)
    ensures multiset(low + mid + high) == multiset(first) + multiset(second)
  {
  }

  // ----- and the order -----------------------------------------------------------------------

  lemma SamePrefixLeq(a: Range, b: Range)
    requires a.prefix == b.prefix && a.single == b.single
    ensures LowLeq(a, b) <==> a.lo <= b.lo
  {
    StrCmpIsEqual(a.prefix, b.prefix);
  }

  // A range of single numbers taken from p.
  predicate From(r: Range, p: Range, c: nat, x: nat) {
    r == One(p, r.lo) && c <= r.lo < x
  }

  lemma {:induction false} BetweenElements(p: Range, c: nat, e: nat, x: nat)
    requires c <= x <= e + 1
    ensures forall k | 0 <= k < |Between(p, c, e, x)| :: From(Between(p, c, e, x)[k], p, c, x)
    decreases x
  {
    if x > c {
      BetweenElements(p, c, e, x - 1);
      BetweenUnfolds(p, c, e, x - 1, x);
    }
  }

  lemma LowSortedOne(r: Range)
    ensures LowSorted([r])
  {
  }

  // One more number at the end of p and numbers taken from it.
  lemma LowSortedAdd(p: Range, s: seq<Range>, c: nat, n: nat, t: seq<Range>)
    requires !p.single && p.lo <= c <= n && LowSorted([p] + s)
    requires forall k | 0 <= k < |s| :: From(s[k], p, c, n + 1)
    requires t == [] || t == [One(p, n)]
    ensures LowSorted([p] + (s + t)) && forall k | 0 <= k < |s + t| :: From((s + t)[k], p, c, n + 1)
  {
    if t != [] {
      LowSortedOne(t[0]);
      SamePrefixLeq(([p] + s)[|s|], t[0]);
      LowSortedSum([p] + s, t);
    }
    Associative([p], s, t);
    assert s + [] == s;
  }

  lemma {:induction false} BetweenSorted(p: Range, c: nat, e: nat, x: nat)
    requires c <= x <= e + 1 && p.lo <= c && !p.single
    ensures LowSorted([p] + Between(p, c, e, x))
    decreases x
  {
    if x == c {
      LowSortedOne(p);
      assert [p] + [] == [p];
    } else {
      var n := x - 1;
      var before := Between(p, c, e, n);
      BetweenSorted(p, c, e, n);
      BetweenElements(p, c, e, n);
      BetweenUnfolds(p, c, e, n, x);
      LowSortedAdd(p, before, c, n, Placed(p, c, n));
      LowSortedAdd(p, before + Placed(p, c, n), c, n, Kept(p, e, n));
    }
  }

  lemma SplitSorted(p: Range, q: Range, split: seq<Range>)
    requires !p.single && !q.single && p.prefix == q.prefix && p.lo <= p.hi <= q.lo
    requires split == [p] + Between(p, p.hi, q.lo, q.lo + 1) + [q]
    ensures LowSorted(split)
  {
    var x := q.lo + 1;
    var s := [p] + Between(p, p.hi, q.lo, x);
    BetweenSorted(p, p.hi, q.lo, x);
    BetweenElements(p, p.hi, q.lo, x);
    LowSortedOne(q);
    SamePrefixLeq(s[|s| - 1], q);
    LowSortedSum(s, [q]);
  }

  // ----- one turn of hostlist_coalesce -----------------------------------------------------------

  predicate Bounded(r: Range) {
    Small(r) && r.hi < INT_RANGE
  }

  ghost predicate AllBounded(hr: seq<Range>) {
    forall k | 0 <= k < |hr| :: Bounded(hr[k])
  }

  lemma SplitIsBounded(a: Range, b: Range)
    requires Bounded(a) && Bounded(b) && Crosses(a, b) && LowLeq(a, b)
    ensures AllBounded(Split(a, b))
  {
    var (p, q) := Cut(a, b);
    var split := Split(a, b);
    CutIsSound(a, b);
    ComparedFits(a, b, p => 0);
    BetweenElements(p, b.lo, q.lo, q.lo + 1);
    forall k | 0 <= k < |split| ensures Bounded(split[k]) {
      if 0 < k < |split| - 1 {
        assert From(split[k], p, b.lo, q.lo + 1);
      }
    }
  }

  lemma SplitFits(a: Range, b: Range, w: string -> nat)
    requires Bounded(a) && Bounded(b) && Crosses(a, b) && LowLeq(a, b) && Fits(a, w) && Fits(b, w)
    ensures Uniform(Split(a, b), w)
  {
    var (p, q) := Cut(a, b);
    var split := Split(a, b);
    CutIsSound(a, b);
    ComparedFits(a, b, w);
    BetweenElements(p, b.lo, q.lo, q.lo + 1);
    SameAbove(b.lo, q.lo, q.width, w(q.prefix));
    forall k | 0 <= k < |split| ensures Fits(split[k], w) {
      if 0 < k < |split| - 1 {
        assert From(split[k], p, b.lo, q.lo + 1);
        SameAbove(a.lo, split[k].lo, p.width, w(p.prefix));
      }
    }
  }

  // What comes before the pair and after it still fits.
  lemma SplitIsSorted(front: seq<Range>, a: Range, b: Range, back: seq<Range>, split: seq<Range>)
    requires Sound(a) && Sound(b) && Crosses(a, b) && LowLeq(a, b) && split == Split(a, b)
    requires LowSorted(front + [a, b] + back) && CalmFrom(front + [a, b] + back, |front| + 2)
    requires AllSound(back)
    ensures LowSorted(front + split + back)
  {
    var (p, q) := Cut(a, b);
    CutIsSound(a, b);
    SplitSorted(p, q, split);
    LowSortedParts(front + [a, b], back);
    LowSortedParts(front, [a, b]);
    if front != [] {
      assert LowLeq(front[|front| - 1], a);
    }
    LowSortedSum(front, split);
    if back != [] {
      var all := front + [a, b] + back;
      assert all[|front| + 1] == b && all[|front| + 2] == back[0];
      assert LowLeq(b, back[0]) && !Crosses(b, back[0]);
      assert LowLeq(q, back[0]);
    }
    LowSortedSum(front + split, back);
  }

  // ----- why it ends -------------------------------------------------------------------------------

  function Length(r: Range): nat {
    if r.lo <= r.hi then r.hi - r.lo else 0
  }

  function Lengths(hr: seq<Range>): nat {
    if hr == [] then 0 else Length(hr[0]) + Lengths(hr[1..])
  }

  // Length counts the more the earlier it is in the list.
  function Weight(hr: seq<Range>): nat {
    if hr == [] then 0 else |hr| * Length(hr[0]) + Weight(hr[1..])
  }

  lemma {:induction false} LengthsOfSum(s: seq<Range>, t: seq<Range>)
    ensures Lengths(s + t) == Lengths(s) + Lengths(t)
  {
    if s == [] {
      assert s + t == t;
    } else {
      assert (s + t)[1..] == s[1..] + t;
      LengthsOfSum(s[1..], t);
    }
  }

  lemma {:induction false} BetweenHasNoLength(r: Range, c: nat, e: nat, x: nat)
    requires c <= x <= e + 1
    ensures Lengths(Between(r, c, e, x)) == 0
    decreases x
  {
    if x > c {
      BetweenHasNoLength(r, c, e, x - 1);
      BetweenUnfolds(r, c, e, x - 1, x);
      LengthsOfSum(Between(r, c, e, x - 1), Placed(r, c, x - 1));
      LengthsOfSum(Between(r, c, e, x - 1) + Placed(r, c, x - 1), Kept(r, e, x - 1));
    }
  }

  lemma LengthsOfPair(a: Range, b: Range)
    ensures Lengths([a, b]) == Length(a) + Length(b)
  {
    assert [a][1..] == [] && [b][1..] == [] && [a, b] == [a] + [b];
    LengthsOfSum([a], [b]);
  }

  // A cut takes away the length of the intersection twice.
  lemma CutLengths(a: Range, b: Range, p: Range, q: Range)
    requires Sound(a) && Sound(b) && Crosses(a, b) && LowLeq(a, b) && (p, q) == Cut(a, b)
    ensures Length(p) + Length(q) == Length(a) + Length(b) - 2 * (Min(a.hi, b.hi) - b.lo)
  {
    CutIsSound(a, b);
  }

  lemma SplitLengths(a: Range, b: Range)
    requires Sound(a) && Sound(b) && Crosses(a, b) && LowLeq(a, b)
    ensures Lengths(Split(a, b)) == Length(a) + Length(b) - 2 * (Min(a.hi, b.hi) - b.lo)
  {
    var (p, q) := Cut(a, b);
    CutLengths(a, b, p, q);
    LengthsOfSplit(p, q, b.lo, Min(a.hi, b.hi), Split(a, b));
  }

  lemma LengthsOfSplit(p: Range, q: Range, c: nat, e: nat, split: seq<Range>)
    requires c <= e && split == [p] + Between(p, c, e, e + 1) + [q]
    ensures Lengths(split) == Length(p) + Length(q)
  {
    BetweenHasNoLength(p, c, e, e + 1);
    LengthOfOne(p);
    LengthOfOne(q);
    LengthsAround([p], Between(p, c, e, e + 1), [q]);
  }

  lemma LengthOfOne(r: Range)
    ensures Lengths([r]) == Length(r)
  {
    assert [r][1..] == [];
  }

  lemma {:induction false} WeightOfPair(front: seq<Range>, a: Range, b: Range, back: seq<Range>, a': Range, b': Range)
    requires Length(a') + Length(b') == Length(a) + Length(b)
    ensures Weight(front + [a', b'] + back) + Length(b') == Weight(front + [a, b] + back) + Length(b)
    decreases |front|
  {
    var s, t := front + [a, b] + back, front + [a', b'] + back;
    if front == [] {
      assert s[1..] == [b] + back && t[1..] == [b'] + back;
      assert s[1..][1..] == back && t[1..][1..] == back;
      var n := |back| + 1;
      Distributes(n, Length(a), Length(b), Length(a'), Length(b'));
    } else {
      assert s[1..] == front[1..] + [a, b] + back && t[1..] == front[1..] + [a', b'] + back;
      WeightOfPair(front[1..], a, b, back, a', b');
    }
  }

  lemma Distributes(n: nat, a: nat, b: nat, a': nat, b': nat)
    requires a' + b' == a + b
    ensures (n + 1) * a' + n * b' + b' == (n + 1) * a + n * b + b
  {
    assert (n + 1) * a' + n * b' == n * (a' + b') + a';
    assert (n + 1) * a + n * b == n * (a + b) + a;
  }

  predicate Lighter(s: seq<Range>, t: seq<Range>) {
    Lengths(s) < Lengths(t) || (Lengths(s) == Lengths(t) && Weight(s) < Weight(t))
  }

  lemma LengthsAround(front: seq<Range>, mid: seq<Range>, back: seq<Range>)
    ensures Lengths(front + mid + back) == Lengths(front) + Lengths(mid) + Lengths(back)
  {
    LengthsOfSum(front, mid);
    LengthsOfSum(front + mid, back);
  }

  // A turn that splits makes the ranges shorter or moves length to the right.
  lemma SplitProgress(front: seq<Range>, a: Range, b: Range, back: seq<Range>, split: seq<Range>)
    requires Sound(a) && Sound(b) && Crosses(a, b) && LowLeq(a, b) && split == Split(a, b)
    ensures Lighter(front + split + back, front + [a, b] + back)
  {
    LengthsAround(front, [a, b], back);
    LengthsAround(front, split, back);
    LengthsOfPair(a, b);
    SplitLengths(a, b);
    if Min(a.hi, b.hi) == b.lo {
      var (p, q) := Cut(a, b);
      SplitAtOneEnd(a, b, p, q);
      WeightOfPair(front, a, b, back, p, q);
    }
  }

  lemma SplitAtOneEnd(a: Range, b: Range, p: Range, q: Range)
    requires Sound(a) && Sound(b) && Crosses(a, b) && LowLeq(a, b) && (p, q) == Cut(a, b) && Min(a.hi, b.hi) == b.lo
    ensures Split(a, b) == [p, q] && Length(p) + Length(q) == Length(a) + Length(b) && Length(q) > Length(b)
  {
    CutIsSound(a, b);
    BetweenIsEmpty(p, b.lo);
  }

  lemma BetweenIsEmpty(p: Range, c: nat)
    ensures Between(p, c, c, c + 1) == []
  {
    BetweenUnfolds(p, c, c, c, c + 1);
  }

  // A turn that does not changes widths only.
  lemma StayProgress(front: seq<Range>, a: Range, b: Range, back: seq<Range>, a': Range, b': Range)
    requires Length(a') == Length(a) && Length(b') == Length(b)
    ensures var (s, t) := (front + [a, b] + back, front + [a', b'] + back);
      Lengths(t) == Lengths(s) && Weight(t) == Weight(s)
  {
    LengthsAround(front, [a, b], back);
    LengthsAround(front, [a', b'], back);
    LengthsOfPair(a, b);
    LengthsOfPair(a', b');
    WeightOfPair(front, a, b, back, a', b');
  }

  // ----- one turn, for any widths ---------------------------------------------------------------------

  // What hostrange_intersect asserts of ranges with numbers (hostlist.c:889).
  predicate Asserted(a: Range, b: Range) {
    !a.single && !b.single ==> CmpValue(a, b) <= 0
  }

  lemma AssertedIsKey(a: Range, b: Range)
    requires Bounded(a) && Bounded(b) && Asserted(a, b)
    ensures Overlaps(a, b) ==> KeyCmp(a, b) <= 0
  {
    CmpIsKey(a, b);
  }

  lemma OverlapsCross(a: Range, b: Range)
    requires Overlaps(a, b) && KeyCmp(a, b) <= 0
    ensures Crosses(a, b) && LowLeq(a, b)
  {
    OrderOfLows(a, b);
  }

  // What a turn at i makes of the list.
  function Turned(hr: seq<Range>, i: nat): seq<Range>
    requires 0 < i < |hr| && Sound(hr[i - 1]) && Sound(hr[i])
    requires Overlaps(hr[i - 1], hr[i]) ==> KeyCmp(hr[i - 1], hr[i]) <= 0
  {
    var (a, b) := (hr[i - 1], hr[i]);
    if Overlaps(a, b) then
      OverlapsCross(a, b);
      hr[..i - 1] + Split(a, b) + hr[i + 1..]
    else if a.single || b.single then hr
    else hr[..i - 1] + [Compared(a, b).0, Compared(a, b).1] + hr[i + 1..]
  }

  // No neighbours from n on overlap.
  ghost predicate QuietFrom(hr: seq<Range>, n: nat) {
    forall k | n <= k < |hr| && k > 0 :: !Overlaps(hr[k - 1], hr[k])
  }

  predicate AsHeavy(s: seq<Range>, t: seq<Range>) {
    |s| == |t| && Lengths(s) == Lengths(t) && Weight(s) == Weight(t)
  }

  lemma OverlapsByKey(a: Range, b: Range, a': Range, b': Range)
    requires SameKey(a, a') && SameKey(b, b')
    ensures Overlaps(a, b) <==> Overlaps(a', b')
  {
    CompatibleByStart(a, b, a', b');
  }

  lemma BoundedParts(front: seq<Range>, mid: seq<Range>, back: seq<Range>)
    requires AllBounded(front) && AllBounded(mid) && AllBounded(back)
    ensures AllBounded(front + mid + back)
  {
    var s := front + mid + back;
    forall k | 0 <= k < |s| ensures Bounded(s[k]) {
      if k < |front| {
        assert s[k] == front[k];
      } else if k < |front| + |mid| {
        assert s[k] == mid[k - |front|];
      } else {
        assert s[k] == back[k - |front| - |mid|];
      }
    }
  }

  lemma BoundedCut(hr: seq<Range>, i: nat, front: seq<Range>, back: seq<Range>)
    requires AllBounded(hr) && 0 < i < |hr| && front == hr[..i - 1] && back == hr[i + 1..]
    ensures AllBounded(front) && AllBounded(back) && Bounded(hr[i - 1]) && Bounded(hr[i])
    ensures hr == front + [hr[i - 1], hr[i]] + back && AllSound(hr)
  {
  }

  // A split keeps all hosts and makes progress.
  lemma SplitKeepsHosts(front: seq<Range>, a: Range, b: Range, back: seq<Range>, split: seq<Range>)
    requires AllBounded(front) && AllBounded(back) && Bounded(a) && Bounded(b)
    requires Overlaps(a, b) && KeyCmp(a, b) <= 0 && Crosses(a, b) && split == Split(a, b)
    ensures AllSound(front + [a, b] + back) && AllSound(front + split + back)
    ensures AllBounded(front + split + back) && Lighter(front + split + back, front + [a, b] + back)
    ensures multiset(Expand(front + split + back)) == multiset(Expand(front + [a, b] + back))
  {
    OverlapsCross(a, b);
    SplitNames(a, b);
    SplitIsBounded(a, b);
    BoundedParts(front, split, back);
    ExpandOfPair(a, b);
    CensusAround(front, [a, b], split, back);
    SplitProgress(front, a, b, back, split);
  }

  // A turn that does not split changes widths only.
  lemma StayKeepsHosts(front: seq<Range>, a: Range, b: Range, back: seq<Range>, a': Range, b': Range)
    requires AllBounded(front) && AllBounded(back) && Bounded(a) && Bounded(b) && (a', b') == Compared(a, b)
    ensures AllSound(front + [a, b] + back) && AllSound(front + [a', b'] + back)
    ensures AllBounded(front + [a', b'] + back) && AsHeavy(front + [a', b'] + back, front + [a, b] + back)
    ensures multiset(Expand(front + [a', b'] + back)) == multiset(Expand(front + [a, b] + back))
  {
    CmpKeepsNames(a, b);
    ComparedFits(a, b, p => 0);
    BoundedParts(front, [a', b'], back);
    StayNames(front, a, b, back, a', b');
    StayProgress(front, a, b, back, a', b');
  }

  lemma StayIsQuiet(front: seq<Range>, a: Range, b: Range, back: seq<Range>, a': Range, b': Range)
    requires QuietFrom(front + [a, b] + back, |front| + 2) && !Overlaps(a, b) && SameKey(a, a') && SameKey(b, b')
    ensures QuietFrom(front + [a', b'] + back, |front| + 1)
  {
    var s, t, n := front + [a, b] + back, front + [a', b'] + back, |front|;
    assert s[n] == a && s[n + 1] == b && t[n] == a' && t[n + 1] == b';
    forall k | n + 1 <= k < |t| ensures !Overlaps(t[k - 1], t[k]) {
      if k <= n + 2 {
        OverlapsByKey(s[k - 1], s[k], t[k - 1], t[k]);
      }
      assert k > n + 1 ==> !Overlaps(s[k - 1], s[k]);
    }
  }

  // ----- the loop -------------------------------------------------------------------------------------

  ghost predicate Ready(hr: seq<Range>, w: string -> nat) {
    AllBounded(hr) && Uniform(hr, w) && LowSorted(hr)
  }

  lemma PairIsReady(hr: seq<Range>, i: nat, w: string -> nat)
    requires Ready(hr, w) && 0 < i < |hr|
    ensures LowLeq(hr[i - 1], hr[i]) && KeyCmp(hr[i - 1], hr[i]) <= 0
    ensures Overlaps(hr[i - 1], hr[i]) <==> Crosses(hr[i - 1], hr[i])
  {
    FitsComparesLows(hr[i - 1], hr[i], w);
    if PrefixCmp(hr[i - 1], hr[i]) == 0 {
      FitsIsCompatible(hr[i - 1], hr[i], w);
    }
  }

  lemma ReadyParts(front: seq<Range>, mid: seq<Range>, back: seq<Range>, w: string -> nat)
    requires AllBounded(front) && AllBounded(mid) && AllBounded(back)
    requires Uniform(front, w) && Uniform(mid, w) && Uniform(back, w) && LowSorted(front + mid + back)
    ensures Ready(front + mid + back, w)
  {
    var s := front + mid + back;
    forall k | 0 <= k < |s| ensures Bounded(s[k]) && Fits(s[k], w) {
      if k < |front| {
        assert s[k] == front[k];
      } else if k < |front| + |mid| {
        assert s[k] == mid[k - |front|];
      } else {
        assert s[k] == back[k - |front| - |mid|];
      }
    }
  }

  lemma CensusAround(front: seq<Range>, mid: seq<Range>, mid': seq<Range>, back: seq<Range>)
    requires AllSound(front) && AllSound(mid) && AllSound(mid') && AllSound(back)
    requires multiset(Expand(mid)) == multiset(Expand(mid'))
    ensures AllSound(front + mid + back) && AllSound(front + mid' + back)
    ensures multiset(Expand(front + mid + back)) == multiset(Expand(front + mid' + back))
  {
    ExpandOfTwo(front, mid, back, front + mid + back);
    ExpandOfTwo(front, mid', back, front + mid' + back);
  }

  lemma ExpandOfPair(a: Range, b: Range)
    requires Sound(a) && Sound(b)
    ensures AllSound([a, b]) && Expand([a, b]) == Names(a) + Names(b)
  {
    ExpandOfOne(a);
    ExpandOfOne(b);
    ExpandOfSum([a], [b]);
    assert [a, b] == [a] + [b];
  }

  lemma SplitTurn(front: seq<Range>, a: Range, b: Range, back: seq<Range>, w: string -> nat)
    requires Ready(front + [a, b] + back, w) && CalmFrom(front + [a, b] + back, |front| + 2)
    requires AllBounded(front) && AllBounded(back) && Uniform(front, w) && Uniform(back, w)
    requires Bounded(a) && Bounded(b) && Fits(a, w) && Fits(b, w) && LowLeq(a, b) && Crosses(a, b)
    ensures Ready(front + Split(a, b) + back, w)
  {
    var split := Split(a, b);
    SplitIsBounded(a, b);
    SplitFits(a, b, w);
    SplitIsSorted(front, a, b, back, split);
    ReadyParts(front, split, back, w);
  }

  lemma LowSortedPair(front: seq<Range>, a: Range, b: Range, back: seq<Range>, a': Range, b': Range)
    requires LowSorted(front + [a, b] + back) && SameKey(a, a') && SameKey(b, b')
    ensures LowSorted(front + [a', b'] + back)
    ensures forall n | CalmFrom(front + [a, b] + back, n) :: CalmFrom(front + [a', b'] + back, n)
  {
    var s, t := front + [a, b] + back, front + [a', b'] + back;
    forall k | 0 < k < |t| ensures LowLeq(t[k - 1], t[k]) && Crosses(t[k - 1], t[k]) == Crosses(s[k - 1], s[k]) {
      assert LowLeq(s[k - 1], s[k]);
    }
  }

  lemma StayNames(front: seq<Range>, a: Range, b: Range, back: seq<Range>, a': Range, b': Range)
    requires AllSound(front) && AllSound(back) && Sound(a) && Sound(b) && (a', b') == Compared(a, b)
    ensures AllSound(front + [a, b] + back) && AllSound(front + [a', b'] + back)
    ensures multiset(Expand(front + [a', b'] + back)) == multiset(Expand(front + [a, b] + back))
  {
    CmpKeepsNames(a, b);
    ExpandOfPair(a, b);
    ExpandOfPair(a', b');
    CensusAround(front, [a, b], [a', b'], back);
  }

  lemma StayTurn(front: seq<Range>, a: Range, b: Range, back: seq<Range>, w: string -> nat, a': Range, b': Range)
    requires LowSorted(front + [a, b] + back)
    requires AllBounded(front) && AllBounded(back) && Uniform(front, w) && Uniform(back, w)
    requires Bounded(a) && Bounded(b) && Fits(a, w) && Fits(b, w) && (a', b') == Compared(a, b)
    ensures Ready(front + [a', b'] + back, w)
  {
    CmpKeepsNames(a, b);
    ComparedFits(a, b, w);
    LowSortedPair(front, a, b, back, a', b');
    ReadyParts(front, [a', b'], back, w);
  }

  // With a common width the assertion holds, and overlapping is crossing.
  lemma ReadyIsAsserted(hr: seq<Range>, i: nat, w: string -> nat)
    requires 0 < i < |hr|
    ensures Ready(hr, w) ==> Asserted(hr[i - 1], hr[i])
  {
    if Ready(hr, w) {
      PairIsReady(hr, i, w);
      CmpIsKey(hr[i - 1], hr[i]);
    }
  }

  lemma QuietIsCalm(hr: seq<Range>, n: nat, w: string -> nat)
    requires Ready(hr, w) && QuietFrom(hr, n)
    ensures CalmFrom(hr, n)
  {
    forall k | n <= k < |hr| && k > 0 ensures !Crosses(hr[k - 1], hr[k]) {
      PairIsReady(hr, k, w);
    }
  }

  lemma ReadyCut(hr: seq<Range>, i: nat, w: string -> nat, front: seq<Range>, back: seq<Range>)
    requires Ready(hr, w) && 0 < i < |hr| && front == hr[..i - 1] && back == hr[i + 1..]
    ensures Uniform(front, w) && Uniform(back, w) && Fits(hr[i - 1], w) && Fits(hr[i], w)
  {
  }

  // A turn that splits keeps all hosts and makes progress; with a common width it keeps
  // the order, too.
  lemma SplitTurnKeeps(hr: seq<Range>, i: nat, w: string -> nat, hr': seq<Range>)
    requires AllBounded(hr) && 0 < i < |hr| && QuietFrom(hr, i + 1)
    requires Sound(hr[i - 1]) && Sound(hr[i]) && Overlaps(hr[i - 1], hr[i]) && KeyCmp(hr[i - 1], hr[i]) <= 0
    requires hr' == Turned(hr, i)
    ensures AllSound(hr) && AllSound(hr') && AllBounded(hr') && multiset(Expand(hr')) == multiset(Expand(hr))
    ensures hr' != [] && Lighter(hr', hr)
    ensures Ready(hr, w) ==> Ready(hr', w)
  {
    var front, a, b, back := hr[..i - 1], hr[i - 1], hr[i], hr[i + 1..];
    BoundedCut(hr, i, front, back);
    OverlapsCross(a, b);
    SplitKeepsHosts(front, a, b, back, Split(a, b));
    if Ready(hr, w) {
      ReadyCut(hr, i, w, front, back);
      QuietIsCalm(hr, i + 1, w);
      SplitTurn(front, a, b, back, w);
    }
  }

  // One that does not leaves the ranges behind as quiet as they were, and one pair more.
  lemma StayTurnKeeps(hr: seq<Range>, i: nat, w: string -> nat, hr': seq<Range>)
    requires AllBounded(hr) && 0 < i < |hr| && QuietFrom(hr, i + 1)
    requires Sound(hr[i - 1]) && Sound(hr[i]) && !Overlaps(hr[i - 1], hr[i]) && hr' == Turned(hr, i)
    ensures AllSound(hr) && AllSound(hr') && AllBounded(hr') && multiset(Expand(hr')) == multiset(Expand(hr))
    ensures QuietFrom(hr', i) && AsHeavy(hr', hr)
    ensures Ready(hr, w) ==> Ready(hr', w)
  {
    var front, a, b, back := hr[..i - 1], hr[i - 1], hr[i], hr[i + 1..];
    BoundedCut(hr, i, front, back);
    if !a.single && !b.single {
      var (a', b') := Compared(a, b);
      CmpKeepsNames(a, b);
      StayKeepsHosts(front, a, b, back, a', b');
      StayIsQuiet(front, a, b, back, a', b');
      if Ready(hr, w) {
        ReadyCut(hr, i, w, front, back);
        StayTurn(front, a, b, back, w, a', b');
      }
    }
  }

  lemma {:induction false} BetweenOfSame(r: Range, r': Range, c: nat, e: nat, x: nat)
    requires c <= x <= e + 1 && r.prefix == r'.prefix && r.width == r'.width
    ensures Between(r, c, e, x) == Between(r', c, e, x)
    decreases x
  {
    if x > c {
      BetweenOfSame(r, r', c, e, x - 1);
      BetweenUnfolds(r, c, e, x - 1, x);
      BetweenUnfolds(r', c, e, x - 1, x);
    }
  }

  // The split in terms of the intersection that hostrange_intersect returns.
  lemma SplitForm(a: Range, b: Range, h1: Range, h2: Range, common: Range)
    requires Sound(a) && Sound(b) && Crosses(a, b) && LowLeq(a, b) && Compatible(a.lo, a.width, b.lo, b.width)
    requires (h1, h2) == Compared(a, b) && common == h1.(lo := h2.lo, hi := Min(h1.hi, h2.hi))
    ensures Sound(h1) && Sound(h2) && !h1.single && !h2.single && h1.width == h2.width
    ensures h1.lo <= h2.lo < h1.hi
    ensures var p, q := h1.(hi := h2.lo), h2.(lo := common.hi, hi := Max(h1.hi, h2.hi));
      Split(a, b) == [p] + Between(common, h2.lo, common.hi, common.hi + 1) + [q]
  {
    CmpKeepsNames(a, b);
    CutIsSound(a, b);
    BetweenOfSame(common, h1.(hi := h2.lo), h2.lo, common.hi, common.hi + 1);
  }

  // Without a common width the order can break. These three ranges are in order, and the
  // last two do not overlap for the code. The first two do, and are split; then what is
  // left of the second compares above the third, where the loop asserts that it does not
  // (hostlist.c:889).
  const OUT_OF_ORDER: seq<Range> :=
    [Range("f", 1, 10, 1, false), Range("f", 1, 11, 1, false), Range("f", 2, 3, 2, false)]

  lemma MixedWidthsBreakTheOrder()
    ensures var hr := OUT_OF_ORDER;
      && InOrder(hr) && AllBounded(hr)
      && !Overlaps(hr[1], hr[2]) && Compared(hr[1], hr[2]) == (hr[1], hr[2]) && Overlaps(hr[0], hr[1])
      && var split := Turned(hr, 1);
         |split| > 1 && CmpValue(split[|split| - 2], split[|split| - 1]) > 0
  {
    var hr := OUT_OF_ORDER;
    assert NumDigits(10) == 2;
    StrCmpIsEqual("f", "f");
    var q := Range("f", 10, 11, 1, false);
    assert Cut(hr[0], hr[1]).1 == q;
    var split := Turned(hr, 1);
    assert hr[2..] == [hr[2]];
    SplitEnds(hr[0], hr[1]);
    assert split == hr[..0] + Split(hr[0], hr[1]) + hr[2..];
    assert split[|split| - 2] == q && split[|split| - 1] == hr[2];
  }

  lemma SplitEnds(a: Range, b: Range)
    requires Crosses(a, b) && Sound(a) && Sound(b)
    ensures |Split(a, b)| > 0 && Split(a, b)[|Split(a, b)| - 1] == Cut(a, b).1
  {
  }
}
