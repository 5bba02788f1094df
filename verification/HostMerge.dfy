// Merging ranges that continue one another, as pushing and collapsing do.

module HostMerge {
  import opened HostNames
  import opened HostRange
  import opened HostSpec
  import opened HostCoalesce

  // h2 starts where h1 ends: pushing and collapsing merge such ranges.
  predicate Continues(h1: Range, h2: Range)
    requires h2.lo <= ULONG_MAX
  {
    PrefixCmp(h1, h2) == 0 && h1.hi == Pred(h2.lo) && Compatible(h1.lo, h1.width, h2.lo, h2.width)
  }

  function Merged(h1: Range, h2: Range): Range {
    Compared(h1, h2).0.(hi := h2.hi)
  }

  // Merging keeps the names and their order.
  lemma MergeKeepsNames(h1: Range, h2: Range)
    requires Sound(h1) && Sound(h2) && Continues(h1, h2)
    ensures Sound(Merged(h1, h2)) && Names(Merged(h1, h2)) == Names(h1) + Names(h2)
    ensures !h1.single && !h2.single
  {
    StrCmpIsEqual(h1.prefix, h2.prefix);
    CmpKeepsNames(h1, h2);
    SpanSplits(h1.prefix, Merged(h1, h2).width, h1.lo, h2.lo, h2.hi + 1);
  }

  lemma MergeStep(front: seq<Range>, a: Range, b: Range, back: seq<Range>)
    requires AllSound(front) && AllSound(back) && Sound(a) && Sound(b) && Continues(a, b)
    ensures AllSound(front + [Merged(a, b)] + back) && AllSound(front + [a, b] + back)
    ensures Expand(front + [Merged(a, b)] + back) == Expand(front + [a, b] + back)
  {
    MergeKeepsNames(a, b);
    ExpandOfPair(a, b);
    ExpandOfOne(Merged(a, b));
    ExpandOfTwo(front, [a, b], back, front + [a, b] + back);
    ExpandOfTwo(front, [Merged(a, b)], back, front + [Merged(a, b)] + back);
  }

  // With a common width per prefix these could still be merged.
  predicate Adjoins(a: Range, b: Range) {
    PrefixCmp(a, b) == 0 && !a.single && a.hi + 1 == b.lo
  }

  // In order, without crossings, and from n on merged as far as can be.
  ghost predicate Tidy(hr: seq<Range>, n: nat) {
    && LowSorted(hr) && CalmFrom(hr, 1)
    && forall k | n <= k < |hr| && k > 0 :: !Adjoins(hr[k - 1], hr[k])
  }

  lemma MergeIsTidy(front: seq<Range>, a: Range, b: Range, back: seq<Range>, m: Range)
    requires Tidy(front + [a, b] + back, |front| + 2) && a.prefix == b.prefix && a.single == b.single && a.lo <= b.lo
    requires m.prefix == a.prefix && m.single == a.single && m.lo == a.lo && m.hi == b.hi
    ensures Tidy(front + [m] + back, |front| + 1)
  {
    var s, t := front + [a, b] + back, front + [m] + back;
    var n := |front|;
    forall k | 0 < k < |t|
      ensures LowLeq(t[k - 1], t[k]) && !Crosses(t[k - 1], t[k]) && (k > n ==> !Adjoins(t[k - 1], t[k]))
    {
      if k <= n {
        assert s[k - 1] == t[k - 1] && (k < n ==> s[k] == t[k]) && (k == n ==> s[k] == a);
      } else if k == n + 1 {
        assert s[n + 1] == b && s[n + 2] == t[k];
        assert LowLeq(b, t[k]) && !Crosses(b, t[k]) && !Adjoins(b, t[k]);
      } else {
        assert s[k] == t[k - 1] && s[k + 1] == t[k];
      }
    }
  }

  lemma MergeFits(front: seq<Range>, a: Range, b: Range, back: seq<Range>, w: string -> nat)
    requires AllSound(front + [a, b] + back) && Sound(b) && Uniform(front + [a, b] + back, w) && Continues(a, b)
    ensures Uniform(front + [Merged(a, b)] + back, w)
  {
    var s, t := front + [a, b] + back, front + [Merged(a, b)] + back;
    assert s[|front|] == a && s[|front| + 1] == b;
    StrCmpIsEqual(a.prefix, b.prefix);
    forall k | 0 <= k < |t| ensures Fits(t[k], w) {
      assert k < |front| ==> t[k] == s[k];
      assert k > |front| ==> t[k] == s[k + 1];
    }
  }

  // One turn of the loop of hostlist_collapse.
  lemma CollapseTurn(hr: seq<Range>, i: nat, w: string -> nat, hr': seq<Range>)
    requires AllSound(hr) && 0 < i < |hr| && Continues(hr[i - 1], hr[i])
    requires hr' == hr[..i - 1] + [Merged(hr[i - 1], hr[i])] + hr[i + 1..]
    ensures AllSound(hr') && Expand(hr') == Expand(hr)
    ensures Uniform(hr, w) ==> Uniform(hr', w)
    ensures Tidy(hr, i + 1) ==> Tidy(hr', i)
  {
    var front, a, b, back := hr[..i - 1], hr[i - 1], hr[i], hr[i + 1..];
    assert hr == front + [a, b] + back;
    StrCmpIsEqual(a.prefix, b.prefix);
    MergeStep(front, a, b, back);
    if Uniform(hr, w) {
      MergeFits(front, a, b, back, w);
    }
    if Tidy(hr, i + 1) {
      MergeIsTidy(front, a, b, back, Merged(a, b));
    }
  }
}
