// A host list as the sequence of names it stands for.

module HostSpec {
  import opened Seqs
  import opened HostNames
  import opened HostRange

  predicate AllSound(hr: seq<Range>) {
    forall k | 0 <= k < |hr| :: Sound(hr[k])
  }

  function Expand(hr: seq<Range>): seq<string>
    requires AllSound(hr)
  {
    if hr == [] then [] else Names(hr[0]) + Expand(hr[1..])
  }

  lemma {:induction false} ExpandOfSum(s: seq<Range>, t: seq<Range>)
    requires AllSound(s) && AllSound(t)
    ensures AllSound(s + t) && Expand(s + t) == Expand(s) + Expand(t)
  {
    if s == [] {
      assert s + t == t;
    } else {
      var rest := s[1..];
      assert (s + t)[0] == s[0] && (s + t)[1..] == rest + t;
      ExpandOfSum(rest, t);
      Associative(Names(s[0]), Expand(rest), Expand(t));
    }
  }

  lemma ExpandOfOne(r: Range)
    requires Sound(r)
    ensures AllSound([r]) && Expand([r]) == Names(r)
  {
    assert [r][1..] == [];
  }

  lemma ExpandOfThree(s: seq<Range>, r: Range, t: seq<Range>)
    requires AllSound(s) && Sound(r) && AllSound(t)
    ensures AllSound(s + [r] + t) && Expand(s + [r] + t) == Expand(s) + Names(r) + Expand(t)
  {
    ExpandOfOne(r);
    ExpandOfSum(s, [r]);
    ExpandOfSum(s + [r], t);
  }

  // A range in its place.
  lemma ExpandAt(hr: seq<Range>, k: nat)
    requires AllSound(hr) && k < |hr|
    ensures AllSound(hr[..k]) && AllSound(hr[k + 1..])
    ensures Expand(hr) == Expand(hr[..k]) + Names(hr[k]) + Expand(hr[k + 1..])
  {
    ExpandOfSum(hr[..k], hr[k..]);
    assert hr == hr[..k] + hr[k..];
    assert hr[k..][1..] == hr[k + 1..];
    Associative(Expand(hr[..k]), Names(hr[k]), Expand(hr[k + 1..]));
  }

  lemma ExpandReplaced(hr: seq<Range>, k: nat, s: seq<Range>)
    requires AllSound(hr) && k < |hr| && AllSound(s)
    ensures AllSound(hr[..k] + s + hr[k + 1..])
    ensures Expand(hr[..k] + s + hr[k + 1..]) == Expand(hr[..k]) + Expand(s) + Expand(hr[k + 1..])
  {
    ExpandOfSum(hr[..k], s);
    ExpandOfSum(hr[..k] + s, hr[k + 1..]);
  }

  // Replacing a range by one with the same names changes nothing.
  lemma ExpandUpdated(hr: seq<Range>, k: nat, r: Range)
    requires AllSound(hr) && k < |hr| && Sound(r) && Names(r) == Names(hr[k])
    ensures AllSound(hr[k := r]) && Expand(hr[k := r]) == Expand(hr)
  {
    assert hr[k := r] == hr[..k] + [r] + hr[k + 1..];
    ExpandOfOne(r);
    ExpandReplaced(hr, k, [r]);
    ExpandAt(hr, k);
  }

  // The hosts of the first i ranges.
  function HostsBefore(hr: seq<Range>, i: nat): nat
    requires AllSound(hr) && i <= |hr|
  {
    if i == 0 then 0 else HostsBefore(hr, i - 1) + Count(hr[i - 1])
  }

  lemma {:induction false} HostsBeforeCounts(hr: seq<Range>, i: nat)
    requires AllSound(hr) && i <= |hr|
    ensures HostsBefore(hr, i) == |Expand(hr[..i])|
  {
    if i == 0 {
      assert hr[..i] == [];
    } else {
      HostsBeforeCounts(hr, i - 1);
      assert hr[..i] == hr[..i - 1] + [hr[i - 1]];
      ExpandOfOne(hr[i - 1]);
      ExpandOfSum(hr[..i - 1], [hr[i - 1]]);
    }
  }

  lemma AllHostsCounted(hr: seq<Range>)
    requires AllSound(hr)
    ensures HostsBefore(hr, |hr|) == |Expand(hr)|
  {
    HostsBeforeCounts(hr, |hr|);
    assert hr[..|hr|] == hr;
  }

  // ----- qsort -------------------------------------------------------------------------

  // What libc's qsort does with the array: it compares elements and swaps them, in
  // an order that is not known.
  datatype QStep = Compare(a: nat, b: nat) | Swap(a: nat, b: nat)

  predicate Legal(plan: seq<QStep>, n: nat) {
    forall k | 0 <= k < |plan| :: plan[k].a < n && plan[k].b < n
  }

  function QSorted(hr: seq<Range>, plan: seq<QStep>): (r: seq<Range>)
    requires Legal(plan, |hr|)
    ensures |r| == |hr|
    decreases |plan|
  {
    if plan == [] then hr else QSorted(QStepped(hr, plan[0]), plan[1..])
  }

  function QStepped(hr: seq<Range>, step: QStep): (r: seq<Range>)
    requires step.a < |hr| && step.b < |hr|
    ensures |r| == |hr|
  {
    match step
    case Compare(a, b) =>
      var (h1, h2) := Compared(hr[a], hr[b]);
      hr[a := h1][b := h2]
    case Swap(a, b) => hr[a := hr[b]][b := hr[a]]
  }

  // What qsort leaves: in the order of the comparison it was given.
  predicate InOrder(hr: seq<Range>) {
    forall k | 0 < k < |hr| :: CmpValue(hr[k - 1], hr[k]) <= 0
  }

  // ----- a common width per prefix -------------------------------------------------------

  // The ranges of each prefix all print their numbers as width w(prefix) would.
  predicate Fits(r: Range, w: string -> nat) {
    r.single || Printed(r.lo, r.width) == Printed(r.lo, w(r.prefix))
  }

  ghost predicate Uniform(hr: seq<Range>, w: string -> nat) {
    forall k | 0 <= k < |hr| :: Fits(hr[k], w)
  }

  predicate AllSmall(hr: seq<Range>) {
    forall k | 0 <= k < |hr| :: Small(hr[k])
  }

  // Then ranges of one prefix are always compatible.
  lemma FitsIsCompatible(a: Range, b: Range, w: string -> nat)
    requires Fits(a, w) && Fits(b, w) && PrefixCmp(a, b) == 0 && Sound(a) && Sound(b)
    ensures Compatible(a.lo, a.width, b.lo, b.width) && a.prefix == b.prefix && a.single == b.single
  {
    StrCmpIsEqual(a.prefix, b.prefix);
    if a.lo <= b.lo {
      MoreDigits(a.lo, b.lo);
    } else {
      MoreDigits(b.lo, a.lo);
    }
  }

  // The width of the first range of a prefix that is padded, if there is one.
  function WidthOf(hr: seq<Range>, prefix: string): nat {
    if hr == [] then 0
    else if hr[0].prefix == prefix && !hr[0].single && hr[0].width > NumDigits(hr[0].lo) then hr[0].width
    else WidthOf(hr[1..], prefix)
  }

  lemma {:induction false} WidthOfSome(hr: seq<Range>, prefix: string)
    ensures (exists k :: 0 <= k < |hr| && hr[k].prefix == prefix && !hr[k].single
                         && hr[k].width > NumDigits(hr[k].lo) && hr[k].width == WidthOf(hr, prefix))
         || (WidthOf(hr, prefix) == 0
             && forall k | 0 <= k < |hr| && hr[k].prefix == prefix && !hr[k].single ::
                  hr[k].width <= NumDigits(hr[k].lo))
  {
    if hr != [] {
      var first, rest := hr[0], hr[1..];
      WidthOfSome(rest, prefix);
      if !(first.prefix == prefix && !first.single && first.width > NumDigits(first.lo)) {
        if k :| 0 <= k < |rest| && rest[k].prefix == prefix && !rest[k].single
                && rest[k].width > NumDigits(rest[k].lo) && rest[k].width == WidthOf(rest, prefix) {
          assert hr[k + 1] == rest[k];
        } else {
          forall k | 0 <= k < |hr| && hr[k].prefix == prefix && !hr[k].single
            ensures hr[k].width <= NumDigits(hr[k].lo)
          {
            assert k > 0 ==> rest[k - 1] == hr[k];
          }
        }
      }
    }
  }

  // Any two ranges of a prefix print alike.
  predicate PairwiseCompatible(hr: seq<Range>) {
    forall i, j | 0 <= i < |hr| && 0 <= j < |hr| && hr[i].prefix == hr[j].prefix && !hr[i].single && !hr[j].single ::
      Compatible(hr[i].lo, hr[i].width, hr[j].lo, hr[j].width)
  }

  lemma CompatibleFits(hr: seq<Range>, k: nat)
    requires PairwiseCompatible(hr) && k < |hr|
    ensures Fits(hr[k], p => WidthOf(hr, p))
  {
    var r := hr[k];
    WidthOfSome(hr, r.prefix);
    if !r.single && WidthOf(hr, r.prefix) != 0 {
      var j :| 0 <= j < |hr| && hr[j].prefix == r.prefix && !hr[j].single
               && hr[j].width > NumDigits(hr[j].lo) && hr[j].width == WidthOf(hr, r.prefix);
      assert Compatible(hr[j].lo, hr[j].width, r.lo, r.width);
    }
  }

  // A list has a common width per prefix if and only if the code finds any two ranges
  // of a prefix compatible.
  lemma UniformIffCompatible(hr: seq<Range>)
    requires AllSound(hr)
    ensures (exists w: string -> nat :: Uniform(hr, w)) <==> PairwiseCompatible(hr)
  {
    if w: string -> nat :| Uniform(hr, w) {
      forall i, j | 0 <= i < |hr| && 0 <= j < |hr| && hr[i].prefix == hr[j].prefix && !hr[i].single && !hr[j].single
        ensures Compatible(hr[i].lo, hr[i].width, hr[j].lo, hr[j].width)
      {
        StrCmpIsEqual(hr[i].prefix, hr[j].prefix);
        FitsIsCompatible(hr[i], hr[j], w);
      }
    }
    if PairwiseCompatible(hr) {
      forall k | 0 <= k < |hr| ensures Fits(hr[k], p => WidthOf(hr, p)) {
        CompatibleFits(hr, k);
      }
      assert Uniform(hr, p => WidthOf(hr, p));
    }
  }

  lemma ComparedFits(a: Range, b: Range, w: string -> nat)
    requires Small(a) && Small(b)
    ensures var (a', b') := Compared(a, b);
      && Small(a') && Small(b') && (Fits(a, w) ==> Fits(a', w)) && (Fits(b, w) ==> Fits(b', w))
  {
    CmpKeepsNames(a, b);
  }

  // ----- what sorting by comparing and swapping keeps -------------------------------------

  lemma CensusUpdated(hr: seq<Range>, k: nat, r: Range)
    requires AllSound(hr) && k < |hr| && Sound(r)
    ensures AllSound(hr[k := r])
    ensures multiset(Expand(hr[k := r])) + multiset(Names(hr[k])) == multiset(Expand(hr)) + multiset(Names(r))
  {
    var s, t := hr[..k], hr[k + 1..];
    ExpandAt(hr, k);
    assert hr[k := r] == s + [r] + t;
    ExpandOfThree(s, r, t);
    CensusOfThree(Expand(s), Names(hr[k]), Names(r), Expand(t));
  }

  lemma CensusOfThree(s: seq<string>, x: seq<string>, y: seq<string>, t: seq<string>)
    ensures multiset(s + y + t) + multiset(x) == multiset(s + x + t) + multiset(y)
  {
  }

  lemma Cancels(x: multiset<string>, y: multiset<string>, z: multiset<string>)
    requires x + z == y + z
    ensures x == y
  {
    forall e ensures x[e] == y[e] {
      assert (x + z)[e] == (y + z)[e];
    }
  }

  lemma SwapKeepsCensus(hr: seq<Range>, a: nat, b: nat, once: seq<Range>, twice: seq<Range>)
    requires AllSound(hr) && a < |hr| && b < |hr| && once == hr[a := hr[b]] && twice == once[b := hr[a]]
    ensures AllSound(twice) && multiset(Expand(twice)) == multiset(Expand(hr))
  {
    CensusUpdated(hr, a, hr[b]);
    CensusUpdated(once, b, hr[a]);
    assert once[b] == hr[b];
    Cancels(multiset(Expand(twice)), multiset(Expand(hr)), multiset(Names(hr[b])));
  }

  lemma CompareKeepsNames(hr: seq<Range>, a: nat, b: nat, once: seq<Range>, twice: seq<Range>)
    requires AllSound(hr) && a < |hr| && b < |hr|
    requires once == hr[a := Compared(hr[a], hr[b]).0] && twice == once[b := Compared(hr[a], hr[b]).1]
    ensures AllSound(twice) && Expand(twice) == Expand(hr)
  {
    CmpKeepsNames(hr[a], hr[b]);
    ExpandUpdated(hr, a, once[a]);
    ExpandUpdated(once, b, twice[b]);
  }

  lemma QSteppedFits(hr: seq<Range>, step: QStep, w: string -> nat)
    requires AllSmall(hr) && step.a < |hr| && step.b < |hr|
    ensures AllSmall(QStepped(hr, step))
    ensures Uniform(hr, w) ==> Uniform(QStepped(hr, step), w)
  {
    ComparedFits(hr[step.a], hr[step.b], w);
  }

  lemma QSteppedKeeps(hr: seq<Range>, step: QStep)
    requires AllSound(hr) && step.a < |hr| && step.b < |hr|
    ensures AllSound(QStepped(hr, step))
    ensures multiset(Expand(QStepped(hr, step))) == multiset(Expand(hr))
  {
    match step
    case Compare(a, b) =>
      CompareKeepsNames(hr, a, b, hr[a := Compared(hr[a], hr[b]).0], QStepped(hr, step));
    case Swap(a, b) =>
      SwapKeepsCensus(hr, a, b, hr[a := hr[b]], QStepped(hr, step));
  }

  lemma {:induction false} QSortKeepsHosts(hr: seq<Range>, plan: seq<QStep>)
    requires AllSound(hr) && Legal(plan, |hr|)
    ensures AllSound(QSorted(hr, plan)) && multiset(Expand(QSorted(hr, plan))) == multiset(Expand(hr))
    decreases |plan|
  {
    if plan != [] {
      QSteppedKeeps(hr, plan[0]);
      QSortKeepsHosts(QStepped(hr, plan[0]), plan[1..]);
    }
  }

  lemma {:induction false} QSortKeeps(hr: seq<Range>, plan: seq<QStep>, w: string -> nat)
    requires AllSmall(hr) && Legal(plan, |hr|)
    ensures AllSmall(QSorted(hr, plan))
    ensures Uniform(hr, w) ==> Uniform(QSorted(hr, plan), w)
    ensures multiset(Expand(QSorted(hr, plan))) == multiset(Expand(hr))
    decreases |plan|
  {
    QSortKeepsHosts(hr, plan);
    if plan != [] {
      QSteppedFits(hr, plan[0], w);
      QSortKeeps(QStepped(hr, plan[0]), plan[1..], w);
    }
  }

  lemma SameCensus(s: seq<string>, t: seq<string>)
    requires multiset(s) == multiset(t)
    ensures |s| == |t| && Elements(s) == Elements(t)
  {
    assert |multiset(s)| == |s| && |multiset(t)| == |t|;
    forall x ensures x in Elements(s) <==> x in Elements(t) {
      assert x in s <==> x in multiset(s);
      assert x in t <==> x in multiset(t);
    }
  }
}
