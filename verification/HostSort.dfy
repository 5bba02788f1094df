// The order of a list that hostlist_sort has sorted.

module HostSort {
  import opened HostNames
  import opened HostRange
  import opened HostSpec
  import opened HostCoalesce

  // ----- hosts as prefix and number ------------------------------------------------------

  datatype Host = Host(prefix: string, single: bool, num: nat)

  function Hosts(r: Range): (s: seq<Host>)
    requires Sound(r)
    ensures |s| == Count(r)
  {
    seq(Count(r), k requires 0 <= k < Count(r) => Host(r.prefix, r.single, r.lo + k))
  }

  function AllHosts(hr: seq<Range>): seq<Host>
    requires AllSound(hr)
  {
    if hr == [] then [] else Hosts(hr[0]) + AllHosts(hr[1..])
  }

  // The name of a host in a list with a common width per prefix.
  function Render(h: Host, w: string -> nat): string {
    if h.single then h.prefix else h.prefix + Pad(h.num, w(h.prefix))
  }

  lemma NamesAreRendered(r: Range, w: string -> nat)
    requires Sound(r) && Fits(r, w)
    ensures forall k | 0 <= k < Count(r) :: Names(r)[k] == Render(Hosts(r)[k], w)
  {
    forall k | 0 <= k < Count(r) ensures Names(r)[k] == Render(Hosts(r)[k], w) {
      if !r.single {
        SameAbove(r.lo, r.lo + k, r.width, w(r.prefix));
      }
    }
  }

  // The names of a list are those of its hosts, one by one.
  lemma {:induction false} ExpansionIsRendered(hr: seq<Range>, w: string -> nat)
    requires AllSound(hr) && Uniform(hr, w)
    ensures |AllHosts(hr)| == |Expand(hr)|
    ensures forall k | 0 <= k < |Expand(hr)| :: Expand(hr)[k] == Render(AllHosts(hr)[k], w)
    decreases |hr|
  {
    if hr != [] {
      NamesAreRendered(hr[0], w);
      ExpansionIsRendered(hr[1..], w);
    }
  }

  // ----- their order --------------------------------------------------------------------------

  // By prefix, then the host without a number, then the numbers.
  predicate HostLeq(a: Host, b: Host) {
    || StrCmp(a.prefix, b.prefix) < 0
    || (a.prefix == b.prefix && if a.single != b.single then a.single else a.num <= b.num)
  }

  ghost predicate Ascending(s: seq<Host>) {
    forall j, k | 0 <= j < k < |s| :: HostLeq(s[j], s[k])
  }

  ghost predicate Climbs(s: seq<Host>) {
    forall k | 0 < k < |s| :: HostLeq(s[k - 1], s[k])
  }

  lemma HostLeqIsTransitive(a: Host, b: Host, c: Host)
    requires HostLeq(a, b) && HostLeq(b, c)
    ensures HostLeq(a, c)
  {
    StrCmpIsOrder(a.prefix, b.prefix, c.prefix);
    StrCmpIsEqual(a.prefix, c.prefix);
    StrCmpIsEqual(b.prefix, c.prefix);
    StrCmpIsOrder(b.prefix, c.prefix, a.prefix);
    StrCmpIsEqual(a.prefix, b.prefix);
    StrCmpIsOrder(c.prefix, a.prefix, b.prefix);
  }

  lemma {:induction false} ClimbsFar(s: seq<Host>, j: nat, k: nat)
    requires Climbs(s) && j < k < |s|
    ensures HostLeq(s[j], s[k])
    decreases k - j
  {
    if j < k - 1 {
      ClimbsFar(s, j, k - 1);
      HostLeqIsTransitive(s[j], s[k - 1], s[k]);
    }
  }

  lemma ClimbsIsAscending(s: seq<Host>)
    requires Climbs(s)
    ensures Ascending(s)
  {
    forall j, k | 0 <= j < k < |s| ensures HostLeq(s[j], s[k]) {
      ClimbsFar(s, j, k);
    }
  }

  lemma ClimbsSum(s: seq<Host>, t: seq<Host>)
    requires Climbs(s) && Climbs(t) && s != [] && (t != [] ==> HostLeq(s[|s| - 1], t[0]))
    ensures Climbs(s + t)
  {
    var r := s + t;
    forall k | 0 < k < |r| ensures HostLeq(r[k - 1], r[k]) {
      if k > |s| {
        assert r[k - 1] == t[k - 1 - |s|] && r[k] == t[k - |s|];
      }
    }
  }

  lemma NextHost(a: Range, b: Range)
    requires Sound(a) && Sound(b) && LowLeq(a, b) && !Crosses(a, b)
    ensures HostLeq(Hosts(a)[Count(a) - 1], Hosts(b)[0])
  {
    StrCmpIsEqual(a.prefix, b.prefix);
  }

  // Ranges in order that do not cross stand for hosts in order.
  lemma {:induction false} CalmClimbs(hr: seq<Range>)
    requires AllSound(hr) && LowSorted(hr) && CalmFrom(hr, 1)
    ensures Climbs(AllHosts(hr))
    decreases |hr|
  {
    if hr != [] {
      var r, rest := hr[0], hr[1..];
      RestIsCalm(hr);
      CalmClimbs(rest);
      if rest != [] {
        NextHost(r, rest[0]);
      }
      ClimbsSum(Hosts(r), AllHosts(rest));
    }
  }

  lemma RestIsCalm(hr: seq<Range>)
    requires hr != [] && LowSorted(hr) && CalmFrom(hr, 1)
    ensures LowSorted(hr[1..]) && CalmFrom(hr[1..], 1)
    ensures |hr| > 1 ==> LowLeq(hr[0], hr[1]) && !Crosses(hr[0], hr[1])
  {
    var rest := hr[1..];
    forall k | 0 < k < |rest| ensures LowLeq(rest[k - 1], rest[k]) && !Crosses(rest[k - 1], rest[k]) {
      assert rest[k - 1] == hr[k] && rest[k] == hr[k + 1];
    }
  }

  // ----- from qsort to the order by numbers ------------------------------------------------------

  lemma {:induction false} QSortKeepsBounds(hr: seq<Range>, plan: seq<QStep>)
    requires AllBounded(hr) && Legal(plan, |hr|)
    ensures AllBounded(QSorted(hr, plan))
    decreases |plan|
  {
    if plan != [] {
      var a, b := hr[plan[0].a], hr[plan[0].b];
      ComparedFits(a, b, p => 0);
      CmpKeepsNames(a, b);
      QSortKeepsBounds(QStepped(hr, plan[0]), plan[1..]);
    }
  }

  lemma InOrderIsLowSorted(hr: seq<Range>, w: string -> nat)
    requires AllSmall(hr) && Uniform(hr, w) && InOrder(hr)
    ensures LowSorted(hr)
  {
    forall k | 0 < k < |hr| ensures LowLeq(hr[k - 1], hr[k]) {
      CmpIsKey(hr[k - 1], hr[k]);
      FitsComparesLows(hr[k - 1], hr[k], w);
    }
  }

  lemma QSortIsReady(hr: seq<Range>, plan: seq<QStep>, w: string -> nat)
    requires AllBounded(hr) && AllSound(hr) && Legal(plan, |hr|) && InOrder(QSorted(hr, plan))
    ensures AllSound(QSorted(hr, plan)) && AllBounded(QSorted(hr, plan))
    ensures multiset(Expand(QSorted(hr, plan))) == multiset(Expand(hr))
    ensures Uniform(hr, w) ==> Ready(QSorted(hr, plan), w)
  {
    QSortKeeps(hr, plan, w);
    QSortKeepsBounds(hr, plan);
    if Uniform(hr, w) {
      InOrderIsLowSorted(QSorted(hr, plan), w);
    }
  }

  lemma TidyIsAscending(hr: seq<Range>)
    requires AllSound(hr) && LowSorted(hr) && CalmFrom(hr, 1)
    ensures Ascending(AllHosts(hr))
  {
    CalmClimbs(hr);
    ClimbsIsAscending(AllHosts(hr));
  }
}
