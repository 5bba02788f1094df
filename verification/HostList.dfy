// The host list of liblsd/hostlist.c.

module HostList {
  import opened Seqs
  import opened HostNames
  import opened HostRange
  import opened HostSpec
  import opened HostFind
  import opened HostUniq
  import opened HostMerge
  import opened HostPush
  import opened HostDistinct
  import HostCoalesce
  import HostSort

  // The names left when the ranges s take the place of range i and lack its host k.
  lemma NamesLeft(was: seq<Range>, i: nat, k: nat, s: seq<Range>, hr: seq<Range>)
    requires AllSound(was) && i < |was| && k < Count(was[i])
    requires AllSound(s) && Expand(s) == Without(Names(was[i]), k) && hr == was[..i] + s + was[i + 1..]
    ensures AllSound(hr) && Expand(hr) == Expand(was[..i]) + Without(Names(was[i]), k) + Expand(was[i + 1..])
  {
    ExpandReplaced(was, i, s);
  }

  lemma ExpandOfTwo(left: Range, right: Range)
    requires Sound(left) && Sound(right)
    ensures AllSound([left, right]) && Expand([left, right]) == Names(left) + Names(right)
  {
    ExpandOfOne(right);
    assert [left, right][1..] == [right];
  }

  lemma CutAt(a: seq<string>, b: seq<string>, c: seq<string>, k: nat)
    requires k < |b|
    ensures Without(a + b + c, |a| + k) == a + Without(b, k) + c
  {
  }

  lemma CutInMiddle(all: seq<string>, a: seq<string>, b: seq<string>, c: seq<string>, left: seq<string>, n: nat, k: nat)
    requires k < |b| && n == |a| + k && all == a + b + c && left == a + Without(b, k) + c
    ensures n < |all| && left == Without(all, n) && |left| == |all| - 1
  {
    CutAt(a, b, c, k);
  }

  lemma NthGone(was: seq<Range>, i: nat, count: nat, n: nat, k: nat, hr: seq<Range>)
    requires AllSound(was) && i < |was| && count == HostsBefore(was, i) && n == count + k && k < Count(was[i])
    requires AllSound(hr) && Expand(hr) == Expand(was[..i]) + Without(Names(was[i]), k) + Expand(was[i + 1..])
    ensures n < |Expand(was)| && Expand(hr) == Without(Expand(was), n) && |Expand(hr)| == |Expand(was)| - 1
  {
    HostsBeforeCounts(was, i);
    ExpandAt(was, i);
    CutInMiddle(Expand(was), Expand(was[..i]), Names(was[i]), Expand(was[i + 1..]), Expand(hr), n, k);
  }

  lemma InsertAfter(front: seq<Range>, mid: seq<Range>, back: seq<Range>, add: seq<Range>)
    ensures var s := front + mid + back; var j := |front| + |mid|;
      s[..j] + add + s[j..] == front + (mid + add) + back
  {
  }

  // An element is changed, and then perhaps taken out or followed by another.
  lemma UpdatedSplits<T>(was: seq<T>, i: nat, x: T, now: seq<T>)
    requires i < |was| && now == was[i := x]
    ensures now == was[..i] + [x] + was[i + 1..]
    ensures now[..i] + now[i + 1..] == was[..i] + [] + was[i + 1..]
    ensures forall y :: now[..i + 1] + [y] + now[i + 1..] == was[..i] + [x, y] + was[i + 1..]
  {
    forall y ensures now[..i + 1] + [y] + now[i + 1..] == was[..i] + [x, y] + was[i + 1..] {
      assert now[..i + 1] == was[..i] + [x];
    }
  }

  lemma PairSplits<T>(front: seq<T>, a: T, b: T, back: seq<T>, s: seq<T>)
    requires s == front + [a, b] + back
    ensures |s| == |front| + 2 + |back| && s[|front|] == a && s[|front| + 1] == b
    ensures s[..|front|] == front && s[|front| + 2..] == back
  {
  }

  lemma NextNumbers(r: Range, c: nat, e: nat, x: nat, mid: seq<Range>) returns (add: seq<Range>)
    requires c <= x <= e && mid == HostCoalesce.Between(r, c, e, x)
    ensures add == HostCoalesce.Placed(r, c, x) + HostCoalesce.Kept(r, e, x)
    ensures mid + add == HostCoalesce.Between(r, c, e, x + 1)
  {
    add := HostCoalesce.Placed(r, c, x) + HostCoalesce.Kept(r, e, x);
    HostCoalesce.BetweenUnfolds(r, c, e, x, x + 1);
    Associative(mid, HostCoalesce.Placed(r, c, x), HostCoalesce.Kept(r, e, x));
  }

  // x as an unsigned long.
  function Ulong(x: int): (n: nat)
    ensures n <= ULONG_MAX
    ensures 0 <= x <= ULONG_MAX ==> n == x
    ensures x < 0 <= x + ULONG_MAX + 1 ==> n == x + ULONG_MAX + 1
    decreases if x < 0 then ULONG_MAX + 1 - x else x
  {
    if x < 0 then Ulong(x + ULONG_MAX + 1) else if x > ULONG_MAX then Ulong(x - ULONG_MAX - 1) else x
  }

  // What _hostrange_string prints for a depth that may lie outside the range.
  function DepthName(r: Range, depth: int): string {
    if r.single then r.prefix else r.prefix + Pad(Ulong(r.lo + depth), r.width)
  }

  lemma DepthIsName(r: Range, depth: nat)
    requires Sound(r) && depth < Count(r)
    ensures DepthName(r, depth) == Names(r)[depth]
  {
  }

  lemma InMiddle(a: seq<string>, b: seq<string>, c: seq<string>, n: nat, k: nat)
    requires n == |a| && k < |b|
    ensures (a + b + c)[n + k] == b[k]
  {
  }

  lemma NthName(hr: seq<Range>, i: nat, count: nat, n: nat, depth: nat)
    requires AllSound(hr) && i < |hr| && count == HostsBefore(hr, i) && n == count + depth && depth < Count(hr[i])
    ensures n < |Expand(hr)| && Expand(hr)[n] == DepthName(hr[i], depth)
  {
    HostsBeforeCounts(hr, i);
    ExpandAt(hr, i);
    InMiddle(Expand(hr[..i]), Names(hr[i]), Expand(hr[i + 1..]), count, depth);
    DepthIsName(hr[i], depth);
  }

  class HostList {
    var hr: seq<Range>
    var nhosts: int

    ghost predicate Valid()
      reads this
    {
      AllSound(hr) && nhosts == |Expand(hr)|
    }

    // The names of the hosts, in order.
    ghost function Contents(): seq<string>
      requires Valid()
      reads this
    {
      Expand(hr)
    }

    constructor ()
      ensures Valid() && hr == []
    {
      hr, nhosts := [], 0;
    }

    method PushRange(r: Range) returns (total: int)
      requires Valid() && Sound(r)
      modifies this
      ensures Valid() && Contents() == old(Contents()) + Names(r)
      ensures hr == PushedOnto(old(hr), r) && total == nhosts
    {
      PushKeepsNames(hr, r);
      var merged := MergeWithTail(r);
      if !merged {
        hr := hr + [r];
      }
      nhosts := nhosts + Count(r);
      total := nhosts;
    }

    // The attempt to make the last range longer.
    method MergeWithTail(r: Range) returns (merged: bool)
      requires r.lo <= ULONG_MAX
      modifies this`hr
      ensures merged <==> old(hr) != [] && Continues(old(hr)[|old(hr)| - 1], r)
      ensures hr == if merged then PushedOnto(old(hr), r) else old(hr)
    {
      merged := false;
      var n := |hr|;
      if n > 0 && PrefixCmp(hr[n - 1], r) == 0 && hr[n - 1].hi == Pred(r.lo) {
        var tail, other;
        merged, tail, other := WidthCombine(hr[n - 1], r);
        if merged {
          hr := hr[n - 1 := tail.(hi := r.hi)];
        }
      }
    }

    // hostlist_expand has made room for a slot after the last range; what is in it
    // does not matter.
    method InsertRange(r: Range, n: nat) returns (ok: bool)
      modifies this`hr
      ensures ok == (n <= |old(hr)|)
      ensures hr == if ok then old(hr)[..n] + [r] + old(hr)[n..] else old(hr)
    {
      if n > |hr| {
        return false;
      }
      ghost var slots, shifted := hr + [r], hr[..n] + [r] + hr[n..];
      hr := hr + [r];
      var tmp := hr[n];
      hr := hr[n := r];
      var i := n + 1;
      while i < |hr|
        invariant n < i <= |hr| == |slots| && tmp == slots[i - 1]
        invariant forall k | 0 <= k < i :: hr[k] == shifted[k]
        invariant forall k | i <= k < |hr| :: hr[k] == slots[k]
      {
        var last := hr[i];
        hr := hr[i := tmp];
        tmp := last;
        i := i + 1;
      }
      return true;
    }

    method DeleteRange(n: nat)
      requires n < |hr|
      modifies this`hr
      ensures hr == old(hr)[..n] + old(hr)[n + 1..]
    {
      ghost var was, shifted := hr, hr[..n] + hr[n + 1..];
      var i := n;
      while i < |hr| - 1
        invariant n <= i < |hr| == |was|
        invariant forall k | 0 <= k < i :: hr[k] == shifted[k]
        invariant forall k | i <= k < |hr| :: hr[k] == was[k]
      {
        hr := hr[i := hr[i + 1]];
        i := i + 1;
      }
      hr := hr[..|hr| - 1];
    }

    method RangeString(r: Range, depth: int) returns (s: string)
      ensures s == DepthName(r, depth)
    {
      s := r.prefix;
      if !r.single {
        var num := Ulong(r.lo + depth);
        s := s + Pad(num, r.width);
      }
    }

    method Nth(n: int) returns (host: Option<string>)
      requires Valid()
      ensures 0 <= n < |Contents()| ==> host == Some(Contents()[n])
      ensures n >= |Contents()| ==> host == None
      ensures n < 0 ==> host == if hr == [] then None else Some(DepthName(hr[0], n))
    {
      AllHostsCounted(hr);
      var i, count := Locate(n);
      if i == |hr| {
        return None;
      }
      if n >= 0 {
        NthName(hr, i, count, n, n - count);
      }
      var s := RangeString(hr[i], n - count);
      return Some(s);
    }

    // The loop of hostlist_nth: the range of the n-th host, and the hosts before it.
    method Locate(n: int) returns (i: nat, count: nat)
      requires AllSound(hr)
      ensures i <= |hr| && count == HostsBefore(hr, i)
      ensures n >= 0 ==> count <= n && (i < |hr| ==> n < count + Count(hr[i]))
      ensures n < 0 ==> i == 0
    {
      i, count := 0, 0;
      while i < |hr|
        invariant i <= |hr| && count == HostsBefore(hr, i)
        invariant n >= 0 ==> count <= n
        invariant n < 0 ==> i == 0
      {
        var num := Count(hr[i]);
        if n <= num - 1 + count {
          return;
        }
        count := count + num;
        i := i + 1;
      }
    }

    // The part of hostlist_delete_nth that deletes host k of range i.
    method DeleteInRange(i: nat, k: nat)
      requires AllSound(hr) && i < |hr| && k < Count(hr[i])
      modifies this`hr
      ensures AllSound(hr)
      ensures var was := old(hr); var names := Names(was[i]);
        Expand(hr) == Expand(was[..i]) + Without(names, k) + Expand(was[i + 1..])
    {
      ghost var was, s := hr, [];
      var r := hr[i];
      if r.single {
        DeleteRange(i);
      } else {
        s := DeleteNumber(i, k);
      }
      assert hr == was[..i] + s + was[i + 1..];
      NamesLeft(was, i, k, s, hr);
    }

    // For a range with numbers, which is left as the ranges s.
    method DeleteNumber(i: nat, k: nat) returns (ghost s: seq<Range>)
      requires AllSound(hr) && i < |hr| && !hr[i].single && k < Count(hr[i])
      modifies this`hr
      ensures hr == old(hr)[..i] + s + old(hr)[i + 1..]
      ensures AllSound(s) && Expand(s) == Without(Names(old(hr)[i]), k)
    {
      ghost var was := hr;
      var r := hr[i];
      var d := DeleteHost(r, r.lo + k);
      hr := hr[i := d.left];
      UpdatedSplits(was, i, d.left, hr);
      if d.SplitInTwo? {
        var _ := InsertRange(d.right, i + 1);
        s := [d.left, d.right];
        ExpandOfTwo(d.left, d.right);
      } else if d.left.hi < d.left.lo || d.left.hi == ULONG_MAX {
        DeleteRange(i);
        s := [];
      } else {
        s := [d.left];
        ExpandOfOne(d.left);
      }
    }

    method DeleteNth(n: int)
      requires Valid() && 0 <= n <= nhosts
      modifies this
      ensures AllSound(hr) && nhosts == old(nhosts) - 1
      ensures Valid() <==> n < old(nhosts)
      ensures n < old(nhosts) ==> Contents() == Without(old(Contents()), n)
      ensures n == old(nhosts) ==> hr == old(hr)
    {
      AllHostsCounted(hr);
      var count := 0;
      var i := 0;
      while i < |hr|
        invariant i <= |hr| && hr == old(hr) && nhosts == old(nhosts) && Valid()
        invariant count == HostsBefore(hr, i) <= n
      {
        var num := Count(hr[i]);
        if n <= num - 1 + count {
          ghost var was := hr;
          DeleteInRange(i, n - count);
          NthGone(was, i, count, n, n - count, hr);
          nhosts := nhosts - 1;
          return;
        }
        count := count + num;
        i := i + 1;
      }
      nhosts := nhosts - 1;
    }

    // The loop of hostlist_find: the first range that answers, the hosts before it, and
    // the range with the width that it is left with.
    method Search(hn: HostName) returns (i: nat, count: nat, r: Range)
      requires AllSound(hr) && hn == SplitName(hn.name)
      ensures i >= |hr| ==> Found(hr, hn) == -1
      ensures i < |hr| ==> Within(hr[i], hn) && Found(hr, hn) == count + Reported(hr[i], hn)
      ensures i < |hr| ==> Sound(r) && r == hr[i].(width := r.width) && Names(r) == Names(hr[i])
    {
      i, count, r := 0, 0, Range("", 0, 0, 0, true);
      while i < |hr|
        invariant i <= |hr| && Found(hr, hn) == After(count, Found(hr[i..], hn))
      {
        FoundFrom(hr, i, hn);
        var within;
        within, r := HnWithin(hr[i], hn);
        if within {
          return;
        }
        count := count + Count(hr[i]);
        i := i + 1;
      }
    }

    method Find(hostname: string) returns (ret: int)
      requires Valid()
      modifies this`hr
      ensures Valid() && Contents() == old(Contents())
      ensures ret == Found(old(hr), SplitName(hostname))
    {
      var hn := HostnameCreate(hostname);
      ret := -1;
      var i, count, r := Search(hn);
      if i < |hr| {
        ret := if hn.Numbered? && !r.single then count + hn.num - r.lo else count;
        ExpandUpdated(hr, i, r);
        hr := hr[i := r];
      }
    }

    method PushHost(str: string)
      requires Valid()
      modifies this
      ensures Valid() && Contents() == old(Contents()) + [str]
      ensures hr == PushedName(old(hr), str)
    {
      var hn := HostnameCreate(str);
      RangeOfName(hn);
      var r := if hn.Numbered? then Range(hn.prefix, hn.num, hn.num, |hn.suffix|, false) else Range(str, 0, 0, 0, true);
      assert r == RangeOf(hn);
      var _ := PushRange(r);
    }

    // libc's qsort with hostrange_cmp, by a plan of comparisons and swaps.
    method QSort(plan: seq<QStep>)
      requires Legal(plan, |hr|)
      modifies this`hr
      ensures hr == QSorted(old(hr), plan)
    {
      var k := 0;
      while k < |plan|
        invariant k <= |plan| && |hr| == |old(hr)|
        invariant QSorted(hr, plan[k..]) == QSorted(old(hr), plan)
      {
        assert plan[k..][1..] == plan[k + 1..];
        var a, b := plan[k].a, plan[k].b;
        match plan[k] {
          case Compare(_, _) =>
            var h1, h2 := hr[a], hr[b];
            var retval;
            retval, h1, h2 := Cmp(h1, h2);
            hr := hr[a := h1][b := h2];
          case Swap(_, _) =>
            hr := hr[a := hr[b]][b := hr[a]];
        }
        k := k + 1;
      }
    }

    // The changes that _attempt_range_join makes.
    method TurnAt(loc: nat) returns (ndup: int)
      requires AllSound(hr) && 0 < loc < |hr| && CmpValue(hr[loc - 1], hr[loc]) <= 0
      modifies this
      ensures hr == Turned(old(hr), loc)
      ensures ndup >= 0 <==> Joins(old(hr)[loc - 1], old(hr)[loc])
      ensures var a, b := old(hr)[loc - 1], old(hr)[loc];
        Joins(a, b) ==> Sound(Joined(a, b).0) && Count(Joined(a, b).0) == Count(a) + Count(b) - ndup
      ensures nhosts == if ndup >= 0 then old(nhosts) - ndup else old(nhosts)
    {
      ghost var was := hr;
      var h1, h2;
      ndup, h1, h2 := Join(hr[loc - 1], hr[loc]);
      hr := hr[loc - 1 := h1][loc := h2];
      if ndup >= 0 {
        DeleteRange(loc);
        assert hr == was[..loc - 1] + [h1] + was[loc + 1..];
        nhosts := nhosts - ndup;
      } else {
        assert hr == was[..loc - 1] + [h1, h2] + was[loc + 1..];
      }
    }

    // The count of hosts is right whatever the ranges are, the names if they are in order.
    method AttemptRangeJoin(loc: nat) returns (ndup: int)
      requires Valid() && 0 < loc < |hr| && CmpValue(hr[loc - 1], hr[loc]) <= 0
      modifies this
      ensures Valid() && hr == Turned(old(hr), loc)
      ensures ndup >= 0 <==> Joins(old(hr)[loc - 1], old(hr)[loc])
      ensures nhosts == if ndup >= 0 then old(nhosts) - ndup else old(nhosts)
      ensures KeyCmp(old(hr)[loc - 1], old(hr)[loc]) <= 0 ==> Elements(Contents()) == Elements(old(Contents()))
    {
      ghost var was := hr;
      ndup := TurnAt(loc);
      TurnKeepsHosts(was, loc, ndup);
    }

    // The loop of hostlist_uniq.
    method JoinAll()
      requires Valid() && AllAsserted(hr, 1)
      modifies this
      ensures Valid() && hr == AllJoined(old(hr), 1)
    {
      var i := 1;
      while i < |hr|
        invariant 0 < i && Valid() && AllAsserted(hr, i)
        invariant AllJoined(hr, i) == AllJoined(old(hr), 1)
        decreases 2 * |hr| - i
      {
        var ndup := AttemptRangeJoin(i);
        if ndup < 0 {
          i := i + 1;
        }
      }
    }

    // `plan` is what qsort does; it leaves the array in the order of its comparison. Numbers
    // and widths below 2^31 pass the code's assertions (HostUniq.SmallIsAsserted). `w` is any
    // choice of a width for each prefix.
    method Uniq(plan: seq<QStep>, ghost w: string -> nat)
      requires Valid() && Legal(plan, |hr|) && InOrder(QSorted(hr, plan)) && AllAsserted(QSorted(hr, plan), 1)
      modifies this
      ensures Valid() && hr == Uniqed(old(hr), plan)
      ensures AllSmall(old(hr)) ==> Elements(Contents()) == Elements(old(Contents()))
      ensures AllSmall(old(hr)) ==> AllSound(old(hr)) && (Distinct(Contents()) <==> LeavesNoneTwice(old(hr)))
      ensures AllSmall(old(hr)) && Uniform(old(hr), w) ==> Separate(hr) && (Distinct(Contents()) <==> OwnNames(old(hr)))
      ensures AllSmall(old(hr)) && Uniform(old(hr), w) && DigitFree(old(hr)) ==> Distinct(Contents())
    {
      if AllSmall(hr) {
        UniqKeepsNames(hr, plan);
        UniqIsExact(hr, plan);
        if Uniform(hr, w) {
          UniqedIsSeparate(hr, plan, w);
          UniqOfUniform(hr, plan, w);
          if DigitFree(hr) {
            DigitFreeIsOwn(hr);
          }
        }
      }
      if |hr| > 1 {
        QSortKeepsHosts(hr, plan);
        SameCensus(Expand(QSorted(hr, plan)), Expand(hr));
        QSort(plan);
        JoinAll();
      }
    }

    // One turn of the loop that inserts single numbers (hostlist.c:1967-1979).
    method InsertNumber(r: Range, x: nat, c: nat, e: nat, j: nat) returns (j': nat)
      requires AllSound(hr) && j <= |hr| && x < ULONG_MAX
      modifies this`hr
      ensures AllSound(hr)
      ensures var s := HostCoalesce.Placed(r, c, x) + HostCoalesce.Kept(r, e, x);
        j' == j + |s| && hr == old(hr)[..j] + s + old(hr)[j..]
    {
      var one := Range(r.prefix, x, x, r.width, false);
      ghost var front, back := hr[..j], hr[j..];
      assert hr == front + [] + back;
      j' := j;
      if x > c {
        var _ := InsertRange(one, j');
        j' := j' + 1;
      }
      assert hr == front + HostCoalesce.Placed(r, c, x) + back;
      if x < e {
        InsertAfter(front, HostCoalesce.Placed(r, c, x), back, [one]);
        var _ := InsertRange(one, j');
        j' := j' + 1;
      }
    }

    // Puts the numbers of `common` between the two ranges it was cut from (hostlist.c:1966-1980).
    method InsertBetween(i: nat, common: Range)
      requires AllSound(hr) && 0 < i < |hr| && common.lo == hr[i - 1].hi && common.hi == hr[i].lo
      requires common.lo <= common.hi < ULONG_MAX
      modifies this`hr
      ensures AllSound(hr)
      ensures hr == old(hr)[..i] + HostCoalesce.Between(common, common.lo, common.hi, common.hi + 1) + old(hr)[i..]
    {
      ghost var was, mid := hr, [];
      var c, e := hr[i - 1].hi, hr[i].lo;
      var x, j := common.lo, i;
      while x <= common.hi
        invariant common.lo <= x <= common.hi + 1 && AllSound(hr)
        invariant mid == HostCoalesce.Between(common, c, e, x) && j == i + |mid|
        invariant hr == was[..i] + mid + was[i..]
      {
        ghost var add := NextNumbers(common, c, e, x, mid);
        InsertAfter(was[..i], mid, was[i..], add);
        j := InsertNumber(common, x, c, e, j);
        mid := mid + add;
        x := x + 1;
      }
    }

    // Cuts the ranges at i - 1 and i at the ends of what they have in common.
    method SplitAt(i: nat, common: Range)
      requires AllSound(hr) && 0 < i < |hr| && !hr[i - 1].single && !hr[i].single
      requires hr[i - 1].lo <= hr[i].lo < hr[i - 1].hi && hr[i - 1].width == hr[i].width
      requires common == hr[i - 1].(lo := hr[i].lo, hi := Min(hr[i - 1].hi, hr[i].hi))
      modifies this`hr
      ensures AllSound(hr)
      ensures var a, b := old(hr)[i - 1], old(hr)[i];
        var p, q := a.(hi := b.lo), b.(lo := common.hi, hi := Max(a.hi, b.hi));
        hr == old(hr)[..i - 1]
              + ([p] + HostCoalesce.Between(common, b.lo, common.hi, common.hi + 1) + [q]) + old(hr)[i + 1..]
    {
      ghost var was := hr;
      if common.hi < hr[i - 1].hi {
        hr := hr[i := hr[i].(hi := hr[i - 1].hi)];
      }
      hr := hr[i - 1 := hr[i - 1].(hi := common.lo)];
      hr := hr[i := hr[i].(lo := common.hi)];
      // hostlist.c:1963-1964 deletes range i if the range before it is empty; it never is.
      assert hr[i - 1].lo <= hr[i - 1].hi < ULONG_MAX;
      assert hr == was[..i - 1] + [hr[i - 1], hr[i]] + was[i + 1..];
      InsertBetween(i, common);
    }

    // The intersection of the ranges at i - 1 and i, which may change their widths.
    method IntersectAt(i: nat) returns (found: bool, common: Range, h1: Range, h2: Range)
      requires 0 < i < |hr| && Sound(hr[i - 1]) && Sound(hr[i]) && HostCoalesce.Asserted(hr[i - 1], hr[i])
      modifies this`hr
      ensures var a, b := old(hr)[i - 1], old(hr)[i];
        && found == Overlaps(a, b)
        && (h1, h2) == (if a.single || b.single then (a, b) else Compared(a, b))
        && (found ==> common == h1.(lo := h2.lo, hi := Min(a.hi, b.hi)))
      ensures hr == old(hr)[..i - 1] + [h1, h2] + old(hr)[i + 1..]
    {
      ghost var was := hr;
      found, common, h1, h2 := Intersect(hr[i - 1], hr[i]);
      hr := hr[i - 1 := h1][i := h2];
      assert hr == was[..i - 1] + [h1, h2] + was[i + 1..];
    }

    // One turn of the loop of hostlist_coalesce.
    method CoalesceAt(i: nat) returns (found: bool)
      requires AllSound(hr) && 0 < i < |hr| && HostCoalesce.Asserted(hr[i - 1], hr[i])
      requires Overlaps(hr[i - 1], hr[i]) ==> KeyCmp(hr[i - 1], hr[i]) <= 0
      modifies this`hr
      ensures found == Overlaps(old(hr)[i - 1], old(hr)[i])
      ensures hr == HostCoalesce.Turned(old(hr), i)
    {
      ghost var was, a, b := hr, hr[i - 1], hr[i];
      var common, h1, h2;
      found, common, h1, h2 := IntersectAt(i);
      PairSplits(was[..i - 1], h1, h2, was[i + 1..], hr);
      if found {
        HostCoalesce.OverlapsCross(a, b);
        HostCoalesce.SplitForm(a, b, h1, h2, common);
        SplitAt(i, common);
      } else {
        assert a.single || b.single ==> hr == was;
      }
    }

    // The same, if the code's assertion holds (hostlist.c:889); otherwise the program stops.
    method CoalesceTurn(i: nat, ghost w: string -> nat) returns (stopped: bool, found: bool)
      requires AllSound(hr) && HostCoalesce.AllBounded(hr) && 0 < i < |hr| && HostCoalesce.QuietFrom(hr, i + 1)
      modifies this`hr
      ensures AllSound(old(hr)) && AllSound(hr) && HostCoalesce.AllBounded(hr)
      ensures multiset(Expand(hr)) == multiset(Expand(old(hr)))
      ensures stopped <==> !HostCoalesce.Asserted(old(hr)[i - 1], old(hr)[i])
      ensures stopped ==> hr == old(hr)
      ensures !stopped && found ==> hr != [] && HostCoalesce.Lighter(hr, old(hr))
      ensures !stopped && !found ==> HostCoalesce.QuietFrom(hr, i) && HostCoalesce.AsHeavy(hr, old(hr))
      ensures HostCoalesce.Ready(old(hr), w) ==> !stopped && HostCoalesce.Ready(hr, w)
    {
      ghost var was := hr;
      var a, b := hr[i - 1], hr[i];
      stopped := !a.single && !b.single && CmpValue(a, b) > 0;
      if stopped {
        HostCoalesce.ReadyIsAsserted(was, i, w);
        return true, false;
      }
      HostCoalesce.AssertedIsKey(a, b);
      found := CoalesceAt(i);
      if found {
        HostCoalesce.SplitTurnKeeps(was, i, w, hr);
      } else {
        HostCoalesce.StayTurnKeeps(was, i, w, hr);
      }
    }

    // The loop of hostlist_coalesce stops at its assertion, or ends with no neighbours that
    // overlap; all hosts are there in any case.
    method SplitAll(ghost w: string -> nat) returns (stopped: bool)
      requires AllSound(hr) && HostCoalesce.AllBounded(hr)
      modifies this`hr
      ensures AllSound(old(hr)) && AllSound(hr) && HostCoalesce.AllBounded(hr)
      ensures multiset(Expand(hr)) == multiset(Expand(old(hr)))
      ensures stopped ==> exists k :: 0 < k < |hr| && !HostCoalesce.Asserted(hr[k - 1], hr[k])
      ensures !stopped ==> HostCoalesce.QuietFrom(hr, 1)
      ensures HostCoalesce.Ready(old(hr), w) ==> !stopped && HostCoalesce.Ready(hr, w)
    {
      stopped := false;
      var i := |hr| - 1;
      while i > 0
        invariant if hr == [] then i == -1 else 0 <= i < |hr|
        invariant HostCoalesce.AllBounded(hr) && HostCoalesce.QuietFrom(hr, i + 1)
        invariant AllSound(old(hr)) && AllSound(hr) && multiset(Expand(hr)) == multiset(Expand(old(hr)))
        invariant HostCoalesce.Ready(old(hr), w) ==> HostCoalesce.Ready(hr, w)
        decreases HostCoalesce.Lengths(hr), HostCoalesce.Weight(hr), i
      {
        var found;
        stopped, found := CoalesceTurn(i, w);
        if stopped {
          return;
        }
        if found {
          i := |hr|;
        }
        i := i - 1;
      }
    }

    // One turn of the loop of hostlist_collapse.
    method MergeAt(i: nat, ghost w: string -> nat)
      requires AllSound(hr) && 0 < i < |hr|
      modifies this`hr
      ensures AllSound(hr) && i <= |hr| && Expand(hr) == Expand(old(hr))
      ensures Uniform(old(hr), w) ==> Uniform(hr, w)
      ensures Uniform(old(hr), w) && Tidy(old(hr), i + 1) ==> Tidy(hr, i)
    {
      ghost var was := hr;
      if PrefixCmp(hr[i - 1], hr[i]) == 0 && hr[i - 1].hi == Pred(hr[i].lo) {
        var ok, h1, h2 := WidthCombine(hr[i - 1], hr[i]);
        if ok {
          hr := hr[i - 1 := h1.(hi := h2.hi)][i := h2];
          DeleteRange(i);
          CollapseTurn(was, i, w, hr);
        } else if Uniform(was, w) {
          FitsIsCompatible(was[i - 1], was[i], w);
        }
      }
    }

    method Collapse(ghost w: string -> nat)
      requires AllSound(hr)
      modifies this`hr
      ensures AllSound(hr) && Expand(hr) == Expand(old(hr))
      ensures Uniform(old(hr), w) ==> Uniform(hr, w)
      ensures Uniform(old(hr), w) && Tidy(old(hr), |old(hr)|) ==> Tidy(hr, 1)
    {
      var i := |hr| - 1;
      while i > 0
        invariant if hr == [] then i == -1 else 0 <= i < |hr|
        invariant AllSound(hr) && Expand(hr) == Expand(old(hr))
        invariant Uniform(old(hr), w) ==> Uniform(hr, w)
        invariant Uniform(old(hr), w) && Tidy(old(hr), |old(hr)|) ==> Tidy(hr, i + 1)
      {
        MergeAt(i, w);
        i := i - 1;
      }
    }

    method Coalesce(ghost w: string -> nat) returns (stopped: bool)
      requires AllSound(hr) && HostCoalesce.AllBounded(hr)
      modifies this`hr
      ensures AllSound(old(hr)) && AllSound(hr)
      ensures multiset(Expand(hr)) == multiset(Expand(old(hr)))
      ensures stopped ==> exists k :: 0 < k < |hr| && !HostCoalesce.Asserted(hr[k - 1], hr[k])
      ensures HostCoalesce.Ready(old(hr), w) ==> !stopped && Uniform(hr, w) && Tidy(hr, 1)
    {
      stopped := SplitAll(w);
      if !stopped {
        if HostCoalesce.Ready(hr, w) {
          HostCoalesce.QuietIsCalm(hr, 1, w);
        }
        Collapse(w);
      }
    }

    // With a common width per prefix the assertion in hostlist_coalesce holds.
    method Sort(plan: seq<QStep>, ghost w: string -> nat) returns (stopped: bool)
      requires Valid() && HostCoalesce.AllBounded(hr)
      requires Legal(plan, |hr|) && InOrder(QSorted(hr, plan))
      modifies this
      ensures Valid() && nhosts == old(nhosts)
      ensures multiset(Contents()) == multiset(old(Contents()))
      ensures stopped ==> exists k :: 0 < k < |hr| && !HostCoalesce.Asserted(hr[k - 1], hr[k])
      ensures Uniform(old(hr), w) ==>
        !stopped && Uniform(hr, w) && Tidy(hr, 1) && HostSort.Ascending(HostSort.AllHosts(hr))
    {
      if |hr| <= 1 {
        HostSort.TidyIsAscending(hr);
        return false;
      }
      stopped := SortRanges(plan, w);
      SameCensus(Expand(hr), Expand(old(hr)));
      if Uniform(old(hr), w) {
        HostSort.TidyIsAscending(hr);
      }
    }

    method SortRanges(plan: seq<QStep>, ghost w: string -> nat) returns (stopped: bool)
      requires AllSound(hr) && HostCoalesce.AllBounded(hr)
      requires Legal(plan, |hr|) && InOrder(QSorted(hr, plan))
      modifies this`hr
      ensures AllSound(old(hr)) && AllSound(hr)
      ensures multiset(Expand(hr)) == multiset(Expand(old(hr)))
      ensures stopped ==> exists k :: 0 < k < |hr| && !HostCoalesce.Asserted(hr[k - 1], hr[k])
      ensures Uniform(old(hr), w) ==> !stopped && Uniform(hr, w) && Tidy(hr, 1)
    {
      HostSort.QSortIsReady(hr, plan, w);
      QSort(plan);
      stopped := Coalesce(w);
    }
  }
}
