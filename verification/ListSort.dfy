// What list_sort makes of a sequence of items, and why it is a stable sort.

module ListSort {
  import opened Seqs

  // Where x goes among s[..n]: before the first item that is greater. The code
  // looks no further, since it knows that cmp(x, s[n - 1]) < 0.
  function Place<T>(s: seq<T>, x: T, cmp: (T, T) -> int, q: nat): (r: nat)
    requires q < |s| && cmp(x, s[|s| - 1]) < 0
    ensures q <= r < |s| && cmp(x, s[r]) < 0
    ensures forall k | q <= k < r :: cmp(x, s[k]) >= 0
    decreases |s| - q
  {
    if cmp(x, s[q]) < 0 then q else Place(s, x, cmp, q + 1)
  }

  // x goes to its place among the items sorted so far.
  function Placed<T>(done: seq<T>, x: T, cmp: (T, T) -> int): seq<T>
    requires done != []
  {
    if cmp(x, done[|done| - 1]) < 0 then
      var q := Place(done, x, cmp, 0);
      done[..q] + [x] + done[q..]
    else done + [x]
  }

  lemma PlacedBefore<T>(done: seq<T>, x: T, cmp: (T, T) -> int, q: nat)
    requires done != [] && cmp(x, done[|done| - 1]) < 0 && q == Place(done, x, cmp, 0)
    ensures Placed(done, x, cmp) == done[..q] + [x] + done[q..]
  {
  }

  function SortedFrom<T>(done: seq<T>, todo: seq<T>, cmp: (T, T) -> int): seq<T>
    requires done != []
    decreases |todo|
  {
    if todo == [] then done else SortedFrom(Placed(done, todo[0], cmp), todo[1..], cmp)
  }

  function Sorted<T>(s: seq<T>, cmp: (T, T) -> int): seq<T> {
    if |s| <= 1 then s else SortedFrom(s[..1], s[1..], cmp)
  }

  lemma SortedStep<T>(done: seq<T>, x: T, rest: seq<T>, cmp: (T, T) -> int, all: seq<T>)
    requires done != [] && all == SortedFrom(done, [x] + rest, cmp)
    ensures all == SortedFrom(Placed(done, x, cmp), rest, cmp)
  {
    assert ([x] + rest)[1..] == rest;
  }

  // A comparison in the style of strcmp that orders the items: equal items may
  // still differ.
  ghost predicate Orders<T(!new)>(cmp: (T, T) -> int) {
    forall x, y, z :: Ordered(x, y, z, cmp)
  }

  ghost predicate Ordered<T>(x: T, y: T, z: T, cmp: (T, T) -> int) {
    && (cmp(x, y) < 0 <==> cmp(y, x) > 0)
    && (cmp(x, y) <= 0 && cmp(y, z) <= 0 ==> cmp(x, z) <= 0)
  }

  ghost predicate Ascending<T>(s: seq<T>, cmp: (T, T) -> int) {
    forall a, b | 0 <= a < b < |s| :: cmp(s[a], s[b]) <= 0
  }

  // The items that compare equal to x, in their order.
  function Alike<T>(s: seq<T>, x: T, cmp: (T, T) -> int): seq<T> {
    if s == [] then []
    else if cmp(s[0], x) == 0 then [s[0]] + Alike(s[1..], x, cmp)
    else Alike(s[1..], x, cmp)
  }

  lemma {:induction false} AlikeOfSum<T>(s: seq<T>, t: seq<T>, x: T, cmp: (T, T) -> int)
    ensures Alike(s + t, x, cmp) == Alike(s, x, cmp) + Alike(t, x, cmp)
  {
    if s == [] {
      assert s + t == t;
    } else {
      assert (s + t)[1..] == s[1..] + t;
      AlikeOfSum(s[1..], t, x, cmp);
    }
  }

  lemma {:induction false} NoneAlike<T>(s: seq<T>, x: T, cmp: (T, T) -> int)
    requires forall k | 0 <= k < |s| :: cmp(s[k], x) != 0
    ensures Alike(s, x, cmp) == []
  {
    if s != [] {
      NoneAlike(s[1..], x, cmp);
    }
  }

  // An item may pass items that differ from it without a change in any class.
  lemma AlikeOfSwap<T(!new)>(mid: seq<T>, y: T, x: T, cmp: (T, T) -> int)
    requires Orders(cmp) && forall k | 0 <= k < |mid| :: cmp(y, mid[k]) < 0
    ensures Alike([y] + mid, x, cmp) == Alike(mid + [y], x, cmp)
  {
    AlikeOfSum([y], mid, x, cmp);
    AlikeOfSum(mid, [y], x, cmp);
    if cmp(y, x) == 0 {
      forall k | 0 <= k < |mid| ensures cmp(mid[k], x) != 0 {
        assert Ordered(x, y, mid[k], cmp) && Ordered(mid[k], x, y, cmp);
        assert Ordered(y, x, y, cmp) && Ordered(x, mid[k], x, cmp);
        assert Ordered(y, mid[k], x, cmp) && Ordered(mid[k], y, x, cmp);
      }
      NoneAlike(mid, x, cmp);
    } else {
      assert [y][1..] == [];
    }
  }

  // A place splits what is sorted into items not greater than x and greater ones.
  lemma PlaceSplits<T(!new)>(done: seq<T>, x: T, cmp: (T, T) -> int, q: nat)
    requires Orders(cmp) && Ascending(done, cmp) && done != [] && cmp(x, done[|done| - 1]) < 0
    requires q == Place(done, x, cmp, 0)
    ensures forall k | 0 <= k < q :: cmp(done[k], x) <= 0
    ensures forall k | q <= k < |done| :: cmp(x, done[k]) < 0
  {
    forall k | 0 <= k < q ensures cmp(done[k], x) <= 0 {
      assert Ordered(done[k], x, x, cmp) && Ordered(x, done[k], x, cmp);
    }
    forall k | q <= k < |done| ensures cmp(x, done[k]) < 0 {
      assert k > q ==> cmp(done[q], done[k]) <= 0;
      assert Ordered(x, done[q], done[k], cmp) && Ordered(x, done[k], x, cmp) && Ordered(done[q], done[k], x, cmp);
      assert Ordered(done[q], x, x, cmp);
    }
  }

  lemma InsertAscends<T(!new)>(low: seq<T>, x: T, high: seq<T>, cmp: (T, T) -> int)
    requires Orders(cmp) && Ascending(low + high, cmp)
    requires forall k | 0 <= k < |low| :: cmp(low[k], x) <= 0
    requires forall k | 0 <= k < |high| :: cmp(x, high[k]) < 0
    ensures Ascending(low + [x] + high, cmp)
  {
    var s, r := low + high, low + [x] + high;
    forall a, b | 0 <= a < b < |r| ensures cmp(r[a], r[b]) <= 0 {
      if a != |low| && b != |low| {
        var c, d := if a < |low| then a else a - 1, if b < |low| then b else b - 1;
        assert r[a] == s[c] && r[b] == s[d];
      }
    }
  }

  lemma LastAscends<T(!new)>(done: seq<T>, x: T, cmp: (T, T) -> int)
    requires Orders(cmp) && Ascending(done, cmp) && done != [] && cmp(x, done[|done| - 1]) >= 0
    ensures Ascending(done + [x], cmp)
  {
    forall k | 0 <= k < |done| ensures cmp(done[k], x) <= 0 {
      assert k < |done| - 1 ==> cmp(done[k], done[|done| - 1]) <= 0;
      assert Ordered(x, done[|done| - 1], x, cmp) && Ordered(done[|done| - 1], x, x, cmp);
      assert Ordered(done[k], done[|done| - 1], x, cmp);
    }
  }

  lemma PlacedAscends<T(!new)>(done: seq<T>, x: T, cmp: (T, T) -> int)
    requires Orders(cmp) && done != [] && Ascending(done, cmp)
    ensures Ascending(Placed(done, x, cmp), cmp)
  {
    if cmp(x, done[|done| - 1]) < 0 {
      var q := Place(done, x, cmp, 0);
      PlaceSplits(done, x, cmp, q);
      assert done[..q] + done[q..] == done;
      InsertAscends(done[..q], x, done[q..], cmp);
    } else {
      LastAscends(done, x, cmp);
    }
  }

  lemma AlikeOfMove<T(!new)>(low: seq<T>, high: seq<T>, y: T, x: T, cmp: (T, T) -> int)
    requires Orders(cmp) && forall k | 0 <= k < |high| :: cmp(y, high[k]) < 0
    ensures Alike(low + [y] + high, x, cmp) == Alike(low + high + [y], x, cmp)
  {
    AlikeOfSwap(high, y, x, cmp);
    AlikeOfSum(low, [y] + high, x, cmp);
    AlikeOfSum(low, high + [y], x, cmp);
    Associative(low, [y], high);
    Associative(low, high, [y]);
  }

  lemma PlacedIsStable<T(!new)>(done: seq<T>, y: T, cmp: (T, T) -> int, x: T)
    requires Orders(cmp) && done != [] && Ascending(done, cmp)
    ensures Alike(Placed(done, y, cmp), x, cmp) == Alike(done + [y], x, cmp)
  {
    if cmp(y, done[|done| - 1]) < 0 {
      var q := Place(done, y, cmp, 0);
      PlaceSplits(done, y, cmp, q);
      AlikeOfMove(done[..q], done[q..], y, x, cmp);
      assert done[..q] + done[q..] == done;
    }
  }

  lemma PlacedPermutes<T>(done: seq<T>, x: T, cmp: (T, T) -> int)
    requires done != []
    ensures multiset(Placed(done, x, cmp)) == multiset(done) + multiset{x}
  {
    if cmp(x, done[|done| - 1]) < 0 {
      var q := Place(done, x, cmp, 0);
      assert done == done[..q] + done[q..];
    }
  }

  lemma {:induction false} SortedFromPermutes<T>(done: seq<T>, todo: seq<T>, cmp: (T, T) -> int)
    requires done != []
    ensures multiset(SortedFrom(done, todo, cmp)) == multiset(done) + multiset(todo)
    decreases |todo|
  {
    if todo != [] {
      PlacedPermutes(done, todo[0], cmp);
      SortedFromPermutes(Placed(done, todo[0], cmp), todo[1..], cmp);
      assert todo == [todo[0]] + todo[1..];
    }
  }

  lemma {:induction false} SortedFromAscends<T(!new)>(done: seq<T>, todo: seq<T>, cmp: (T, T) -> int)
    requires Orders(cmp) && done != [] && Ascending(done, cmp)
    ensures Ascending(SortedFrom(done, todo, cmp), cmp)
    decreases |todo|
  {
    if todo != [] {
      PlacedAscends(done, todo[0], cmp);
      SortedFromAscends(Placed(done, todo[0], cmp), todo[1..], cmp);
    }
  }

  lemma AlikeThenRest<T>(placed: seq<T>, done: seq<T>, y: T, rest: seq<T>, x: T, cmp: (T, T) -> int)
    requires Alike(placed, x, cmp) == Alike(done + [y], x, cmp)
    ensures Alike(placed + rest, x, cmp) == Alike(done + ([y] + rest), x, cmp)
  {
    AlikeOfSum(placed, rest, x, cmp);
    AlikeOfSum(done + [y], rest, x, cmp);
    Associative(done, [y], rest);
  }

  lemma {:induction false} SortedFromIsStable<T(!new)>(done: seq<T>, todo: seq<T>, cmp: (T, T) -> int, x: T)
    requires Orders(cmp) && done != [] && Ascending(done, cmp)
    ensures Alike(SortedFrom(done, todo, cmp), x, cmp) == Alike(done + todo, x, cmp)
    decreases |todo|
  {
    if todo == [] {
      assert done + todo == done;
    } else {
      var y, rest := todo[0], todo[1..];
      PlacedAscends(done, y, cmp);
      SortedFromIsStable(Placed(done, y, cmp), rest, cmp, x);
      PlacedIsStable(done, y, cmp, x);
      AlikeThenRest(Placed(done, y, cmp), done, y, rest, x, cmp);
      assert [y] + rest == todo;
    }
  }

  // For every comparison that orders the items, list_sort gives all the items, in
  // ascending order, with equal ones in the order they had.
  lemma SortIsStable<T(!new)>(s: seq<T>, cmp: (T, T) -> int)
    requires Orders(cmp)
    ensures Ascending(Sorted(s, cmp), cmp)
    ensures multiset(Sorted(s, cmp)) == multiset(s)
    ensures forall x :: Alike(Sorted(s, cmp), x, cmp) == Alike(s, x, cmp)
  {
    if |s| > 1 {
      assert s == s[..1] + s[1..];
      SortedFromPermutes(s[..1], s[1..], cmp);
      SortedFromAscends(s[..1], s[1..], cmp);
      forall x ensures Alike(Sorted(s, cmp), x, cmp) == Alike(s, x, cmp) {
        SortedFromIsStable(s[..1], s[1..], cmp, x);
      }
    }
  }
}
