// Iterators over whole runs: what list_next returns while anybody changes the list.

module ListRuns {
  import opened ListSpec
  import opened Seqs

  function Keep<T(==)>(s: seq<T>, kept: set<T>): (r: seq<T>) {
    if s == [] then []
    else if s[0] in kept then [s[0]] + Keep(s[1..], kept)
    else Keep(s[1..], kept)
  }

  lemma {:induction false} KeepOfSum<T>(s: seq<T>, t: seq<T>, kept: set<T>)
    ensures Keep(s + t, kept) == Keep(s, kept) + Keep(t, kept)
  {
    if s == [] {
      assert s + t == t;
    } else {
      assert (s + t)[1..] == s[1..] + t;
      KeepOfSum(s[1..], t, kept);
    }
  }

  lemma {:induction false} KeepAgrees<T>(s: seq<T>, kept: set<T>, other: set<T>)
    requires forall x | x in s :: x in kept <==> x in other
    ensures Keep(s, kept) == Keep(s, other)
  {
    if s != [] {
      KeepAgrees(s[1..], kept, other);
    }
  }

  lemma {:induction false} KeepTwice<T>(s: seq<T>, kept: set<T>, other: set<T>)
    ensures Keep(Keep(s, kept), other) == Keep(s, kept * other)
  {
    if s != [] {
      KeepTwice(s[1..], kept, other);
      if s[0] in kept {
        assert Keep(s, kept)[1..] == Keep(s[1..], kept);
      }
    }
  }

  lemma {:induction false} KeepAll<T>(s: seq<T>, kept: set<T>)
    requires forall x | x in s :: x in kept
    ensures Keep(s, kept) == s
  {
    if s != [] {
      KeepAll(s[1..], kept);
    }
  }

  lemma {:induction false} KeepMembers<T>(s: seq<T>, kept: set<T>)
    ensures forall x :: x in Keep(s, kept) <==> x in s && x in kept
  {
    if s != [] {
      KeepMembers(s[1..], kept);
    }
  }

  // ----- one iterator's account of a run -----------------------------------------

  // `due`: the items in the list when the iterator started, and those put in ahead
  // of it since; `ever`: all items so far; `returned`: what list_next gave.
  datatype Account<T(==), I(==)> = Account(view: View<T, I>, due: set<T>, ever: set<T>, returned: seq<T>)

  function Added<T, I(==)>(v: View<T, I>, op: Op<T, I>): Option<(T, nat)>
    requires Allowed(v, op)
  {
    match op
    case Append(x) => Some((x, |v.items|))
    case Prepend(x) => Some((x, 0))
    case Insert(i, x) => Some((x, v.cursors[i].prev))
    case _ => None
  }

  // The operations a run is made of: every item put in is a new one, and nobody
  // resets the iterator itself.
  predicate Fits<T(==), I(==)>(a: Account<T, I>, op: Op<T, I>, me: I) {
    && Allowed(a.view, op)
    && (op.Reset? ==> op.i != me)
    && (Added(a.view, op).Some? ==> Added(a.view, op).value.0 !in a.ever)
  }

  function After<T(==), I(==)>(a: Account<T, I>, op: Op<T, I>, me: I): Account<T, I>
    requires a.view.Valid() && me in a.view.cursors && Fits(a, op, me)
  {
    var added := Added(a.view, op);
    var given := if op == Op.Next(me) then a.view.At(a.view.cursors[me].pos) else None;
    Account(Apply(a.view, op),
            if added.Some? && a.view.cursors[me].Ahead(added.value.1) then a.due + {added.value.0} else a.due,
            if added.Some? then a.ever + {added.value.0} else a.ever,
            if given.Some? then a.returned + [given.value] else a.returned)
  }

  ghost predicate Runs<T, I>(a: Account<T, I>, ops: seq<Op<T, I>>, me: I, end: Account<T, I>)
    decreases |ops|
  {
    if ops == [] then a == end
    else a.view.Valid() && me in a.view.cursors && Fits(a, ops[0], me) && Runs(After(a, ops[0], me), ops[1..], me, end)
  }

  // ----- the invariant --------------------------------------------------------------

  // Of what was returned, the items still in the list are those due before the
  // iterator, in the list's order; all those after it are due and not yet returned.
  ghost predicate Fair<T>(items: seq<T>, cur: Cursor, due: set<T>, ever: set<T>, returned: seq<T>) {
    && cur.Valid(|items|)
    && Distinct(items) && Distinct(returned)
    && Elements(items) <= ever && due <= ever && Elements(returned) <= ever
    && (forall y | y in items[cur.pos..] :: y in due && y !in returned)
    && Keep(returned, Elements(items)) == Keep(items[..cur.pos], due)
  }

  lemma AdvanceIsFair<T>(items: seq<T>, cur: Cursor, due: set<T>, ever: set<T>, returned: seq<T>)
    requires Fair(items, cur, due, ever, returned) && cur.pos < |items|
    ensures Fair(items, cur.Advanced(|items|), due, ever, returned + [items[cur.pos]])
  {
    var x := items[cur.pos];
    KeepOfSum(returned, [x], Elements(items));
    KeepOfSum(items[..cur.pos], [x], due);
    assert items[..cur.pos] + [x] == items[..cur.pos + 1];
    assert [x][1..] == [];
  }

  // Putting x at j puts it before the iterator or after it.
  lemma InsertKeep<T>(items: seq<T>, pos: nat, due: set<T>, j: nat, x: T, more: seq<T>)
    requires j <= pos <= |items| && x !in due && more == items[..j] + [x] + items[j..]
    ensures Keep(more[..pos + 1], due) == Keep(items[..pos], due)
  {
    assert more[..pos + 1] == (items[..j] + [x]) + items[j..pos];
    KeepOfSum(items[..j] + [x], items[j..pos], due);
    KeepOfSum(items[..j], [x], due);
    KeepOfSum(items[..j], items[j..pos], due);
    assert items[..j] + items[j..pos] == items[..pos];
    assert [x][1..] == [];
  }

  lemma InsertElements<T>(items: seq<T>, j: nat, x: T, more: seq<T>)
    requires j <= |items| && more == items[..j] + [x] + items[j..]
    requires Distinct(items) && x !in items
    ensures Distinct(more) && Elements(more) == Elements(items) + {x}
  {
    assert items == items[..j] + items[j..];
    assert forall k | 0 <= k < |more| :: more[k] == if k < j then items[k] else if k == j then x else items[k - 1];
  }

  lemma InsertAheadIsFair<T>(items: seq<T>, cur: Cursor, due: set<T>, ever: set<T>, returned: seq<T>, j: nat,
      x: T, more: seq<T>)
    requires Fair(items, cur, due, ever, returned) && j <= |items| && x !in ever
    requires more == items[..j] + [x] + items[j..] && cur.Ahead(j)
    ensures Fair(more, cur.Inserted(j), due + {x}, ever + {x}, returned)
  {
    var pos := cur.pos;
    assert x !in Elements(items) && x !in Elements(returned);
    InsertElements(items, j, x, more);
    KeepAgrees(returned, Elements(items), Elements(more));
    assert more[..pos] == items[..pos];
    assert forall y | y in items[..pos] :: y in Elements(items);
    KeepAgrees(items[..pos], due, due + {x});
    assert more[pos..] == items[pos..j] + [x] + items[j..];
    assert items[pos..] == items[pos..j] + items[j..];
  }

  lemma InsertBehindIsFair<T>(items: seq<T>, cur: Cursor, due: set<T>, ever: set<T>, returned: seq<T>, j: nat,
      x: T, more: seq<T>)
    requires Fair(items, cur, due, ever, returned) && j <= |items| && x !in ever
    requires more == items[..j] + [x] + items[j..] && !cur.Ahead(j)
    ensures Fair(more, cur.Inserted(j), due, ever + {x}, returned)
  {
    var pos := cur.pos;
    assert x !in Elements(items) && x !in Elements(returned);
    InsertElements(items, j, x, more);
    KeepAgrees(returned, Elements(items), Elements(more));
    InsertKeep(items, pos, due, j, x, more);
    assert more[pos + 1..] == items[pos..];
  }

  lemma CutElements<T>(items: seq<T>, j: nat, fewer: seq<T>)
    requires Distinct(items) && j < |items| && fewer == items[..j] + items[j + 1..]
    ensures Distinct(fewer) && Elements(fewer) == Elements(items) - {items[j]}
  {
    assert items == items[..j] + [items[j]] + items[j + 1..];
    assert forall k | 0 <= k < |fewer| :: fewer[k] == if k < j then items[k] else items[k + 1];
  }

  lemma CutKeep<T>(items: seq<T>, j: nat, pos: nat, less: set<T>)
    requires Distinct(items) && j < |items| && pos <= |items| && less == Elements(items) - {items[j]}
    ensures Keep(items[..pos], less) == if j < pos then items[..j] + items[j + 1..pos] else items[..pos]
  {
    if j < pos {
      assert items[..pos] == (items[..j] + [items[j]]) + items[j + 1..pos];
      KeepOfSum(items[..j] + [items[j]], items[j + 1..pos], less);
      KeepOfSum(items[..j], [items[j]], less);
      KeepAll(items[..j], less);
      KeepAll(items[j + 1..pos], less);
      assert [items[j]][1..] == [];
    } else {
      KeepAll(items[..pos], less);
    }
  }

  lemma RemoveKeep<T>(returned: seq<T>, s: seq<T>, due: set<T>, all: set<T>, less: set<T>, cut: seq<T>)
    requires Keep(returned, all) == Keep(s, due) && less <= all && cut == Keep(s, less)
    ensures Keep(returned, less) == Keep(cut, due)
  {
    KeepTwice(returned, all, less);
    assert all * less == less;
    KeepTwice(s, due, less);
    KeepTwice(s, less, due);
    assert due * less == less * due;
  }

  lemma RemoveIsFair<T>(items: seq<T>, cur: Cursor, due: set<T>, ever: set<T>, returned: seq<T>, j: nat, fewer: seq<T>)
    requires Fair(items, cur, due, ever, returned) && j < |items|
    requires fewer == items[..j] + items[j + 1..]
    ensures Fair(fewer, cur.Removed(j), due, ever, returned)
  {
    var pos, later := cur.pos, cur.Removed(j).pos;
    var less := Elements(items) - {items[j]};
    CutElements(items, j, fewer);
    assert Keep(returned, less) == Keep(fewer[..later], due) by {
      CutKeep(items, j, pos, less);
      assert fewer[..later] == if j < pos then items[..j] + items[j + 1..pos] else items[..pos];
      RemoveKeep(returned, items[..pos], due, Elements(items), less, fewer[..later]);
    }
    assert forall y | y in fewer[later..] :: y in items[pos..] by {
      if j < pos {
        assert fewer[later..] == items[pos..];
      } else {
        assert fewer[later..] == items[pos..j] + items[j + 1..];
      }
    }
  }

  ghost predicate FairAccount<T, I>(a: Account<T, I>, me: I) {
    && a.view.Valid() && me in a.view.cursors
    && Fair(a.view.items, a.view.cursors[me], a.due, a.ever, a.returned)
  }

  lemma {:induction false} DeleteAllIsFair<T, I>(v: View<T, I>, me: I, due: set<T>, ever: set<T>, returned: seq<T>,
      j: nat, f: T -> bool)
    requires v.Valid() && me in v.cursors && Fair(v.items, v.cursors[me], due, ever, returned) && j <= |v.items|
    ensures var w := v.DeleteAll(j, f); me in w.cursors && Fair(w.items, w.cursors[me], due, ever, returned)
    decreases |v.items| - j
  {
    if j < |v.items| {
      if f(v.items[j]) {
        RemoveKeepsValid(v, j);
        RemoveIsFair(v.items, v.cursors[me], due, ever, returned, j, v.Remove(j).items);
        DeleteAllIsFair(v.Remove(j), me, due, ever, returned, j, f);
      } else {
        DeleteAllIsFair(v, me, due, ever, returned, j + 1, f);
      }
    }
  }

  lemma AddIsFair<T, I>(a: Account<T, I>, me: I, j: nat, x: T)
    requires FairAccount(a, me) && j <= |a.view.items| && x !in a.ever
    ensures var w := a.view.Insert(j, x);
      Fair(w.items, w.cursors[me], if a.view.cursors[me].Ahead(j) then a.due + {x} else a.due, a.ever + {x}, a.returned)
  {
    var cur, more := a.view.cursors[me], a.view.Insert(j, x).items;
    if cur.Ahead(j) {
      InsertAheadIsFair(a.view.items, cur, a.due, a.ever, a.returned, j, x, more);
    } else {
      InsertBehindIsFair(a.view.items, cur, a.due, a.ever, a.returned, j, x, more);
    }
  }

  lemma AfterIsFair<T, I>(a: Account<T, I>, op: Op<T, I>, me: I)
    requires FairAccount(a, me) && Fits(a, op, me)
    ensures FairAccount(After(a, op, me), me)
  {
    var v := a.view;
    ApplyKeepsValid(v, op);
    match op
    case Append(x) => AddIsFair(a, me, |v.items|, x);
    case Prepend(x) => AddIsFair(a, me, 0, x);
    case Insert(i, x) => AddIsFair(a, me, v.cursors[i].prev, x);
    case Pop =>
      if v.items != [] {
        RemoveIsFair(v.items, v.cursors[me], a.due, a.ever, a.returned, 0, v.Remove(0).items);
      }
    case Delete(i) =>
      var j := v.cursors[i].prev;
      if j != v.cursors[i].pos {
        assert v.cursors[i].Valid(|v.items|);
        RemoveIsFair(v.items, v.cursors[me], a.due, a.ever, a.returned, j, v.Remove(j).items);
      }
    case DeleteAll(f) => DeleteAllIsFair(v, me, a.due, a.ever, a.returned, 0, f);
    case Next(i) =>
      if i == me && v.cursors[me].pos < |v.items| {
        AdvanceIsFair(v.items, v.cursors[me], a.due, a.ever, a.returned);
      }
    case _ =>
  }

  lemma {:induction false} RunsAreFair<T, I>(a: Account<T, I>, ops: seq<Op<T, I>>, me: I, end: Account<T, I>)
    requires FairAccount(a, me) && Runs(a, ops, me, end)
    ensures FairAccount(end, me)
    decreases |ops|
  {
    if ops != [] {
      AfterIsFair(a, ops[0], me);
      RunsAreFair(After(a, ops[0], me), ops[1..], me, end);
    }
  }

  // ----- the main results ---------------------------------------------------------------

  // The iterator is at the start, and all items differ.
  ghost predicate Fresh<T, I>(a: Account<T, I>, me: I) {
    && a.view.Valid() && me in a.view.cursors && a.view.cursors[me] == START && Distinct(a.view.items)
    && a.due == Elements(a.view.items) && a.ever == a.due && a.returned == []
  }

  lemma FreshIsFair<T, I>(a: Account<T, I>, me: I)
    requires Fresh(a, me)
    ensures FairAccount(a, me)
  {
    assert a.view.items[..0] == [];
    assert START.Valid(|a.view.items|);
  }

  // However anyone else appends, prepends, inserts, removes and deletes, an
  // iterator at the end has returned, of the items now in the list, exactly those
  // that were there at the start or put in ahead of it, once each and in order.
  lemma IteratorReturnsWhatIsDue<T, I>(a: Account<T, I>, ops: seq<Op<T, I>>, me: I, end: Account<T, I>)
    requires Fresh(a, me) && Runs(a, ops, me, end)
    requires me in end.view.cursors && end.view.cursors[me].pos == |end.view.items|
    ensures Distinct(end.returned)
    ensures Keep(end.returned, Elements(end.view.items)) == Keep(end.view.items, end.due)
    ensures forall x | x in a.view.items && x in end.view.items :: x in end.returned
  {
    FreshIsFair(a, me);
    RunsAreFair(a, ops, me, end);
    RunsKeepDue(a, ops, me, end);
    assert end.view.items[..|end.view.items|] == end.view.items;
    KeepMembers(end.returned, Elements(end.view.items));
    KeepMembers(end.view.items, end.due);
    assert forall x | x in a.view.items :: x in end.due;
  }

  lemma {:induction false} RunsKeepDue<T, I>(a: Account<T, I>, ops: seq<Op<T, I>>, me: I, end: Account<T, I>)
    requires Runs(a, ops, me, end)
    ensures a.due <= end.due && a.ever <= end.ever && a.returned <= end.returned
    decreases |ops|
  {
    if ops != [] {
      RunsKeepDue(After(a, ops[0], me), ops[1..], me, end);
    }
  }

  // An item that is out of the list is never returned from then on.
  lemma {:induction false} RemovedIsNotReturned<T, I>(a: Account<T, I>, ops: seq<Op<T, I>>, me: I,
      end: Account<T, I>, x: T)
    requires FairAccount(a, me) && Runs(a, ops, me, end)
    requires x in a.ever && x !in a.view.items
    ensures x !in end.view.items
    ensures a.returned <= end.returned && x !in end.returned[|a.returned|..]
    decreases |ops|
  {
    if ops != [] {
      var b := After(a, ops[0], me);
      AfterIsFair(a, ops[0], me);
      GoneStaysGone(a, ops[0], me, x);
      RemovedIsNotReturned(b, ops[1..], me, end, x);
      assert end.returned[|a.returned|..] == b.returned[|a.returned|..] + end.returned[|b.returned|..];
    }
  }

  lemma GoneStaysGone<T, I>(a: Account<T, I>, op: Op<T, I>, me: I, x: T)
    requires FairAccount(a, me) && Fits(a, op, me) && x in a.ever && x !in a.view.items
    ensures x !in After(a, op, me).view.items && x in After(a, op, me).ever
  {
    if op.DeleteAll? {
      DeleteAllIsSubset(a.view, 0, op.f, x);
    }
  }

  lemma {:induction false} DeleteAllIsSubset<T, I>(v: View<T, I>, j: nat, f: T -> bool, x: T)
    requires j <= |v.items| && x !in v.items
    ensures x !in v.DeleteAll(j, f).items
    decreases |v.items| - j
  {
    if j < |v.items| {
      DeleteAllIsSubset(if f(v.items[j]) then v.Remove(j) else v, if f(v.items[j]) then j else j + 1, f, x);
    }
  }

  // An item put in at the end is ahead of an iterator exactly until list_next has
  // returned NULL: after the last item, but not after the NULL that follows it.
  lemma AppendIsAhead<T, I>(v: View<T, I>, i: I)
    requires v.Valid() && i in v.cursors
    ensures v.cursors[i].Ahead(|v.items|) <==> v.cursors[i].prev < |v.items|
    ensures !v.Advance(i).cursors[i].Ahead(|v.items|) <==> v.At(v.cursors[i].pos).None?
  {
  }
}
