// What the operations of a list do to its items, said of the items themselves.

module ListEffects {
  import opened ListRuns
  import opened ListSpec
  import opened Seqs

  // ----- one operation ---------------------------------------------------------------

  lemma PutInEffects<T, I>(v: View<T, I>, x: T)
    requires v.Valid()
    ensures Apply(v, Op.Append(x)).items == v.items + [x]
    ensures Apply(v, Op.Prepend(x)).items == [x] + v.items
  {
  }

  lemma PopEffect<T, I>(v: View<T, I>)
    requires v.Valid()
    ensures Apply(v, Op<T, I>.Pop).items == if v.items == [] then [] else v.items[1..]
  {
  }

  // An iterator inserts at the cell it calls prev.
  lemma InsertEffect<T, I>(v: View<T, I>, i: I, x: T)
    requires v.Valid() && i in v.cursors
    ensures var prev := v.cursors[i].prev;
      prev <= |v.items| && Apply(v, Op.Insert(i, x)).items == v.items[..prev] + [x] + v.items[prev..]
  {
    assert v.cursors[i].Valid(|v.items|);
  }

  // It removes there, too, unless that cell holds the node it has come to.
  lemma DeleteEffect<T, I>(v: View<T, I>, i: I)
    requires v.Valid() && i in v.cursors
    ensures var c := v.cursors[i];
      if c.prev == c.pos then Apply(v, Op<T, I>.Delete(i)).items == v.items
      else c.prev < |v.items| && Apply(v, Op<T, I>.Delete(i)).items == v.items[..c.prev] + v.items[c.prev + 1..]
  {
    assert v.cursors[i].Valid(|v.items|);
  }

  // The item `out`, if any, was the j-th and is out of the list; nothing else happened.
  predicate TakenOut<T(==)>(items: seq<T>, j: nat, out: Option<T>, left: seq<T>) {
    if out.Some? then j < |items| && out.value == items[j] && left == items[..j] + items[j + 1..] else left == items
  }

  // What list_remove returns is the item it takes out.
  lemma RemoveMeans<T, I>(v: View<T, I>, i: I, out: Option<T>)
    requires v.Valid() && i in v.cursors && v.cursors[i].prev <= |v.items|
    requires out == if v.cursors[i].prev == v.cursors[i].pos then None else v.At(v.cursors[i].prev)
    ensures var j := v.cursors[i].prev; var left := Apply(v, Op<T, I>.Delete(i));
      && left == (if j == v.cursors[i].pos then v else v.Remove(j)) && TakenOut(v.items, j, out, left.items)
      && (out.None? <==> j == v.cursors[i].pos)
  {
    DeleteEffect(v, i);
  }

  lemma NextIsAdvance<T, I>(v: View<T, I>, i: I)
    requires v.Valid() && i in v.cursors
    ensures Apply(v, Op<T, I>.Next(i)) == v.Advance(i)
  {
  }

  // The others only move iterators: a new one and one that is reset stand before the first
  // item, and one that returns an item stands behind it.
  lemma MovingEffects<T, I>(v: View<T, I>, i: I)
    requires v.Valid()
    ensures i !in v.cursors ==> Apply(v, Op<T, I>.Create(i)) == v.(cursors := v.cursors[i := Cursor(0, 0)])
    ensures i in v.cursors ==>
      && Apply(v, Op<T, I>.Reset(i)) == v.(cursors := v.cursors[i := Cursor(0, 0)])
      && Apply(v, Op<T, I>.Next(i)).items == v.items
      && (v.cursors[i].pos < |v.items| ==>
            Apply(v, Op<T, I>.Next(i)).cursors == v.cursors[i := Cursor(v.cursors[i].pos, v.cursors[i].pos + 1)])
  {
    assert i in v.cursors ==> v.cursors[i].Valid(|v.items|);
  }

  lemma {:induction false} OthersOfSum<T>(s: seq<T>, t: seq<T>, f: T -> bool)
    ensures Others(s + t, f) == Others(s, f) + Others(t, f)
  {
    if s == [] {
      assert s + t == t;
    } else {
      assert (s + t)[1..] == s[1..] + t;
      OthersOfSum(s[1..], t, f);
    }
  }

  lemma {:induction false} OthersCount<T>(s: seq<T>, f: T -> bool, x: T)
    ensures multiset(Others(s, f))[x] == if f(x) then 0 else multiset(s)[x]
  {
    if s != [] {
      OthersCount(s[1..], f, x);
      assert s == [s[0]] + s[1..];
    }
  }

  // Deleting takes out each item that f picks, as often as it is there, and no other; and
  // of items before others it leaves what it would of each (OthersOfSum), so the order stays.
  lemma DeleteAllEffect<T, I>(v: View<T, I>, f: T -> bool, x: T)
    requires v.Valid()
    ensures multiset(Apply(v, Op<T, I>.DeleteAll(f)).items)[x] == if f(x) then 0 else multiset(v.items)[x]
  {
    DeleteAllLeavesOthers(v, 0, f);
    assert v.items[0..] == v.items && v.items[..0] + Others(v.items, f) == Others(v.items, f);
    OthersCount(v.items, f, x);
  }

  // ----- after list_next -----------------------------------------------------------------

  // Where `w` is what list_next leaves that has returned item j: list_remove takes out that
  // item, once; list_insert puts an item right before it, and list_remove still takes
  // out the item that was returned.
  lemma AfterNext<T, I>(v: View<T, I>, i: I, j: nat, x: T, w: View<T, I>)
    requires v.Valid() && i in v.cursors && j == v.cursors[i].pos < |v.items| && w == Apply(v, Op.Next(i))
    ensures w.Valid() && i in w.cursors
    ensures var gone := Apply(w, Op<T, I>.Delete(i));
      && gone.Valid() && i in gone.cursors
      && gone.items == v.items[..j] + v.items[j + 1..]
      && Apply(gone, Op<T, I>.Delete(i)) == gone
    ensures var more := Apply(w, Op.Insert(i, x));
      && more.Valid() && i in more.cursors
      && more.items == v.items[..j] + [x] + v.items[j..]
      && Apply(more, Op<T, I>.Delete(i)).items == v.items[..j] + [x] + v.items[j + 1..]
  {
    MovingEffects(v, i);
    NextStands(v, i, j, w);
    RemovedOnce(w, i, j);
    PutBefore(w, i, j, x);
  }

  lemma NextStands<T, I>(v: View<T, I>, i: I, j: nat, w: View<T, I>)
    requires v.Valid() && i in v.cursors && j == v.cursors[i].pos < |v.items| && w == Apply(v, Op.Next(i))
    ensures w.Valid() && w.items == v.items && i in w.cursors && w.cursors[i] == Cursor(j, j + 1)
  {
    assert v.cursors[i].Valid(|v.items|);
    ApplyKeepsValid(v, Op<T, I>.Next(i));
  }

  lemma RemovedOnce<T, I>(w: View<T, I>, i: I, j: nat)
    requires w.Valid() && i in w.cursors && w.cursors[i] == Cursor(j, j + 1) && j < |w.items|
    ensures var gone := Apply(w, Op<T, I>.Delete(i));
      && gone.Valid() && i in gone.cursors && gone.items == w.items[..j] + w.items[j + 1..]
      && Apply(gone, Op<T, I>.Delete(i)) == gone
  {
    ApplyKeepsValid(w, Op<T, I>.Delete(i));
    assert w.cursors[i].Removed(j) == Cursor(j, j);
  }

  lemma PutBefore<T, I>(w: View<T, I>, i: I, j: nat, x: T)
    requires w.Valid() && i in w.cursors && w.cursors[i] == Cursor(j, j + 1) && j < |w.items|
    ensures var more := Apply(w, Op.Insert(i, x));
      && more.Valid() && i in more.cursors && more.items == w.items[..j] + [x] + w.items[j..]
      && Apply(more, Op<T, I>.Delete(i)).items == w.items[..j] + [x] + w.items[j + 1..]
  {
    ApplyKeepsValid(w, Op.Insert(i, x));
    var more := Apply(w, Op.Insert(i, x));
    assert more.cursors[i] == Cursor(j + 1, j + 2);
    CutBehind(w.items, j, x, more.items);
  }

  lemma CutBehind<T>(items: seq<T>, j: nat, x: T, more: seq<T>)
    requires j < |items| && more == items[..j] + [x] + items[j..]
    ensures more[..j + 1] + more[j + 2..] == items[..j] + [x] + items[j + 1..]
  {
  }

  // ----- runs ---------------------------------------------------------------------------------

  // The item that an operation takes out of the list and hands to its caller.
  predicate HandsOut<T(==), I(==)>(v: View<T, I>, op: Op<T, I>, x: T)
    requires Allowed(v, op)
  {
    match op
    case Pop => v.items != [] && v.items[0] == x
    case Delete(i) =>
      v.cursors[i].prev != v.cursors[i].pos && v.cursors[i].prev < |v.items| && v.items[v.cursors[i].prev] == x
    case _ => false
  }

  lemma CutIsGone<T>(items: seq<T>, j: nat, fewer: seq<T>)
    requires Distinct(items) && j < |items|
    requires fewer == items[..j] + items[j + 1..] || (j == 0 && fewer == items[1..])
    ensures items[j] !in fewer
  {
    assert j == 0 ==> items[..j] + items[j + 1..] == items[1..];
    CutElements(items, j, fewer);
    assert items[j] !in Elements(fewer);
  }

  lemma PoppedIsGone<T, I>(v: View<T, I>)
    requires v.Valid() && Distinct(v.items) && v.items != []
    ensures v.items[0] !in Apply(v, Op<T, I>.Pop).items
  {
    PopEffect(v);
    CutIsGone(v.items, 0, v.items[1..]);
  }

  lemma DeletedIsGone<T, I>(v: View<T, I>, i: I)
    requires v.Valid() && i in v.cursors && Distinct(v.items) && v.cursors[i].prev != v.cursors[i].pos
    ensures v.cursors[i].prev < |v.items| && v.items[v.cursors[i].prev] !in Apply(v, Op<T, I>.Delete(i)).items
  {
    var j := v.cursors[i].prev;
    DeleteEffect(v, i);
    CutIsGone(v.items, j, v.items[..j] + v.items[j + 1..]);
  }

  lemma HandedOutIsGone<T, I>(v: View<T, I>, op: Op<T, I>, x: T)
    requires v.Valid() && Allowed(v, op) && Distinct(v.items) && HandsOut(v, op, x)
    ensures x in v.items && x !in Apply(v, op).items
  {
    if op.Pop? {
      PoppedIsGone(v);
    } else {
      DeletedIsGone(v, op.i);
    }
  }

  // An item that list_pop or list_remove hands out, by whatever iterator, is out of the
  // list after that, and no iterator returns it again, whatever anybody does then.
  lemma HandedOutStaysOut<T, I>(a: Account<T, I>, op: Op<T, I>, x: T, ops: seq<Op<T, I>>, me: I, end: Account<T, I>)
    requires FairAccount(a, me) && Fits(a, op, me) && HandsOut(a.view, op, x)
    requires Runs(After(a, op, me), ops, me, end)
    ensures x !in After(a, op, me).view.items && x !in end.view.items
    ensures a.returned <= end.returned && x !in end.returned[|a.returned|..]
  {
    var b := After(a, op, me);
    AfterIsFair(a, op, me);
    HandedOutIsGone(a.view, op, x);
    assert x in Elements(a.view.items);
    RemovedIsNotReturned(b, ops, me, end, x);
    assert b.returned == a.returned;
  }
}
