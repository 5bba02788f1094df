// Runs in which an item is put in more than once: every putting in gets a number, so
// that the account of such a run is that of a run in which all items differ.

module ListTags {
  import opened ListRuns
  import opened ListSpec
  import opened Seqs

  datatype Tagged<T> = Tagged(item: T, id: nat)

  function Items<T>(s: seq<Tagged<T>>): (r: seq<T>)
    ensures |r| == |s| && forall k | 0 <= k < |r| :: r[k] == s[k].item
  {
    seq(|s|, k requires 0 <= k < |s| => s[k].item)
  }

  function Plain<T, I(==)>(v: View<Tagged<T>, I>): View<T, I> {
    View(Items(v.items), v.cursors)
  }

  function OnItem<T>(f: T -> bool): Tagged<T> -> bool {
    (t: Tagged<T>) => f(t.item)
  }

  // The operation, if what it puts in gets the number id.
  function WithTag<T, I>(op: Op<T, I>, id: nat): Op<Tagged<T>, I> {
    match op
    case Append(x) => Op.Append(Tagged(x, id))
    case Prepend(x) => Op.Prepend(Tagged(x, id))
    case Pop => Op.Pop
    case DeleteAll(f) => Op.DeleteAll(OnItem(f))
    case Create(i) => Op.Create(i)
    case Reset(i) => Op.Reset(i)
    case Next(i) => Op.Next(i)
    case Insert(i, x) => Op.Insert(i, Tagged(x, id))
    case Delete(i) => Op.Delete(i)
  }

  lemma {:induction false} DeleteAllPlain<T, I>(v: View<Tagged<T>, I>, j: nat, f: T -> bool)
    requires j <= |v.items|
    ensures Plain(v.DeleteAll(j, OnItem(f))) == Plain(v).DeleteAll(j, f)
    decreases |v.items| - j
  {
    if j < |v.items| {
      if f(v.items[j].item) {
        RemovePlain(v, j);
        DeleteAllPlain(v.Remove(j), j, f);
      } else {
        DeleteAllPlain(v, j + 1, f);
      }
    }
  }

  lemma InsertPlain<T, I>(v: View<Tagged<T>, I>, j: nat, t: Tagged<T>)
    requires j <= |v.items|
    ensures Plain(v.Insert(j, t)) == Plain(v).Insert(j, t.item)
  {
    assert Plain(v.Insert(j, t)).items == Plain(v).Insert(j, t.item).items;
  }

  lemma RemovePlain<T, I>(v: View<Tagged<T>, I>, j: nat)
    requires j <= |v.items|
    ensures Plain(v.Remove(j)) == Plain(v).Remove(j)
  {
    if j < |v.items| {
      assert Plain(v.Remove(j)).items == Plain(v).Remove(j).items;
    }
  }

  lemma PlainIsValid<T, I>(v: View<Tagged<T>, I>)
    requires v.Valid()
    ensures Plain(v).Valid()
  {
    forall i | i in v.cursors ensures v.cursors[i].Valid(|v.items|) {
    }
  }

  // No operation looks at the numbers.
  lemma ApplyPlain<T, I>(v: View<Tagged<T>, I>, op: Op<T, I>, id: nat)
    requires v.Valid() && Allowed(Plain(v), op)
    ensures Plain(v).Valid() && Allowed(v, WithTag(op, id))
    ensures Plain(Apply(v, WithTag(op, id))) == Apply(Plain(v), op)
  {
    PlainIsValid(v);
    match op
    case Append(x) => InsertPlain(v, |v.items|, Tagged(x, id));
    case Prepend(x) => InsertPlain(v, 0, Tagged(x, id));
    case Pop => RemovePlain(v, 0);
    case DeleteAll(f) => DeleteAllPlain(v, 0, f);
    case Insert(i, x) => InsertPlain(v, v.cursors[i].prev, Tagged(x, id));
    case Delete(i) => RemovePlain(v, v.cursors[i].prev);
    case _ =>
  }

  // ----- a run and what it returns --------------------------------------------------

  predicate CanRun<T, I(==)>(v: View<T, I>, ops: seq<Op<T, I>>, me: I)
    decreases |ops|
  {
    ops != [] ==>
      && v.Valid() && me in v.cursors && Allowed(v, ops[0]) && (ops[0].Reset? ==> ops[0].i != me)
      && CanRun(Apply(v, ops[0]), ops[1..], me)
  }

  function AfterRun<T, I(==)>(v: View<T, I>, ops: seq<Op<T, I>>, me: I): View<T, I>
    requires CanRun(v, ops, me)
    decreases |ops|
  {
    if ops == [] then v else AfterRun(Apply(v, ops[0]), ops[1..], me)
  }

  // What one operation makes list_next return to the iterator.
  function Given<T, I(==)>(v: View<T, I>, op: Op<T, I>, me: I): seq<T>
    requires v.Valid() && me in v.cursors
  {
    if op.Next? && op.i == me && v.cursors[me].pos < |v.items| then [v.items[v.cursors[me].pos]] else []
  }

  function Returned<T, I(==)>(v: View<T, I>, ops: seq<Op<T, I>>, me: I): seq<T>
    requires CanRun(v, ops, me)
    decreases |ops|
  {
    if ops == [] then [] else Given(v, ops[0], me) + Returned(Apply(v, ops[0]), ops[1..], me)
  }

  // ----- the same run with numbers ----------------------------------------------------

  function WithTags<T, I>(ops: seq<Op<T, I>>, id: nat): seq<Op<Tagged<T>, I>> {
    if ops == [] then [] else [WithTag(ops[0], id)] + WithTags(ops[1..], id + 1)
  }

  lemma AfterPlain<T, I>(a: Account<Tagged<T>, I>, op: Op<T, I>, me: I, id: nat)
    requires a.view.Valid() && me in a.view.cursors && Allowed(Plain(a.view), op) && (op.Reset? ==> op.i != me)
    requires forall t | t in a.ever :: t.id < id
    ensures Fits(a, WithTag(op, id), me)
    ensures var b := After(a, WithTag(op, id), me);
      && b.view.Valid() && me in b.view.cursors && (forall t | t in b.ever :: t.id < id + 1)
      && Items(b.returned) == Items(a.returned) + Given(Plain(a.view), op, me)
  {
    ApplyPlain(a.view, op, id);
    ApplyKeepsValid(a.view, WithTag(op, id));
  }

  lemma {:induction false} TaggedRun<T, I>(a: Account<Tagged<T>, I>, ops: seq<Op<T, I>>, me: I, id: nat)
      returns (end: Account<Tagged<T>, I>)
    requires a.view.Valid() && me in a.view.cursors && CanRun(Plain(a.view), ops, me)
    requires forall t | t in a.ever :: t.id < id
    ensures Runs(a, WithTags(ops, id), me, end)
    ensures Plain(end.view) == AfterRun(Plain(a.view), ops, me)
    ensures Items(end.returned) == Items(a.returned) + Returned(Plain(a.view), ops, me)
    decreases |ops|
  {
    end := a;
    if ops != [] {
      var op := WithTag(ops[0], id);
      AfterPlain(a, ops[0], me, id);
      ApplyPlain(a.view, ops[0], id);
      var b := After(a, op, me);
      end := TaggedRun(b, ops[1..], me, id + 1);
      assert WithTags(ops, id)[1..] == WithTags(ops[1..], id + 1);
      Associative(Items(a.returned), Given(Plain(a.view), ops[0], me), Returned(Plain(b.view), ops[1..], me));
    }
  }

  // The account from a to end is that of the run of ops from v, with numbers.
  ghost predicate Tags<T, I>(v: View<T, I>, ops: seq<Op<T, I>>, me: I, a: Account<Tagged<T>, I>,
      end: Account<Tagged<T>, I>)
    requires CanRun(v, ops, me)
  {
    && Fresh(a, me) && Plain(a.view) == v && Runs(a, WithTags(ops, |v.items|), me, end)
    && Plain(end.view) == AfterRun(v, ops, me) && Items(end.returned) == Returned(v, ops, me)
  }

  // Every run of an iterator, over a list that may hold an item many times, returns what
  // a run with all items different returns, to which IteratorReturnsWhatIsDue applies.
  lemma EveryRunIsTagged<T, I>(v: View<T, I>, ops: seq<Op<T, I>>, me: I)
      returns (a: Account<Tagged<T>, I>, end: Account<Tagged<T>, I>)
    requires v.Valid() && me in v.cursors && v.cursors[me] == START && CanRun(v, ops, me)
    ensures Tags(v, ops, me, a, end)
  {
    var items := seq(|v.items|, k requires 0 <= k < |v.items| => Tagged(v.items[k], k));
    a := Account(View(items, v.cursors), Elements(items), Elements(items), []);
    assert Plain(a.view).items == v.items;
    end := TaggedRun(a, ops, me, |v.items|);
  }

  // So an iterator at the end has returned, of all that is in the list, exactly what was
  // there at the start or put in ahead of it, as often as it was.
  lemma {:induction false} EveryIteratorReturnsWhatIsDue<T, I>(v: View<T, I>, ops: seq<Op<T, I>>, me: I,
      a: Account<Tagged<T>, I>, end: Account<Tagged<T>, I>)
    requires CanRun(v, ops, me) && Tags(v, ops, me, a, end)
    requires me in end.view.cursors && end.view.cursors[me].pos == |end.view.items|
    ensures Distinct(end.returned)
    ensures Keep(end.returned, Elements(end.view.items)) == Keep(end.view.items, end.due)
    ensures forall t | t in a.view.items && t in end.view.items :: t in end.returned
  {
    IteratorReturnsWhatIsDue(a, WithTags(ops, |v.items|), me, end);
  }
}
