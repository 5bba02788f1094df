// What liblsd/list.c does, on values: a list is a sequence of items, and an
// iterator is a pair of positions in it.

module ListSpec {
  import opened Seqs

  // `prev` counts the "next" cells from the head, `pos` counts the nodes: the cell
  // at `prev` holds the node at index `prev`, and NULL is the node at |items|.
  datatype Cursor = Cursor(prev: nat, pos: nat) {
    // The relation the code asserts for every iterator (list.c:680, 715).
    predicate Valid(n: nat) {
      pos <= n && (pos == prev || pos == prev + 1)
    }

    function Inserted(j: nat): Cursor {
      if prev == j then Cursor(prev + 1, pos + 1)
      else if pos == j then this
      else Cursor(if prev > j then prev + 1 else prev, if pos > j then pos + 1 else pos)
    }

    function Removed(j: nat): Cursor {
      if pos == j then Cursor(j, j)
      else Cursor(if prev > j then prev - 1 else prev, if pos > j then pos - 1 else pos)
    }

    function Advanced(n: nat): Cursor {
      Cursor(if prev != pos then prev + 1 else prev, if pos < n then pos + 1 else pos)
    }

    // A new item at cell j will be met by this iterator.
    predicate Ahead(j: nat) {
      j >= pos && j != prev
    }
  }

  const START := Cursor(0, 0)

  // I is the type of iterators.
  datatype View<T, I(==)> = View(items: seq<T>, cursors: map<I, Cursor>) {
    predicate Valid() {
      forall i | i in cursors :: cursors[i].Valid(|items|)
    }

    function Insert(j: nat, x: T): View<T, I>
      requires j <= |items|
    {
      View(items[..j] + [x] + items[j..], map i | i in cursors :: cursors[i].Inserted(j))
    }

    // NULL at the cell leaves the list alone.
    function Remove(j: nat): View<T, I>
      requires j <= |items|
    {
      if j == |items| then this
      else View(items[..j] + items[j + 1..], map i | i in cursors :: cursors[i].Removed(j))
    }

    function At(j: nat): Option<T>
      requires j <= |items|
    {
      if j == |items| then None else Some(items[j])
    }

    function Advance(i: I): View<T, I>
      requires i in cursors
    {
      View(items, cursors[i := cursors[i].Advanced(|items|)])
    }

    function DeleteAll(j: nat, f: T -> bool): View<T, I>
      requires j <= |items|
      decreases |items| - j
    {
      if j == |items| then this
      else if f(items[j]) then Remove(j).DeleteAll(j, f)
      else DeleteAll(j + 1, f)
    }
  }

  // ----- every operation keeps the iterators' relation -------------------------

  lemma InsertKeepsValid<T, I>(v: View<T, I>, j: nat, x: T)
    requires v.Valid() && j <= |v.items|
    ensures v.Insert(j, x).Valid()
  {
    forall i | i in v.cursors ensures v.cursors[i].Inserted(j).Valid(|v.items| + 1) {
      assert v.cursors[i].Valid(|v.items|);
    }
  }

  lemma RemoveKeepsValid<T, I>(v: View<T, I>, j: nat)
    requires v.Valid() && j <= |v.items|
    ensures v.Remove(j).Valid()
  {
    if j < |v.items| {
      forall i | i in v.cursors ensures v.cursors[i].Removed(j).Valid(|v.items| - 1) {
        assert v.cursors[i].Valid(|v.items|);
      }
    }
  }

  lemma {:induction false} DeleteAllKeepsValid<T, I>(v: View<T, I>, j: nat, f: T -> bool)
    requires v.Valid() && j <= |v.items|
    ensures v.DeleteAll(j, f).Valid() && v.DeleteAll(j, f).cursors.Keys == v.cursors.Keys
    decreases |v.items| - j
  {
    if j < |v.items| {
      if f(v.items[j]) {
        RemoveKeepsValid(v, j);
        DeleteAllKeepsValid(v.Remove(j), j, f);
      } else {
        DeleteAllKeepsValid(v, j + 1, f);
      }
    }
  }

  function Others<T>(s: seq<T>, f: T -> bool): seq<T> {
    if s == [] then [] else (if f(s[0]) then [] else [s[0]]) + Others(s[1..], f)
  }

  // Deleting removes every item that f picks, and no other.
  lemma {:induction false} DeleteAllLeavesOthers<T, I>(v: View<T, I>, j: nat, f: T -> bool)
    requires j <= |v.items|
    ensures v.DeleteAll(j, f).items == v.items[..j] + Others(v.items[j..], f)
    decreases |v.items| - j
  {
    if j < |v.items| {
      var rest := v.items[j + 1..];
      assert v.items[j..][1..] == rest;
      if f(v.items[j]) {
        assert v.Remove(j).items[j..] == rest;
        DeleteAllLeavesOthers(v.Remove(j), j, f);
        assert v.Remove(j).items[..j] == v.items[..j];
      } else {
        DeleteAllLeavesOthers(v, j + 1, f);
        assert v.items[..j + 1] == v.items[..j] + [v.items[j]];
        assert (v.items[..j] + [v.items[j]]) + Others(rest, f) == v.items[..j] + ([v.items[j]] + Others(rest, f));
      }
    }
  }

  // ----- the operations of list.h ------------------------------------------------

  datatype Op<!T, I> =
    | Append(x: T)
    | Prepend(x: T)
    | Pop
    | DeleteAll(f: T -> bool)
    | Create(i: I)
    | Reset(i: I)
    | Next(i: I)
    | Insert(i: I, x: T)
    | Delete(i: I)

  predicate Allowed<T, I(==)>(v: View<T, I>, op: Op<T, I>) {
    match op
    case Create(i) => i !in v.cursors
    case Reset(i) => i in v.cursors
    case Next(i) => i in v.cursors
    case Insert(i, _) => i in v.cursors
    case Delete(i) => i in v.cursors
    case _ => true
  }

  function Apply<T, I(==)>(v: View<T, I>, op: Op<T, I>): View<T, I>
    requires v.Valid() && Allowed(v, op)
  {
    match op
    case Append(x) => v.Insert(|v.items|, x)
    case Prepend(x) => v.Insert(0, x)
    case Pop => v.Remove(0)
    case DeleteAll(f) => v.DeleteAll(0, f)
    case Create(i) => v.(cursors := v.cursors[i := START])
    case Reset(i) => v.(cursors := v.cursors[i := START])
    case Next(i) => v.Advance(i)
    case Insert(i, x) => v.Insert(v.cursors[i].prev, x)
    case Delete(i) => if v.cursors[i].prev == v.cursors[i].pos then v else v.Remove(v.cursors[i].prev)
  }

  lemma ApplyKeepsValid<T, I>(v: View<T, I>, op: Op<T, I>)
    requires v.Valid() && Allowed(v, op)
    ensures Apply(v, op).Valid()
    ensures v.cursors.Keys <= Apply(v, op).cursors.Keys
  {
    match op
    case Append(x) => InsertKeepsValid(v, |v.items|, x);
    case Prepend(x) => InsertKeepsValid(v, 0, x);
    case Pop => RemoveKeepsValid(v, 0);
    case DeleteAll(f) => DeleteAllKeepsValid(v, 0, f);
    case Insert(i, x) => InsertKeepsValid(v, v.cursors[i].prev, x);
    case Delete(i) => if v.cursors[i].prev != v.cursors[i].pos { RemoveKeepsValid(v, v.cursors[i].prev); }
    case _ =>
  }
}
