// The linked list of liblsd/list.c: nodes, iterators that are repaired on every
// change, and an in-place sort.

module List {
  import opened ListEffects
  import opened ListSpec
  import opened Seqs
  import ListSort

  class ListNode<T> {
    const data: T
    var next: ListNode?<T>

    constructor (data: T)
      ensures this.data == data
    {
      this.data := data;
      next := null;
    }
  }

  // The address of a "next" pointer: the list's head, or that of a node.
  datatype Cell<T> = HeadCell | NextOf(node: ListNode<T>)

  class ListIterator<T> {
    var pos: ListNode?<T>
    var prev: Cell<T>

    constructor (head: ListNode?<T>)
      ensures pos == head && prev == HeadCell
    {
      pos, prev := head, HeadCell;
    }

    // After p went into cell pp (list.c:676-679).
    method RepairInserted(pp: Cell<T>, p: ListNode<T>, ghost was: seq<ListNode<T>>, ghost j: nat, ghost c: Cursor,
        ghost more: seq<ListNode<T>>)
      requires Distinct(was) && p !in was && j <= |was| && more == was[..j] + [p] + was[j..]
      requires pp == CellAt(was, j) && p.next == NodeAt(was, j) && Points(prev, pos, c, was)
      modifies this
      ensures Points(prev, pos, c.Inserted(j), more)
    {
      InsertedPoints(was, j, p, prev, pos, c, more);
      if prev == pp {
        prev := NextOf(p);
      } else if pos == p.next {
        pos := p;
      }
    }

    // After p was taken out of cell pp (list.c:711-714).
    method RepairRemoved(pp: Cell<T>, p: ListNode<T>, ghost was: seq<ListNode<T>>, ghost j: nat, ghost c: Cursor,
        ghost fewer: seq<ListNode<T>>)
      requires Distinct(was) && j < |was| && p == was[j] && fewer == was[..j] + was[j + 1..]
      requires pp == CellAt(was, j) && p.next == NodeAt(was, j + 1) && Points(prev, pos, c, was)
      modifies this
      ensures Points(prev, pos, c.Removed(j), fewer)
    {
      RemovedPoints(was, j, prev, pos, c, fewer);
      if pos == p {
        pos, prev := p.next, pp;
      } else if prev == NextOf(p) {
        prev := pp;
      }
    }
  }

  // ----- nodes and cells by number -------------------------------------------------

  ghost function NodeAt<T>(spine: seq<ListNode<T>>, k: nat): ListNode?<T> {
    if k < |spine| then spine[k] else null
  }

  ghost function CellAt<T>(spine: seq<ListNode<T>>, k: nat): Cell<T>
    requires k <= |spine|
  {
    if k == 0 then HeadCell else NextOf(spine[k - 1])
  }

  ghost function Items<T>(spine: seq<ListNode<T>>): seq<T> {
    seq(|spine|, k requires 0 <= k < |spine| => spine[k].data)
  }

  // The cursors after an item was put in, or taken out.
  ghost function AllInserted<T>(start: map<ListIterator<T>, Cursor>, j: nat): (moved: map<ListIterator<T>, Cursor>)
    ensures moved.Keys == start.Keys && forall i | i in start :: moved[i] == start[i].Inserted(j)
  {
    map i | i in start :: start[i].Inserted(j)
  }

  ghost function AllRemoved<T>(start: map<ListIterator<T>, Cursor>, j: nat): (moved: map<ListIterator<T>, Cursor>)
    ensures moved.Keys == start.Keys && forall i | i in start :: moved[i] == start[i].Removed(j)
  {
    map i | i in start :: start[i].Removed(j)
  }

  // The two pointers of an iterator stand where the cursor does.
  ghost predicate Points<T>(prev: Cell<T>, pos: ListNode?<T>, c: Cursor, spine: seq<ListNode<T>>) {
    c.Valid(|spine|) && prev == CellAt(spine, c.prev) && pos == NodeAt(spine, c.pos)
  }

  // What list_node_create does to an iterator when it puts p at cell pp (list.c:676-679).
  function InsertedPointers<T>(prev: Cell<T>, pos: ListNode?<T>, pp: Cell<T>, p: ListNode<T>, next: ListNode?<T>)
    : (Cell<T>, ListNode?<T>)
  {
    if prev == pp then (NextOf(p), pos)
    else if pos == next then (prev, p)
    else (prev, pos)
  }

  lemma InsertedPoints<T>(spine: seq<ListNode<T>>, j: nat, p: ListNode<T>, prev: Cell<T>, pos: ListNode?<T>, c: Cursor,
      more: seq<ListNode<T>>)
    requires Distinct(spine) && p !in spine && j <= |spine| && more == spine[..j] + [p] + spine[j..]
    requires Points(prev, pos, c, spine)
    ensures var (prev', pos') := InsertedPointers(prev, pos, CellAt(spine, j), p, NodeAt(spine, j));
      Points(prev', pos', c.Inserted(j), more)
  {
    assert forall k | 0 <= k < |more| :: more[k] == if k < j then spine[k] else if k == j then p else spine[k - 1];
    assert prev == CellAt(spine, j) <==> c.prev == j;
    assert pos == NodeAt(spine, j) <==> c.pos == j;
  }

  // What list_node_destroy does to an iterator when it takes p out of cell pp (list.c:711-714).
  function RemovedPointers<T>(prev: Cell<T>, pos: ListNode?<T>, pp: Cell<T>, p: ListNode<T>, next: ListNode?<T>)
    : (Cell<T>, ListNode?<T>)
  {
    if pos == p then (pp, next)
    else if prev == NextOf(p) then (pp, pos)
    else (prev, pos)
  }

  lemma RemovedPoints<T>(spine: seq<ListNode<T>>, j: nat, prev: Cell<T>, pos: ListNode?<T>, c: Cursor,
      fewer: seq<ListNode<T>>)
    requires Distinct(spine) && j < |spine| && fewer == spine[..j] + spine[j + 1..]
    requires Points(prev, pos, c, spine)
    ensures var (prev', pos') := RemovedPointers(prev, pos, CellAt(spine, j), spine[j], NodeAt(spine, j + 1));
      Points(prev', pos', c.Removed(j), fewer)
  {
    assert forall k | 0 <= k < |fewer| :: fewer[k] == if k < j then spine[k] else spine[k + 1];
    assert prev == NextOf(spine[j]) <==> c.prev == j + 1;
    assert pos == spine[j] <==> c.pos == j;
  }

  lemma ViewWith<T>(was: seq<ListNode<T>>, start: map<ListIterator<T>, Cursor>, j: nat, p: ListNode<T>,
      more: seq<ListNode<T>>)
    requires j <= |was| && more == was[..j] + [p] + was[j..]
    ensures View(Items(more), AllInserted(start, j)) ==
            View(Items(was), start).Insert(j, p.data)
  {
    assert Items(more) == Items(was)[..j] + [p.data] + Items(was)[j..];
  }

  lemma ViewWithout<T>(was: seq<ListNode<T>>, start: map<ListIterator<T>, Cursor>, j: nat, fewer: seq<ListNode<T>>)
    requires j < |was| && fewer == was[..j] + was[j + 1..]
    ensures View(Items(fewer), AllRemoved(start, j)) ==
            View(Items(was), start).Remove(j)
  {
    assert Items(fewer) == Items(was)[..j] + Items(was)[j + 1..];
  }

  // ----- the list ---------------------------------------------------------------------

  ghost predicate Chained<T>(head: ListNode?<T>, spine: seq<ListNode<T>>)
    reads spine
  {
    && Distinct(spine)
    && head == NodeAt(spine, 0)
    && forall k | 0 <= k < |spine| :: spine[k].next == NodeAt(spine, k + 1)
  }

  lemma ChainedWith<T>(was: seq<ListNode<T>>, j: nat, p: ListNode<T>, head: ListNode?<T>, more: seq<ListNode<T>>)
    requires Distinct(was) && p !in was && j <= |was| && more == was[..j] + [p] + was[j..]
    requires head == if j == 0 then p else NodeAt(was, 0)
    requires p.next == NodeAt(was, j)
    requires forall k | 0 <= k < |was| :: was[k].next == if k + 1 == j then p else NodeAt(was, k + 1)
    ensures Chained(head, more)
  {
    assert forall k | 0 <= k < |more| :: more[k] == if k < j then was[k] else if k == j then p else was[k - 1];
    assert Distinct(more);
    forall k | 0 <= k < |more| ensures more[k].next == NodeAt(more, k + 1) {
    }
  }

  lemma ChainedWithout<T>(was: seq<ListNode<T>>, j: nat, head: ListNode?<T>, fewer: seq<ListNode<T>>)
    requires Distinct(was) && j < |was| && fewer == was[..j] + was[j + 1..]
    requires head == if j == 0 then NodeAt(was, 1) else was[0]
    requires forall k | 0 <= k < |was| && k != j ::
      was[k].next == if k + 1 == j then NodeAt(was, j + 1) else NodeAt(was, k + 1)
    ensures Chained(head, fewer)
  {
    assert forall k | 0 <= k < |fewer| :: fewer[k] == if k < j then was[k] else was[k + 1];
    assert Distinct(fewer);
    forall k | 0 <= k < |fewer| ensures fewer[k].next == NodeAt(fewer, k + 1) {
    }
  }

  lemma MovedAt<T>(was: seq<T>, q: nat, n: nat, moved: seq<T>)
    requires q < n < |was| && moved == was[..q] + [was[n]] + was[q..n] + was[n + 1..]
    ensures |moved| == |was|
    ensures forall k | 0 <= k < |moved| ::
      moved[k] == was[if k < q then k else if k == q then n else if k <= n then k - 1 else k]
  {
  }

  lemma MovedIsDistinct<T>(was: seq<T>, q: nat, n: nat, moved: seq<T>)
    requires q < n < |was| && moved == was[..q] + [was[n]] + was[q..n] + was[n + 1..]
    requires Distinct(was)
    ensures Distinct(moved)
  {
    MovedAt(was, q, n, moved);
  }

  lemma ItemsMoved<T>(was: seq<ListNode<T>>, q: nat, n: nat, moved: seq<ListNode<T>>)
    requires q < n < |was| && moved == was[..q] + [was[n]] + was[q..n] + was[n + 1..]
    ensures var done := Items(was[..n]); Items(moved)[..n + 1] == done[..q] + [was[n].data] + done[q..]
    ensures Items(moved)[n + 1..] == Items(was)[n + 1..]
  {
    MovedAt(was, q, n, moved);
  }

  lemma MovedCells<T>(was: seq<ListNode<T>>, q: nat, n: nat, moved: seq<ListNode<T>>)
    requires q < n < |was| && moved == was[..q] + [was[n]] + was[q..n] + was[n + 1..]
    ensures |moved| == |was| && moved[q] == was[n] && CellAt(moved, q) == CellAt(was, q)
    ensures CellAt(moved, n + 1) == CellAt(was, n)
    ensures CellAt(moved, n) == if q == n - 1 then NextOf(was[n]) else CellAt(was, n - 1)
    ensures forall p | p in moved :: p in was
  {
    MovedAt(was, q, n, moved);
  }

  lemma ItemsOfPrefix<T>(s: seq<ListNode<T>>, n: nat)
    requires n <= |s|
    ensures Items(s[..n]) == Items(s)[..n]
  {
  }

  lemma ItemsStay<T>(was: seq<ListNode<T>>, n: nat, cmp: (T, T) -> int)
    requires 0 < n < |was| && cmp(was[n].data, was[n - 1].data) >= 0
    ensures Items(was)[..n + 1] == ListSort.Placed(Items(was[..n]), was[n].data, cmp)
  {
  }

  lemma MovedNext<T>(was: seq<ListNode<T>>, q: nat, n: nat, moved: seq<ListNode<T>>, k: nat)
    requires q < n < |was| && k < |moved| == |was| && k + 1 <= |was|
    requires forall m | 0 <= m < |moved| ::
      moved[m] == was[if m < q then m else if m == q then n else if m <= n then m - 1 else m]
    requires was[n].next == was[q] && was[n - 1].next == NodeAt(was, n + 1)
    requires q > 0 ==> was[q - 1].next == was[n]
    requires forall m | 0 <= m < |was| && m != n && m != n - 1 && m + 1 != q :: was[m].next == NodeAt(was, m + 1)
    ensures moved[k].next == NodeAt(moved, k + 1)
  {
    if k < q {
      assert moved[k] == was[k];
    } else if k > n {
      assert moved[k] == was[k];
    } else if k > q {
      assert moved[k] == was[k - 1];
    }
  }

  lemma ChainedMoved<T>(was: seq<ListNode<T>>, q: nat, n: nat, head: ListNode?<T>, moved: seq<ListNode<T>>)
    requires Distinct(was) && q < n < |was| && moved == was[..q] + [was[n]] + was[q..n] + was[n + 1..]
    requires head == if q == 0 then was[n] else was[0]
    requires was[n].next == was[q] && was[n - 1].next == NodeAt(was, n + 1)
    requires q > 0 ==> was[q - 1].next == was[n]
    requires forall k | 0 <= k < |was| && k != n && k != n - 1 && k + 1 != q :: was[k].next == NodeAt(was, k + 1)
    ensures Chained(head, moved)
  {
    MovedIsDistinct(was, q, n, moved);
    MovedAt(was, q, n, moved);
    forall k | 0 <= k < |moved| ensures moved[k].next == NodeAt(moved, k + 1) {
      MovedNext(was, q, n, moved, k);
    }
  }

  lemma OthersStay<I>(was: seq<I>, k: nat, i: I, now: seq<I>)
    requires Distinct(was) && k < |was| && i == was[k] && now == was[..k] + was[k + 1..]
    ensures Distinct(now) && forall x :: x in now <==> x in was && x != i
  {
    assert forall m | 0 <= m < |now| :: now[m] == was[if m < k then m else m + 1];
    forall x | x in was && x != i ensures x in now {
      var m :| 0 <= m < |was| && was[m] == x;
      assert now[if m < k then m else m - 1] == x;
    }
  }

  class List<T> {
    var head: ListNode?<T>
    var tail: Cell<T>
    var count: nat
    // The chain of iterators, newest first.
    var iters: seq<ListIterator<T>>
    // The nodes in order, and where each iterator stands.
    ghost var spine: seq<ListNode<T>>
    ghost var cursors: map<ListIterator<T>, Cursor>

    ghost predicate Linked()
      reads this`head, this`tail, this`count, this`spine, spine
    {
      Chained(head, spine) && tail == CellAt(spine, |spine|) && count == |spine|
    }

    ghost predicate Settled()
      reads this, iters
    {
      SettledAt(cursors, spine)
    }

    // Each iterator stands in the nodes where the map says.
    ghost predicate SettledAt(at: map<ListIterator<T>, Cursor>, nodes: seq<ListNode<T>>)
      reads this`iters, iters
    {
      && Distinct(iters)
      && at.Keys == (set i | i in iters)
      && (forall i | i in iters :: Points(i.prev, i.pos, at[i], nodes))
    }

    ghost predicate Valid()
      reads this, spine, iters
    {
      Linked() && Settled()
    }

    ghost function View(): View<T, ListIterator<T>>
      reads this
    {
      ListSpec.View(Items(spine), cursors)
    }

    // The code's own check on every iterator (list.c:680, 715).
    lemma IteratorsAreSettled(i: ListIterator<T>)
      requires Valid() && i in iters
      ensures i.prev.NextOf? ==> i.prev.node in spine
      ensures i.pos == Load(i.prev) || (Load(i.prev) != null && Load(i.prev) in spine && i.pos == Load(i.prev).next)
    {
    }

    constructor ()
      ensures Valid() && fresh(this)
      ensures View() == ListSpec.View([], map[])
    {
      head, tail, count, iters := null, HeadCell, 0, [];
      spine, cursors := [], map[];
    }

    // The value of the pointer at an address.
    function Load(cell: Cell<T>): ListNode?<T>
      reads this, if cell.NextOf? then {cell.node} else {}
    {
      match cell
      case HeadCell => head
      case NextOf(node) => node.next
    }

    method Store(cell: Cell<T>, p: ListNode?<T>)
      modifies this`head, if cell.NextOf? then {cell.node} else {}
      ensures cell.HeadCell? ==> head == p
      ensures cell.NextOf? ==> head == old(head) && cell.node.next == p
    {
      match cell
      case HeadCell => head := p;
      case NextOf(node) => node.next := p;
    }

    // Puts p into cell pp, in front of the node that was there.
    method Wire(pp: Cell<T>, p: ListNode<T>, ghost j: nat)
      requires Chained(head, spine) && j <= |spine| && pp == CellAt(spine, j) && p !in spine
      modifies this`head, this`tail, spine, p
      ensures head == if j == 0 then p else old(head)
      ensures p.next == NodeAt(spine, j)
      ensures tail == if p.next == null then NextOf(p) else old(tail)
      ensures forall k | 0 <= k < |spine| :: spine[k].next == if k + 1 == j then p else NodeAt(spine, k + 1)
    {
      assert Load(pp) == NodeAt(spine, j);
      p.next := Load(pp);
      if p.next == null {
        tail := NextOf(p);
      }
      Store(pp, p);
    }

    // Puts a new node into cell pp: the part of list_node_create that changes nodes.
    method Link(pp: Cell<T>, x: T, ghost j: nat) returns (p: ListNode<T>)
      requires Linked() && j <= |spine| && pp == CellAt(spine, j)
      modifies this`head, this`tail, this`count, this`spine, spine
      ensures Linked() && fresh(p) && p.data == x
      ensures spine == old(spine)[..j] + [p] + old(spine)[j..]
      ensures p.next == NodeAt(old(spine), j)
    {
      ghost var was := spine;
      p := new ListNode(x);
      Wire(pp, p, j);
      count := count + 1;
      spine := was[..j] + [p] + was[j..];
      ChainedWith(was, j, p, head, spine);
    }

    // Makes cell pp point past p, its node.
    method Unwire(pp: Cell<T>, p: ListNode<T>, ghost j: nat)
      requires Linked() && j < |spine| && pp == CellAt(spine, j) && p == spine[j]
      modifies this`head, this`tail, spine
      ensures head == if j == 0 then NodeAt(spine, 1) else old(head)
      ensures p.next == NodeAt(spine, j + 1)
      ensures tail == if p.next == null then pp else old(tail)
      ensures forall k | 0 <= k < |spine| && k != j ::
        spine[k].next == if k + 1 == j then NodeAt(spine, j + 1) else NodeAt(spine, k + 1)
    {
      Store(pp, p.next);
      if p.next == null {
        tail := pp;
      }
    }

    // Takes the node out of cell pp: the part of list_node_destroy that changes nodes.
    method Unlink(pp: Cell<T>, p: ListNode<T>, ghost j: nat)
      requires Linked() && j < |spine| && pp == CellAt(spine, j) && p == spine[j]
      modifies this`head, this`tail, this`count, this`spine, spine
      ensures Linked()
      ensures spine == old(spine)[..j] + old(spine)[j + 1..]
      ensures p.next == NodeAt(old(spine), j + 1)
    {
      ghost var was := spine;
      Unwire(pp, p, j);
      count := count - 1;
      spine := was[..j] + was[j + 1..];
      ChainedWithout(was, j, head, spine);
    }

    // Repairs every iterator after p went into cell pp (list.c:674-681).
    method RepairAllInserted(pp: Cell<T>, p: ListNode<T>, ghost was: seq<ListNode<T>>, ghost j: nat,
        ghost start: map<ListIterator<T>, Cursor>, ghost moved: map<ListIterator<T>, Cursor>)
      requires Distinct(was) && p !in was && j <= |was| && pp == CellAt(was, j)
      requires spine == was[..j] + [p] + was[j..] && p.next == NodeAt(was, j)
      requires Distinct(iters)
      requires forall i | i in iters :: i in start && Points(i.prev, i.pos, start[i], was)
      requires forall i | i in iters :: i in moved && moved[i] == start[i].Inserted(j)
      modifies iters
      ensures forall i | i in iters :: Points(i.prev, i.pos, moved[i], spine)
    {
      for n := 0 to |iters|
        invariant p.next == NodeAt(was, j)
        invariant forall k | n <= k < |iters| :: Points(iters[k].prev, iters[k].pos, start[iters[k]], was)
        invariant forall k | 0 <= k < n :: Points(iters[k].prev, iters[k].pos, moved[iters[k]], spine)
      {
        iters[n].RepairInserted(pp, p, was, j, start[iters[n]], spine);
      }
    }

    method RepairInserted(pp: Cell<T>, p: ListNode<T>, ghost was: seq<ListNode<T>>, ghost j: nat,
        ghost start: map<ListIterator<T>, Cursor>)
      requires Distinct(was) && p !in was && j <= |was| && pp == CellAt(was, j)
      requires spine == was[..j] + [p] + was[j..] && p.next == NodeAt(was, j)
      requires SettledAt(start, was)
      modifies this`cursors, iters
      ensures Settled()
      ensures cursors == AllInserted(start, j)
    {
      ghost var moved := AllInserted(start, j);
      RepairAllInserted(pp, p, was, j, start, moved);
      cursors := moved;
    }

    // Repairs every iterator after p was taken out of cell pp (list.c:709-716).
    method RepairAllRemoved(pp: Cell<T>, p: ListNode<T>, ghost was: seq<ListNode<T>>, ghost j: nat,
        ghost start: map<ListIterator<T>, Cursor>, ghost moved: map<ListIterator<T>, Cursor>)
      requires Distinct(was) && j < |was| && pp == CellAt(was, j) && p == was[j]
      requires spine == was[..j] + was[j + 1..] && p.next == NodeAt(was, j + 1)
      requires Distinct(iters)
      requires forall i | i in iters :: i in start && Points(i.prev, i.pos, start[i], was)
      requires forall i | i in iters :: i in moved && moved[i] == start[i].Removed(j)
      modifies iters
      ensures forall i | i in iters :: Points(i.prev, i.pos, moved[i], spine)
    {
      for n := 0 to |iters|
        invariant p.next == NodeAt(was, j + 1)
        invariant forall k | n <= k < |iters| :: Points(iters[k].prev, iters[k].pos, start[iters[k]], was)
        invariant forall k | 0 <= k < n :: Points(iters[k].prev, iters[k].pos, moved[iters[k]], spine)
      {
        iters[n].RepairRemoved(pp, p, was, j, start[iters[n]], spine);
      }
    }

    method RepairRemoved(pp: Cell<T>, p: ListNode<T>, ghost was: seq<ListNode<T>>, ghost j: nat,
        ghost start: map<ListIterator<T>, Cursor>)
      requires Distinct(was) && j < |was| && pp == CellAt(was, j) && p == was[j]
      requires spine == was[..j] + was[j + 1..] && p.next == NodeAt(was, j + 1)
      requires SettledAt(start, was)
      modifies this`cursors, iters
      ensures Settled()
      ensures cursors == AllRemoved(start, j)
    {
      ghost var moved := AllRemoved(start, j);
      RepairAllRemoved(pp, p, was, j, start, moved);
      cursors := moved;
    }

    // list_node_create once it has a node.
    method CreateAt(pp: Cell<T>, x: T, ghost j: nat) returns (p: ListNode<T>)
      requires Valid() && j <= |spine| && pp == CellAt(spine, j)
      modifies this`head, this`tail, this`count, this`spine, this`cursors, spine, iters
      ensures Valid() && fresh(p) && p.data == x
      ensures spine == old(spine)[..j] + [p] + old(spine)[j..]
      ensures cursors == AllInserted(old(cursors), j)
    {
      ghost var was, start := spine, cursors;
      p := Link(pp, x, j);
      RepairInserted(pp, p, was, j, start);
    }

    // list_node_destroy once it has found a node.
    method DestroyAt(pp: Cell<T>, p: ListNode<T>, ghost j: nat)
      requires Valid() && j < |spine| && pp == CellAt(spine, j) && p == spine[j]
      modifies this`head, this`tail, this`count, this`spine, this`cursors, spine, iters
      ensures Valid()
      ensures spine == old(spine)[..j] + old(spine)[j + 1..]
      ensures cursors == AllRemoved(old(cursors), j)
    {
      ghost var was, start := spine, cursors;
      Unlink(pp, p, j);
      RepairRemoved(pp, p, was, j, start);
    }

    // `granted` is whether a node could be allocated.
    method NodeCreate(pp: Cell<T>, x: T, granted: bool, ghost j: nat) returns (v: Option<T>)
      requires Valid() && j <= |spine| && pp == CellAt(spine, j)
      modifies this`head, this`tail, this`count, this`spine, this`cursors, spine, iters
      ensures Valid() && forall p | p in spine :: p in old(spine) || fresh(p)
      ensures v == if granted then Some(x) else None
      ensures View() == if granted then old(View()).Insert(j, x) else old(View())
    {
      if !granted {
        return None;
      }
      ghost var was, start := spine, cursors;
      var p := CreateAt(pp, x, j);
      ViewWith(was, start, j, p, spine);
      return Some(x);
    }

    method NodeDestroy(pp: Cell<T>, ghost j: nat) returns (v: Option<T>)
      requires Valid() && j <= |spine| && pp == CellAt(spine, j)
      modifies this`head, this`tail, this`count, this`spine, this`cursors, spine, iters
      ensures Valid() && forall p | p in spine :: p in old(spine)
      ensures spine == if j < |old(spine)| then old(spine)[..j] + old(spine)[j + 1..] else old(spine)
      ensures v == old(View()).At(j)
      ensures View() == old(View()).Remove(j)
    {
      var p := Load(pp);
      assert p == NodeAt(spine, j);
      if p == null {
        return None;
      }
      ViewWithout(spine, cursors, j, spine[..j] + spine[j + 1..]);
      DestroyAt(pp, p, j);
      return Some(p.data);
    }

    // ----- the operations of list.h ---------------------------------------------------

    lemma ViewIsValid()
      requires Valid()
      ensures View().Valid()
    {
    }

    method Append(x: T, granted: bool) returns (v: Option<T>)
      requires Valid()
      modifies this, spine, iters
      ensures Valid() && iters == old(iters) && forall p | p in spine :: p in old(spine) || fresh(p)
      ensures v == if granted then Some(x) else None
      ensures View() == if granted then Apply(old(View()), Op.Append(x)) else old(View())
      ensures View().items == old(View().items) + if granted then [x] else []
    {
      PutInEffects(View(), x);
      v := NodeCreate(tail, x, granted, |spine|);
    }

    method Prepend(x: T, granted: bool) returns (v: Option<T>)
      requires Valid()
      modifies this, spine, iters
      ensures Valid() && iters == old(iters) && forall p | p in spine :: p in old(spine) || fresh(p)
      ensures v == if granted then Some(x) else None
      ensures View() == if granted then Apply(old(View()), Op.Prepend(x)) else old(View())
      ensures View().items == (if granted then [x] else []) + old(View().items)
    {
      PutInEffects(View(), x);
      v := NodeCreate(HeadCell, x, granted, 0);
    }

    method Pop() returns (v: Option<T>)
      requires Valid()
      modifies this, spine, iters
      ensures Valid() && iters == old(iters) && forall p | p in spine :: p in old(spine)
      ensures v == old(View()).At(0)
      ensures View() == Apply(old(View()), Op.Pop)
      ensures old(View().items) == (if v.Some? then [v.value] else []) + View().items
    {
      PopEffect(View());
      v := NodeDestroy(HeadCell, 0);
    }

    method FindFirst(f: T -> bool) returns (v: Option<T>)
      requires Valid()
      ensures v.None? ==> forall x | x in View().items :: !f(x)
      ensures v.Some? ==> exists k ::
        && 0 <= k < |View().items| && View().items[k] == v.value && f(v.value)
        && forall m | 0 <= m < k :: !f(View().items[m])
    {
      var p := head;
      ghost var k := 0;
      while p != null
        invariant k <= |spine| && p == NodeAt(spine, k)
        invariant forall m | 0 <= m < k :: !f(spine[m].data)
        decreases |spine| - k
      {
        if f(p.data) {
          assert View().items[k] == p.data;
          return Some(p.data);
        }
        p := p.next;
        k := k + 1;
      }
      return None;
    }

    // At the turn of the loop of list_delete_all that looks at cell pp, which is the j-th:
    // going on from there leaves `left`, and no node is new.
    ghost predicate Deleting(pp: Cell<T>, j: nat, f: T -> bool, left: View<T, ListIterator<T>>,
        all: seq<ListNode<T>>, chain: seq<ListIterator<T>>)
      reads this, spine, iters
    {
      && Valid() && j <= |spine| && pp == CellAt(spine, j) && View().DeleteAll(j, f) == left
      && iters == chain && forall p | p in spine :: p in all
    }

    // One turn.
    method DeleteOrPass(pp: Cell<T>, f: T -> bool, ghost j: nat, ghost left: View<T, ListIterator<T>>,
        ghost all: seq<ListNode<T>>, ghost chain: seq<ListIterator<T>>) returns (next: Cell<T>, gone: bool)
      requires Deleting(pp, j, f, left, all, chain) && j < |spine|
      modifies this`head, this`tail, this`count, this`spine, this`cursors, spine, iters
      ensures Deleting(next, if gone then j else j + 1, f, left, all, chain)
      ensures |spine| == |old(spine)| - (if gone then 1 else 0)
    {
      var p := Load(pp);
      assert p == spine[j] == NodeAt(spine, j);
      assert View().items[j] == p.data;
      gone := f(p.data);
      if gone {
        var _ := NodeDestroy(pp, j);
        assert |View().items| == |spine|;
        next := pp;
      } else {
        next := NextOf(p);
      }
    }

    method DeleteAll(f: T -> bool) returns (n: nat)
      requires Valid()
      modifies this, spine, iters
      ensures Valid() && iters == old(iters) && forall p | p in spine :: p in old(spine)
      ensures View() == Apply(old(View()), Op.DeleteAll(f))
      ensures n == |old(View()).items| - |View().items|
    {
      ViewIsValid();
      var pp := HeadCell;
      n := 0;
      ghost var j, left, all, chain := 0, View().DeleteAll(0, f), spine, iters;
      while Load(pp) != null
        invariant Deleting(pp, j, f, left, all, chain)
        invariant n == |all| - |spine|
        decreases |spine| - j
      {
        assert Load(pp) == NodeAt(spine, j);
        assert forall k | 0 <= k < |spine| :: spine[k] in all;
        var gone;
        pp, gone := DeleteOrPass(pp, f, j, left, all, chain);
        if gone {
          n := n + 1;
        } else {
          j := j + 1;
        }
      }
      assert Load(pp) == NodeAt(spine, j);
    }

    method IteratorCreate() returns (i: ListIterator<T>)
      requires Valid()
      modifies this`iters, this`cursors
      ensures Valid() && fresh(i) && iters == [i] + old(iters)
      ensures View() == Apply(old(View()), Op.Create(i))
    {
      i := new ListIterator(head);
      iters := [i] + iters;
      cursors := cursors[i := START];
    }

    method IteratorReset(i: ListIterator<T>)
      requires Valid() && i in iters
      modifies this`cursors, i
      ensures Valid()
      ensures View() == Apply(old(View()), Op.Reset(i))
    {
      ghost var was, start := View(), cursors;
      ViewIsValid();
      assert Apply(was, Op.Reset(i)) == was.(cursors := start[i := START]);
      i.pos, i.prev := head, HeadCell;
      assert Points(i.prev, i.pos, START, spine);
      cursors := start[i := START];
    }

    method IteratorDestroy(i: ListIterator<T>)
      requires Valid() && i in iters
      modifies this`iters, this`cursors
      ensures Valid()
      ensures View() == old(View()).(cursors := old(View()).cursors - {i})
    {
      var k := PlaceOf(i);
      ghost var was := iters;
      iters := iters[..k] + iters[k + 1..];
      cursors := cursors - {i};
      OthersStay(was, k, i, iters);
    }

    // The search for the iterator in the chain.
    method PlaceOf(i: ListIterator<T>) returns (k: nat)
      requires i in iters
      ensures k < |iters| && iters[k] == i
    {
      k := 0;
      while iters[k] != i
        invariant k < |iters| && i in iters[k..]
        decreases |iters| - k
      {
        k := k + 1;
      }
    }

    // Moves the two pointers of an iterator past the item it returns.
    method Step(i: ListIterator<T>, ghost c: Cursor)
      requires Linked() && Points(i.prev, i.pos, c, spine)
      modifies i
      ensures Points(i.prev, i.pos, c.Advanced(|spine|), spine)
    {
      assert Load(i.prev) == NodeAt(spine, c.prev);
      var p := i.pos;
      if p != null {
        i.pos := p.next;
      }
      if Load(i.prev) != p {
        i.prev := NextOf(Load(i.prev));
      }
    }

    // The others stay where they are.
    method StepOne(i: ListIterator<T>, ghost at: map<ListIterator<T>, Cursor>,
        ghost moved: map<ListIterator<T>, Cursor>)
      requires Linked() && SettledAt(at, spine) && i in iters && moved == at[i := at[i].Advanced(|spine|)]
      modifies i
      ensures SettledAt(moved, spine)
    {
      Step(i, at[i]);
    }

    method Next(i: ListIterator<T>) returns (v: Option<T>)
      requires Valid() && i in iters
      modifies this`cursors, i
      ensures Valid()
      ensures v == old(View()).At(old(cursors)[i].pos)
      ensures View() == Apply(old(View()), Op.Next(i))
    {
      ViewIsValid();
      NextIsAdvance(View(), i);
      var p := i.pos;
      v := if p != null then Some(p.data) else None;
      assert v == View().At(cursors[i].pos);
      Advance(i);
    }

    method Advance(i: ListIterator<T>)
      requires Valid() && i in iters
      modifies this`cursors, i
      ensures Valid() && View() == old(View()).Advance(i)
    {
      ghost var moved := cursors[i := cursors[i].Advanced(|spine|)];
      assert View().Advance(i) == ListSpec.View(Items(spine), moved);
      StepOne(i, cursors, moved);
      cursors := moved;
    }

    method Insert(i: ListIterator<T>, x: T, granted: bool) returns (v: Option<T>)
      requires Valid() && i in iters
      modifies this, spine, iters
      ensures Valid() && iters == old(iters) && forall p | p in spine :: p in old(spine) || fresh(p)
      ensures v == if granted then Some(x) else None
      ensures View() == if granted then Apply(old(View()), Op.Insert(i, x)) else old(View())
      ensures var items, prev := old(View().items), old(cursors)[i].prev;
        prev <= |items| && View().items == if granted then items[..prev] + [x] + items[prev..] else items
    {
      InsertEffect(View(), i, x);
      ghost var was, c := View(), cursors[i];
      ViewIsValid();
      assert Apply(was, Op.Insert(i, x)) == was.Insert(c.prev, x);
      v := NodeCreate(i.prev, x, granted, c.prev);
    }

    method Remove(i: ListIterator<T>) returns (v: Option<T>)
      requires Valid() && i in iters
      modifies this`head, this`tail, this`count, this`spine, this`cursors, spine, iters
      ensures Valid() && forall p | p in spine :: p in old(spine)
      ensures v.None? <==> old(cursors)[i].prev == old(cursors)[i].pos
      ensures TakenOut(old(View().items), old(cursors)[i].prev, v, View().items)
      ensures View() == Apply(old(View()), Op.Delete(i))
    {
      ghost var was, c := View(), cursors[i];
      ViewIsValid();
      v := RemoveReturned(i, c);
      RemoveMeans(was, i, v);
    }

    // The removal at the cell that the iterator calls prev.
    method RemoveReturned(i: ListIterator<T>, ghost c: Cursor) returns (v: Option<T>)
      requires Valid() && i in iters && c == cursors[i] && c.prev <= |spine|
      modifies this`head, this`tail, this`count, this`spine, this`cursors, spine, iters
      ensures Valid() && forall p | p in spine :: p in old(spine)
      ensures v == if c.prev == c.pos then None else old(View()).At(c.prev)
      ensures View() == if c.prev == c.pos then old(View()) else old(View()).Remove(c.prev)
    {
      assert Load(i.prev) == NodeAt(spine, c.prev);
      v := None;
      if Load(i.prev) != i.pos {
        v := NodeDestroy(i.prev, c.prev);
      }
    }

    // ----- list_sort --------------------------------------------------------------------

    // The search for the place of *pp among the nodes before it (list.c:414-416).
    method FindPlace(p: ListNode<T>, cmp: (T, T) -> int, ghost n: nat, ghost done: seq<T>) returns (ppPos: Cell<T>)
      requires Chained(head, spine) && 0 < n < |spine| && p == spine[n]
      requires done == Items(spine[..n]) && cmp(p.data, done[n - 1]) < 0
      ensures ppPos == CellAt(spine, ListSort.Place(done, p.data, cmp, 0))
    {
      ppPos := HeadCell;
      ghost var q := 0;
      assert Load(ppPos) == NodeAt(spine, q);
      while cmp(p.data, Load(ppPos).data) >= 0
        invariant q < n && ppPos == CellAt(spine, q) && Load(ppPos) == NodeAt(spine, q) == spine[q]
        invariant ListSort.Place(done, p.data, cmp, 0) == ListSort.Place(done, p.data, cmp, q)
        decreases n - q
      {
        ppPos, q := NextOf(Load(ppPos)), q + 1;
      }
    }

    // Takes the node at cell pp out and puts it into the earlier cell ppPos (list.c:417-420).
    method Relink(pp: Cell<T>, p: ListNode<T>, ppPos: Cell<T>, ghost q: nat, ghost n: nat)
      requires Chained(head, spine) && q < n < |spine| && p == spine[n]
      requires pp == CellAt(spine, n) && ppPos == CellAt(spine, q)
      modifies this`head, this`spine, spine
      ensures Chained(head, spine)
      ensures var was := old(spine); spine == was[..q] + [was[n]] + was[q..n] + was[n + 1..]
    {
      ghost var was := spine;
      var pTmp := p.next;
      p.next := Load(ppPos);
      Store(ppPos, p);
      Store(pp, pTmp);
      spine := was[..q] + [was[n]] + was[q..n] + was[n + 1..];
      ChainedMoved(was, q, n, head, spine);
    }

    // Moves the node p at cell pp to its place among the n nodes before it.
    method Shift(ppPrev: Cell<T>, pp: Cell<T>, p: ListNode<T>, cmp: (T, T) -> int, ghost n: nat)
      returns (ppPrev': Cell<T>)
      requires Chained(head, spine) && 0 < n < |spine| && p == spine[n] && cmp(p.data, spine[n - 1].data) < 0
      requires ppPrev == CellAt(spine, n - 1) && pp == CellAt(spine, n)
      modifies this`head, this`spine, spine
      ensures Chained(head, spine) && |spine| == |old(spine)| && forall q | q in spine :: q in old(spine)
      ensures Items(spine)[..n + 1] == ListSort.Placed(Items(old(spine)[..n]), p.data, cmp)
      ensures Items(spine)[n + 1..] == Items(old(spine))[n + 1..]
      ensures ppPrev' == CellAt(spine, n) && pp == CellAt(spine, n + 1)
    {
      ghost var was := spine;
      ghost var done := Items(spine[..n]);
      assert done[n - 1] == spine[n - 1].data;
      ghost var q := ListSort.Place(done, p.data, cmp, 0);
      var ppPos := FindPlace(p, cmp, n, done);
      ListSort.PlacedBefore(done, p.data, cmp, q);
      assert ppPrev == ppPos <==> n - 1 == q;
      Relink(pp, p, ppPos, q, n);
      ItemsMoved(was, q, n, spine);
      MovedCells(was, q, n, spine);
      ppPrev' := ppPrev;
      if ppPrev == ppPos {
        assert ppPrev == CellAt(spine, q) && Load(ppPrev) == NodeAt(spine, q);
        ppPrev' := NextOf(Load(ppPrev));
      }
    }

    // One turn of the loop of list_sort.
    method SortTurn(ppPrev: Cell<T>, pp: Cell<T>, cmp: (T, T) -> int, ghost n: nat)
      returns (ppPrev': Cell<T>, pp': Cell<T>)
      requires Chained(head, spine) && 0 < n < |spine|
      requires ppPrev == CellAt(spine, n - 1) && pp == CellAt(spine, n)
      modifies this`head, this`spine, spine
      ensures Chained(head, spine) && |spine| == |old(spine)| && forall p | p in spine :: p in old(spine)
      ensures Items(spine)[..n + 1] == ListSort.Placed(Items(old(spine)[..n]), old(spine)[n].data, cmp)
      ensures Items(spine)[n + 1..] == Items(old(spine))[n + 1..]
      ensures ppPrev' == CellAt(spine, n) && pp' == CellAt(spine, n + 1)
    {
      var p := Load(pp);
      assert p == spine[n] && Load(ppPrev) == spine[n - 1];
      assert Items(spine[..n])[n - 1] == spine[n - 1].data;
      if cmp(p.data, Load(ppPrev).data) < 0 {
        ppPrev' := Shift(ppPrev, pp, p, cmp, n);
        pp' := pp;
      } else {
        ItemsStay(spine, n, cmp);
        ppPrev', pp' := pp, NextOf(p);
      }
    }

    // What it does for the sort as a whole.
    method SortMore(ppPrev: Cell<T>, pp: Cell<T>, cmp: (T, T) -> int, ghost n: nat)
      returns (ppPrev': Cell<T>, pp': Cell<T>)
      requires Chained(head, spine) && 0 < n < |spine|
      requires ppPrev == CellAt(spine, n - 1) && pp == CellAt(spine, n)
      modifies this`head, this`spine, spine
      ensures Chained(head, spine) && |spine| == |old(spine)| && forall p | p in spine :: p in old(spine)
      ensures ListSort.SortedFrom(Items(spine)[..n + 1], Items(spine)[n + 1..], cmp) ==
        ListSort.SortedFrom(Items(old(spine))[..n], Items(old(spine))[n..], cmp)
      ensures ppPrev' == CellAt(spine, n) && pp' == CellAt(spine, n + 1)
    {
      ghost var items := Items(spine);
      ItemsOfPrefix(spine, n);
      assert items[n..] == [items[n]] + items[n + 1..];
      ListSort.SortedStep(items[..n], items[n], items[n + 1..], cmp, ListSort.SortedFrom(items[..n], items[n..], cmp));
      ppPrev', pp' := SortTurn(ppPrev, pp, cmp, n);
    }

    method Sort(cmp: (T, T) -> int)
      requires Valid()
      modifies this, spine, iters
      ensures Valid() && iters == old(iters) && forall p | p in spine :: p in old(spine)
      ensures View().items == ListSort.Sorted(old(View()).items, cmp)
      ensures View().cursors ==
              if |old(View()).items| > 1 then map i: ListIterator<T> | i in old(cursors) :: START else old(cursors)
    {
      if count > 1 {
        SortNodes(cmp);
        ResetAll();
      }
    }

    method SortNodes(cmp: (T, T) -> int)
      requires Linked() && |spine| > 1
      modifies this`head, this`tail, this`spine, spine
      ensures Linked() && forall p | p in spine :: p in old(spine)
      ensures Items(spine) == ListSort.Sorted(Items(old(spine)), cmp)
    {
      var ppPrev := HeadCell;
      var pp := NextOf(Load(ppPrev));
      ghost var n := 1;
      while Load(pp) != null
        invariant Chained(head, spine) && |spine| == |old(spine)| && forall p | p in spine :: p in old(spine)
        invariant 0 < n <= |spine| && ppPrev == CellAt(spine, n - 1) && pp == CellAt(spine, n)
        invariant ListSort.SortedFrom(Items(spine)[..n], Items(spine)[n..], cmp) ==
                  ListSort.Sorted(Items(old(spine)), cmp)
        decreases |spine| - n
      {
        assert Load(pp) == NodeAt(spine, n);
        assert forall k | 0 <= k < |spine| :: spine[k] in old(spine);
        ppPrev, pp := SortMore(ppPrev, pp, cmp, n);
        n := n + 1;
      }
      assert Load(pp) == NodeAt(spine, n);
      assert Items(spine)[..n] == Items(spine);
      tail := pp;
    }

    method ResetAll()
      requires Linked() && Distinct(iters) && cursors.Keys == set i | i in iters
      modifies this`cursors, iters
      ensures Settled()
      ensures cursors == map i: ListIterator<T> | i in old(cursors) :: START
    {
      for n := 0 to |iters|
        invariant cursors == old(cursors)
        invariant forall k | 0 <= k < n :: Points(iters[k].prev, iters[k].pos, START, spine)
      {
        iters[n].pos, iters[n].prev := head, HeadCell;
      }
      cursors := map i: ListIterator<T> | i in cursors :: START;
    }
  }
}
