// The ring behind a cbuf: three indices into data[0..size], of which one cell
// is always free, and what part of the ring holds replay and unread bytes.

module CbufRing {
  import opened Seqs
  import opened CbufSpec

  // x % m, for the values the code computes, which are never past two laps.
  function Wrap(x: int, m: nat): (r: nat)
    requires 0 < m && 0 <= x < 2 * m
  {
    if x < m then x else x - m
  }

  lemma WrapIsRemainder(x: int, m: nat)
    requires 0 < m && 0 <= x < 2 * m
    ensures Wrap(x, m) == x % m
  {
    RemainderIsUnique(x, m, if x < m then 0 else 1, Wrap(x, m));
  }

  lemma RemainderIsUnique(x: int, m: int, q: int, r: int)
    requires 0 < m && 0 <= r < m && x == q * m + r
    ensures x % m == r
  {
    var q' := x / m;
    assert x == q' * m + x % m;
    assert (q - q') * m == x % m - r;
    SmallMultiple(q - q', m);
  }

  lemma SmallMultiple(k: int, m: int)
    requires 0 < m && -m < k * m < m
    ensures k == 0
  {
  }

  // Taking the remainder at each of several steps gives the remainder of their sum.
  lemma RemainderOfSum(x: int, y: int, m: int)
    requires 0 < m
    ensures (x % m + y) % m == (x + y) % m
  {
    var s := x % m + y;
    assert x == x / m * m + x % m && s == s / m * m + s % m;
    assert x + y == (x / m + s / m) * m + s % m;
    RemainderIsUnique(x + y, m, x / m + s / m, s % m);
  }

  // ----- rotations ----------------------------------------------------------

  // The array read from index i round to index i again.
  function Rotated<T>(data: seq<T>, i: nat): (r: seq<T>)
    requires i <= |data|
    ensures |r| == |data|
    decreases i
  {
    if i == 0 then data else Rotated(data[1..] + [data[0]], i - 1)
  }

  lemma {:induction false} RotatedIsTwoSlices<T>(data: seq<T>, i: nat)
    requires i <= |data|
    ensures Rotated(data, i) == data[i..] + data[..i]
    decreases i
  {
    if i > 0 {
      RotatedIsTwoSlices(data[1..] + [data[0]], i - 1);
    }
  }

  lemma RotatedAt<T>(data: seq<T>, i: nat, k: nat)
    requires i < |data| && k < |data|
    ensures Rotated(data, i)[k] == data[Wrap(i + k, |data|)]
  {
    RotatedIsTwoSlices(data, i);
  }

  // ----- storing --------------------------------------------------------------

  // That storing the elements d one at a time from index i on, round the end of
  // the array as often as need be, turns data into data' and i into i'.
  ghost predicate Stores<T>(data: seq<T>, i: nat, d: seq<T>, data': seq<T>, i': nat)
    requires i < |data|
    decreases |d|
  {
    if d == [] then data' == data && i' == i
    else Stores(data[i := d[0]], Wrap(i + 1, |data|), d[1..], data', i')
  }

  lemma {:induction false} StoresKeepsBounds<T>(data: seq<T>, i: nat, d: seq<T>, data': seq<T>, i': nat)
    requires i < |data| && Stores(data, i, d, data', i')
    ensures i' < |data'| == |data|
    decreases |d|
  {
    if d != [] {
      StoresKeepsBounds(data[i := d[0]], Wrap(i + 1, |data|), d[1..], data', i');
    }
  }

  // A chunk that does not pass the end of the array is stored in one move.
  lemma {:induction false} StoresChunk<T>(data: seq<T>, i: nat, chunk: seq<T>)
    requires i < |data| && i + |chunk| <= |data|
    ensures Stores(data, i, chunk, data[..i] + chunk + data[i + |chunk|..], Wrap(i + |chunk|, |data|))
    decreases |chunk|
  {
    if chunk == [] {
      assert data == data[..i] + chunk + data[i + |chunk|..];
    } else if i + 1 < |data| {
      var data' := data[i := chunk[0]];
      StoresChunk(data', i + 1, chunk[1..]);
      assert data'[..i + 1] + chunk[1..] + data'[i + |chunk|..] == data[..i] + chunk + data[i + |chunk|..];
    } else {
      assert chunk == [chunk[0]] && data[i := chunk[0]] == data[..i] + chunk + data[i + 1..];
    }
  }

  // So the chunks of a copy loop amount to one long store.
  lemma {:induction false} StoresMore<T>(data: seq<T>, i: nat, d: seq<T>, before: seq<T>, iDst: nat,
      chunk: seq<T>, after: seq<T>)
    requires i < |data| && iDst < |before| && Stores(data, i, d, before, iDst)
    requires iDst + |chunk| <= |before| && after == before[..iDst] + chunk + before[iDst + |chunk|..]
    ensures Stores(data, i, d + chunk, after, Wrap(iDst + |chunk|, |before|))
    decreases |d|
  {
    if d == [] {
      assert d + chunk == chunk;
      StoresChunk(before, iDst, chunk);
    } else {
      assert (d + chunk)[0] == d[0] && (d + chunk)[1..] == d[1..] + chunk;
      StoresMore(data[i := d[0]], Wrap(i + 1, |data|), d[1..], before, iDst, chunk, after);
    }
  }

  // The input index is then where counting modulo the length of the array says.
  lemma {:induction false} StoresIndex<T>(data: seq<T>, i: nat, d: seq<T>, data': seq<T>, i': nat)
    requires i < |data| && Stores(data, i, d, data', i')
    ensures i' == (i + |d|) % |data|
    decreases |d|
  {
    if d == [] {
      WrapIsRemainder(i, |data|);
    } else {
      StoresIndex(data[i := d[0]], Wrap(i + 1, |data|), d[1..], data', i');
      WrapIsRemainder(i + 1, |data|);
      RemainderOfSum(i + 1, |d| - 1, |data|);
      assert i + 1 + (|d| - 1) == i + |d|;
    }
  }

  lemma StoresIndexSmall<T>(data: seq<T>, i: nat, d: seq<T>, data': seq<T>, i': nat)
    requires i < |data| && |d| <= |data| && Stores(data, i, d, data', i')
    ensures i' == Wrap(i + |d|, |data|)
  {
    StoresIndex(data, i, d, data', i');
    WrapIsRemainder(i + |d|, |data|);
  }

  // Read round from the input index, the array has lost its oldest elements to d.
  lemma {:induction false} StoresRotates<T>(data: seq<T>, i: nat, d: seq<T>, data': seq<T>, i': nat)
    requires i < |data| && Stores(data, i, d, data', i')
    ensures i' < |data'| == |data|
    ensures Rotated(data', i') == LastN(Rotated(data, i) + d, |data|)
    decreases |d|
  {
    if d == [] {
      LastNIsSlice(Rotated(data, i) + d, |data|);
      assert Rotated(data, i) + d == Rotated(data, i);
    } else {
      var next, iNext, ring := data[i := d[0]], Wrap(i + 1, |data|), Rotated(data, i);
      StoresRotates(next, iNext, d[1..], data', i');
      assert Rotated(next, iNext) == ring[1..] + [d[0]] by {
        RotatedIsTwoSlices(data, i);
        RotatedIsTwoSlices(next, iNext);
      }
      assert ring[1..] + [d[0]] + d[1..] == (ring + d)[1..];
    }
  }

  // When d has been stored, the last h elements before become the last ones of
  // those and d.
  lemma TailAfterStore<T>(ring: seq<T>, ring': seq<T>, d: seq<T>, h: nat, tail: seq<T>, tail': seq<T>, size: nat)
    requires ring' == LastN(ring + d, size + 1)
    requires h <= |ring| && tail == LastN(ring, h)
    requires tail' == LastN(ring', Min(h + |d|, size))
    ensures tail' == LastN(tail + d, size)
  {
    var m := Min(h + |d|, size);
    LastNTwice(ring + d, size + 1, m);
    LastNAppend(ring, d, h, m);
    LastNAll(tail + d, size);
  }

  // The n elements found walking the array from start on.
  ghost function Walk<T>(data: seq<T>, start: nat, n: nat): (r: seq<T>)
    requires start < |data| && n <= |data|
    ensures |r| == n
  {
    if n == 0 then [] else Walk(data, start, n - 1) + [data[Wrap(start + (n - 1), |data|)]]
  }

  lemma {:induction false} WalkAt<T>(data: seq<T>, start: nat, n: nat, k: nat)
    requires start < |data| && k < n <= |data|
    ensures Walk(data, start, n)[k] == data[Wrap(start + k, |data|)]
  {
    if k < n - 1 {
      WalkAt(data, start, n - 1, k);
    }
  }

  // A walk is determined by what it finds at each step.
  lemma {:induction false} WalkFinds<T>(data: seq<T>, start: nat, n: nat, found: seq<T>)
    requires start < |data| && |found| == n <= |data|
    requires forall k | 0 <= k < n :: found[k] == data[Wrap(start + k, |data|)]
    ensures Walk(data, start, n) == found
  {
    if n > 0 {
      WalkFinds(data, start, n - 1, found[..n - 1]);
    }
  }

  // That the walk finds these elements, first to last.
  ghost predicate Finds<T>(data: seq<T>, start: nat, found: seq<T>)
    requires start < |data|
    decreases |found|
  {
    found != [] ==> data[start] == found[0] && Finds(data, Wrap(start + 1, |data|), found[1..])
  }

  lemma {:induction false} FindsAt<T>(data: seq<T>, start: nat, found: seq<T>, k: nat)
    requires start < |data| && k < |found| < |data| && Finds(data, start, found)
    ensures found[k] == data[Wrap(start + k, |data|)]
    decreases k
  {
    if k > 0 {
      FindsAt(data, Wrap(start + 1, |data|), found[1..], k - 1);
    }
  }

  lemma {:induction false} FindsIsWalk<T>(data: seq<T>, start: nat, found: seq<T>)
    requires start < |data| && |found| < |data|
    ensures Finds(data, start, found) <==> found == Walk(data, start, |found|)
    decreases |found|
  {
    if found != [] {
      var next := Wrap(start + 1, |data|);
      FindsIsWalk(data, next, found[1..]);
      WalkSplits(data, start, 1, next, |found| - 1, |found|);
      assert Walk(data, start, 1) == [data[start]];
      assert found == [found[0]] + found[1..];
    }
  }

  lemma {:induction false} WalkSplits<T>(data: seq<T>, start: nat, k: nat, mid: nat, m: nat, n: nat)
    requires start < |data| && n <= |data| && k < |data|
    requires mid == Wrap(start + k, |data|) && n == k + m
    ensures Walk(data, start, n) == Walk(data, start, k) + Walk(data, mid, m)
    decreases m
  {
    if m > 0 {
      WalkSplits(data, start, k, mid, m - 1, n - 1);
      assert Wrap(mid + (m - 1), |data|) == Wrap(start + (n - 1), |data|);
    }
  }

  lemma WalkSlice<T>(data: seq<T>, start: nat, total: nat, skip: nat, mid: nat, n: nat)
    requires start < |data| && total < |data| && skip + n <= total && mid == Wrap(start + skip, |data|)
    ensures Walk(data, start, total)[skip..skip + n] == Walk(data, mid, n)
  {
    WalkSplits(data, start, skip, mid, total - skip, total);
    WalkSplits(data, mid, n, Wrap(mid + n, |data|), total - skip - n, total - skip);
  }

  // Walking up to i finds what was stored last.
  lemma WalkToIn<T>(data: seq<T>, i: nat, n: nat, s: nat)
    requires i < |data| && n < |data| && s == Wrap(i - n + |data|, |data|)
    ensures Walk(data, s, n) == LastN(Rotated(data, i), n)
  {
    LastNIsSlice(Rotated(data, i), n);
    forall k | 0 <= k < n ensures LastN(Rotated(data, i), n)[k] == data[Wrap(s + k, |data|)] {
      RotatedAt(data, i, |data| - n + k);
      assert Wrap(i + (|data| - n + k), |data|) == Wrap(s + k, |data|);
    }
    WalkFinds(data, s, n, LastN(Rotated(data, i), n));
  }

  // So after d has been stored the walk finds the end of what it found before and d.
  lemma WalkAfterStore<T>(data: seq<T>, iIn: nat, start: nat, h: nat, found: seq<T>, d: seq<T>,
                          data': seq<T>, iDst: nat, start': nat, h': nat, found': seq<T>, size: nat)
    requires iIn < |data| == size + 1 && h <= size && Stores(data, iIn, d, data', iDst)
    requires start == Wrap(iIn - h + (size + 1), size + 1) && h' == Min(h + |d|, size)
    requires iDst < |data'| == size + 1 && start' == Wrap(iDst - h' + (size + 1), size + 1)
    requires found == Walk(data, start, h) && found' == Walk(data', start', h')
    ensures found' == LastN(found + d, size)
  {
    StoresRotates(data, iIn, d, data', iDst);
    WalkToIn(data, iIn, h, start);
    WalkToIn(data', iDst, h', start');
    TailAfterStore(Rotated(data, iIn), Rotated(data', iDst), d, h, found, found', size);
  }

  // An array slice on the way continues the elements found before it.
  lemma WalkedChunk<T>(data: seq<T>, start: nat, done: nat, at: nat, k: nat, next: nat)
    requires start < |data| && next == done + k <= |data| && done < |data|
    requires at == Wrap(start + done, |data|) && at + k <= |data|
    ensures Walk(data, start, next) == Walk(data, start, done) + data[at..at + k]
  {
    WalkSplits(data, start, done, at, k, next);
    WalkFinds(data, at, k, data[at..at + k]);
  }

  // The walk from `start` has put len - nleft elements behind `got`; `at` is where it stands.
  ghost predicate Copied<T>(data: seq<T>, start: nat, len: nat, at: nat, nleft: nat, got: seq<T>, got': seq<T>) {
    && start < |data| && nleft <= len < |data|
    && at < |data| && at == Wrap(start + (len - nleft), |data|)
    && got' == got + Walk(data, start, len - nleft)
  }

  lemma CopyStarts<T>(data: seq<T>, start: nat, len: nat, got: seq<T>)
    requires start < |data| && len < |data|
    ensures Copied(data, start, len, start, len, got, got)
  {
    assert Walk(data, start, 0) == [];
  }

  // So copying the head of a slice continues a copy of what the walk found before.
  lemma CopyContinues<T>(data: seq<T>, start: nat, len: nat, nleft: nat, at: nat, k: nat, m: nat,
      got: seq<T>, got': seq<T>, got'': seq<T>)
    requires Copied(data, start, len, at, nleft, got, got')
    requires m <= k <= nleft && at + k <= |data|
    requires got'' == got' + data[at..at + k][..m]
    ensures Copied(data, start, len, Wrap(at + m, |data|), nleft - m, got, got'')
  {
    var done := len - nleft;
    WalkedChunk(data, start, done, at, m, done + m);
    assert data[at..at + k][..m] == data[at..at + m];
    Associative(got, Walk(data, start, done), data[at..at + m]);
  }

  // A copy that has stored len - nleft elements of the walk through `bytes`.
  ghost predicate Moved<T>(initial: seq<T>, iIn: nat, bytes: seq<T>, start: nat, len: nat, nleft: nat,
      iSrc: nat, data: seq<T>, iDst: nat)
  {
    && start < |bytes| && nleft <= len < |bytes|
    && iSrc < |bytes| && iSrc == Wrap(start + (len - nleft), |bytes|)
    && iIn < |initial| == |data| && iDst < |data|
    && Stores(initial, iIn, Walk(bytes, start, len - nleft), data, iDst)
  }

  lemma MoveStarts<T>(initial: seq<T>, iIn: nat, bytes: seq<T>, start: nat, len: nat)
    requires start < |bytes| && len < |bytes| && iIn < |initial|
    ensures Moved(initial, iIn, bytes, start, len, len, start, initial, iIn)
  {
    assert Walk(bytes, start, 0) == [];
  }

  // ----- the ring -----------------------------------------------------------

  datatype Ring = Ring(
    size: nat,           // bytes of data the ring holds
    used: nat,           // bytes of unread data
    iIn: nat,            // where data is written in
    iOut: nat,           // where data is read out
    iRep: nat,           // where replayable data starts
    data: seq<Byte>)     // size bytes and the sentinel
  {
    ghost predicate InRange() {
      0 < size && used <= size && iIn <= size && iOut <= size && iRep <= size && |data| == size + 1
    }

    // The index part of cbuf_is_valid, in the code's own case split.
    ghost predicate Valid() {
      && InRange()
      && (if iIn >= iOut then iRep > iIn || iRep <= iOut else iRep > iIn && iRep <= iOut)
      && size - used == Wrap(iOut - iIn - 1 + (size + 1), size + 1)
    }

    // The number of replayable bytes.
    ghost function ReplayLen(): nat
      requires InRange()
    {
      Wrap(iOut - iRep + (size + 1), size + 1)
    }

    // Walking the array from iOut finds the unread bytes, from iRep the replay bytes.
    ghost function Unread(): (r: seq<Byte>)
      requires InRange()
      ensures |r| == used
    {
      Walk(data, iOut, used)
    }

    ghost function Replay(): (r: seq<Byte>)
      requires InRange()
      ensures |r| == ReplayLen()
    {
      Walk(data, iRep, ReplayLen())
    }

    // The two of them in one walk.
    ghost function HistoryLen(): nat
      requires InRange()
    {
      ReplayLen() + used
    }

    ghost function History(): (r: seq<Byte>)
      requires InRange() && HistoryLen() <= size
    {
      Walk(data, iRep, HistoryLen())
    }

    // The code's case split says that unread data ends at iIn and that replay
    // and unread data together leave at least one cell of the ring free.
    lemma ValidMeansRoom()
      requires InRange()
      ensures Valid() <==> iIn == Wrap(iOut + used, size + 1) && ReplayLen() + used <= size
    {
    }

    // So every index is a walk away from the others.
    lemma Indices()
      requires Valid()
      ensures HistoryLen() <= size
      ensures Wrap(iRep + ReplayLen(), |data|) == iOut == Wrap(iIn - used + |data|, |data|)
      ensures Wrap(iOut + used, |data|) == iIn
      ensures Wrap(iIn - HistoryLen() + |data|, |data|) == iRep
    {
      ValidMeansRoom();
    }

    // Going forward from iOut comes to iIn after the unread bytes.
    lemma ReachesIn(i: nat, n: nat)
      requires Valid() && n <= used && i == Wrap(iOut + n, size + 1)
      ensures i == iIn <==> n == used
    {
      Indices();
    }

    lemma HistorySplits()
      requires Valid()
      ensures HistoryLen() <= size
      ensures History() == Replay() + Unread()
    {
      Indices();
      WalkSplits(data, iRep, ReplayLen(), iOut, used, HistoryLen());
    }

    // ----- dropping and rewinding -------------------------------------------

    function Dropped(n: nat): Ring
      requires n <= used && iOut <= size && n <= size + 1
    {
      this.(used := used - n, iOut := Wrap(iOut + n, size + 1))
    }

    lemma DroppedRoom(n: nat)
      requires Valid() && n <= used
      ensures Dropped(n).Valid() && Dropped(n).ReplayLen() == ReplayLen() + n
    {
      ValidMeansRoom();
      Dropped(n).ValidMeansRoom();
    }

    lemma DroppedView(n: nat)
      requires Valid() && n <= used
      ensures Dropped(n).Valid()
      ensures Dropped(n).Replay() == Replay() + Unread()[..n]
      ensures Dropped(n).Unread() == Unread()[n..]
    {
      Indices();
      DroppedRoom(n);
      WalkSplits(data, iRep, ReplayLen(), iOut, n, Dropped(n).ReplayLen());
      WalkSplits(data, iOut, n, Dropped(n).iOut, used - n, used);
    }

    function Rewound(n: nat): Ring
      requires n <= iOut + (size + 1) && iOut <= size
    {
      this.(used := used + n, iOut := Wrap(iOut - n + (size + 1), size + 1))
    }

    lemma RewoundRoom(n: nat)
      requires Valid() && n <= ReplayLen()
      ensures Rewound(n).Valid() && Rewound(n).ReplayLen() == ReplayLen() - n
      ensures Rewound(n).Dropped(n) == this
    {
      ValidMeansRoom();
      Rewound(n).ValidMeansRoom();
    }

    lemma RewoundView(n: nat)
      requires Valid() && n <= ReplayLen()
      ensures Rewound(n).Valid()
      ensures Rewound(n).Replay() == Replay()[..ReplayLen() - n]
      ensures Rewound(n).Unread() == Replay()[ReplayLen() - n..] + Unread()
    {
      RewoundRoom(n);
      Rewound(n).DroppedView(n);
    }

    // Rewinding what was just dropped restores every index, across any wrap.
    lemma RewindUndoesDrop(n: nat)
      requires Valid() && n <= used
      ensures Dropped(n).Valid() && n <= Dropped(n).ReplayLen()
      ensures Dropped(n).Rewound(n) == this
    {
      ValidMeansRoom();
      DroppedRoom(n);
    }

    // ----- growing ----------------------------------------------------------

    // After realloc has appended rest, the part of the ring from iRep to the old
    // end, if history wraps there, is moved to the new end with its indices.
    function Regrown(rest: seq<Byte>): Ring
      requires iRep <= |data|
    {
      var longer := data + rest;
      if iRep > iIn then
        this.(size := size + |rest|,
              iOut := if iOut >= iRep then iOut + |rest| else iOut,
              iRep := iRep + |rest|,
              data := longer[..iRep + |rest|] + longer[iRep..|data|])
      else
        this.(size := size + |rest|, data := longer)
    }

    // memmove makes the array that of the regrown ring.
    lemma RegrownData(rest: seq<Byte>, to: nat, tail: nat, after: seq<Byte>)
      requires iIn < iRep <= |data| && tail == |data| - iRep && to == iRep + |rest|
      requires var longer := data + rest;
        after == longer[..to] + longer[iRep..iRep + tail] + longer[to + tail..]
      ensures Ring(size + |rest|, used, iIn, if iOut >= iRep then iOut + |rest| else iOut, to, after) == Regrown(rest)
    {
    }

    lemma RegrownLonger(rest: seq<Byte>, after: seq<Byte>)
      requires iRep <= iIn && iRep <= |data| && after == data + rest
      ensures Ring(size + |rest|, used, iIn, iOut, iRep, after) == Regrown(rest)
    {
    }

    // A walk that stays between iRep and iIn finds the same bytes after the move.
    lemma RegrownWalk(rest: seq<Byte>, start: nat, n: nat)
      requires InRange() && start <= size
      requires if iRep <= iIn then iRep <= start && start + n <= iIn
               else start <= iIn || iRep <= start
      requires iRep > iIn ==> n <= Wrap(iIn - start + (size + 1), size + 1)
      ensures var start' := if start >= iRep > iIn then start + |rest| else start;
        Walk(Regrown(rest).data, start', n) == Walk(data, start, n)
    {
      var r := Regrown(rest);
      var start' := if start >= iRep > iIn then start + |rest| else start;
      forall k | 0 <= k < n ensures Walk(data, start, n)[k] == r.data[Wrap(start' + k, |r.data|)] {
        WalkAt(data, start, n, k);
        RegrownStep(rest, start, k);
      }
      WalkFinds(r.data, start', n, Walk(data, start, n));
    }

    lemma RegrownStep(rest: seq<Byte>, start: nat, k: nat)
      requires InRange() && start <= size
      requires if iRep <= iIn then iRep <= start && start + k < iIn
               else start <= iIn || iRep <= start
      requires iRep > iIn ==> k < Wrap(iIn - start + (size + 1), size + 1)
      ensures var start', r := if start >= iRep > iIn then start + |rest| else start, Regrown(rest);
        Wrap(start' + k, |r.data|) < |r.data| && r.data[Wrap(start' + k, |r.data|)] == data[Wrap(start + k, |data|)]
    {
    }

    lemma RegrownReplay(rest: seq<Byte>)
      requires Valid()
      ensures Regrown(rest).InRange() && Regrown(rest).ReplayLen() == ReplayLen()
      ensures Regrown(rest).Replay() == Replay()
    {
      ValidMeansRoom();
      RegrownWalk(rest, iRep, ReplayLen());
    }

    lemma RegrownView(rest: seq<Byte>)
      requires Valid()
      ensures Regrown(rest).Valid()
      ensures Regrown(rest).Replay() == Replay()
      ensures Regrown(rest).Unread() == Unread()
    {
      ValidMeansRoom();
      Regrown(rest).ValidMeansRoom();
      RegrownReplay(rest);
      RegrownWalk(rest, iOut, used);
    }

    // ----- storing ----------------------------------------------------------

    // The index updates that follow the storing of n bytes which left the input
    // index at iDst and the array as data'.
    function Filled(data': seq<Byte>, iDst: nat, n: nat): Ring
      requires used <= size && iOut <= size && iRep <= size && iDst <= size
    {
      var nfree := size - used;
      var nrepl := Wrap(iOut - iRep + (size + 1), size + 1);
      var rep := if n > nfree - nrepl then Wrap(iDst + 1, size + 1) else iRep;
      Ring(size, Min(used + n, size), iDst, if n > nfree then rep else iOut, rep, data')
    }

    lemma FilledRoom(data': seq<Byte>, iDst: nat, n: nat)
      requires Valid() && |data'| == size + 1 && iDst <= size
      requires n <= size ==> iDst == Wrap(iIn + n, size + 1)
      ensures Filled(data', iDst, n).Valid()
      ensures Filled(data', iDst, n).HistoryLen() == Min(HistoryLen() + n, size)
    {
      ValidMeansRoom();
      Filled(data', iDst, n).ValidMeansRoom();
    }

    // A ring that differs by the storing of d and counts it has for its history
    // the end of the old history and d.
    lemma HistoryAfterStore(r: Ring, d: seq<Byte>)
      requires Valid() && r.Valid() && r.size == size
      requires Stores(data, iIn, d, r.data, r.iIn)
      requires r.HistoryLen() == Min(HistoryLen() + |d|, size)
      ensures HistoryLen() <= size
      ensures r.History() == LastN(History() + d, size)
    {
      Indices();
      r.Indices();
      WalkAfterStore(data, iIn, iRep, HistoryLen(), History(), d,
        r.data, r.iIn, r.iRep, r.HistoryLen(), r.History(), size);
    }

    // And so for its unread part.
    lemma UnreadAfterStore(r: Ring, d: seq<Byte>)
      requires Valid() && r.Valid() && r.size == size
      requires Stores(data, iIn, d, r.data, r.iIn)
      requires r.used == Min(used + |d|, size)
      ensures r.Unread() == LastN(Unread() + d, size)
    {
      Indices();
      r.Indices();
      WalkAfterStore(data, iIn, iOut, used, Unread(), d, r.data, r.iIn, r.iOut, r.used, r.Unread(), size);
    }

    // ----- what the ring means ----------------------------------------------

    // That walking the ring finds the replay and the unread bytes of v.
    ghost predicate Shows(v: View) {
      && Valid() && v.Valid() && v.size == size
      && |v.replay| == ReplayLen() && Finds(data, iRep, v.replay)
      && |v.unread| == used && Finds(data, iOut, v.unread)
    }

    // What looking at the array forward from iOut and back from it finds.
    lemma UnreadAt(v: View, k: nat)
      requires Shows(v) && k < used
      ensures v.unread[k] == data[Wrap(iOut + k, size + 1)]
    {
      FindsAt(data, iOut, v.unread, k);
    }

    // That i is n steps back from iOut.
    ghost predicate BackAt(i: nat, n: nat) {
      && InRange() && n <= ReplayLen() && i <= size && i == Wrap(iOut - n + (size + 1), size + 1)
      && (i == iRep <==> n == ReplayLen())
    }

    lemma StartsBack()
      requires Valid()
      ensures BackAt(iOut, 0)
    {
    }

    // What the next step back adds to the scan.
    lemma StepBack(v: View, i: nat, i': nat, n: nat, next: nat)
      requires Shows(v) && next == n + 1 && BackAt(i, n) && n < |v.replay| && i <= size
      requires i' == Wrap(i + size, size + 1)
      ensures next <= |v.replay| && i' <= size && BackAt(i', next)
      ensures v.replay[|v.replay| - next] == data[i']
    {
      ReplayBack(v, next, i');
    }

    lemma ReplayBack(v: View, n: nat, i: nat)
      requires Shows(v) && 0 < n <= |v.replay| && i == Wrap(iOut - n + (size + 1), size + 1)
      ensures v.replay[|v.replay| - n] == data[i]
      ensures i == iRep <==> n == |v.replay|
    {
      Indices();
      FindsAt(data, iRep, v.replay, |v.replay| - n);
    }

    lemma ShowsBytes(v: View)
      requires Valid() && v.Valid() && v.size == size
      ensures Shows(v) <==> v.replay == Replay() && v.unread == Unread()
    {
      if |v.replay| == ReplayLen() && |v.unread| == used {
        FindsIsWalk(data, iRep, v.replay);
        FindsIsWalk(data, iOut, v.unread);
      }
    }

    // What copies of the unread and of the replay data find.
    lemma UnreadHead(v: View, n: nat)
      requires Shows(v) && n <= used
      ensures v.unread[..n] == Walk(data, iOut, n)
    {
      Indices();
      ShowsBytes(v);
      WalkSplits(data, iOut, n, Wrap(iOut + n, size + 1), used - n, used);
    }

    lemma UnreadMiddle(v: View, skip: nat, end: nat, start: nat, n: nat)
      requires Shows(v) && skip < end <= used
      requires start == Wrap(iOut + skip, size + 1) && n == end - skip
      ensures v.unread[skip..end] == Walk(data, start, n)
    {
      Indices();
      ShowsBytes(v);
      WalkSlice(data, iOut, used, skip, start, n);
    }

    lemma ReplayTail(v: View, len: nat, bound: nat, start: nat, n: nat)
      requires Shows(v) && bound == Min(len, ReplayLen()) && n <= bound
      requires start == Wrap(iOut - bound + (size + 1), size + 1)
      ensures LastN(v.replay, len)[..n] == Walk(data, start, n)
    {
      var from := ReplayLen() - bound;
      Indices();
      ShowsBytes(v);
      LastNIsSlice(v.replay, len);
      assert LastN(v.replay, len)[..n] == v.replay[from..from + n];
      WalkSlice(data, iRep, ReplayLen(), from, start, n);
    }

    lemma DroppedShows(v: View, n: nat)
      requires Shows(v) && n <= used
      ensures Dropped(n).Shows(v.Drop(n))
    {
      DroppedView(n);
      ShowsBytes(v);
      Dropped(n).ShowsBytes(v.Drop(n));
    }

    lemma RewoundShows(v: View, n: nat)
      requires Shows(v) && n <= ReplayLen()
      ensures Rewound(n).Shows(v.Rewind(n))
    {
      RewoundView(n);
      ShowsBytes(v);
      Rewound(n).ShowsBytes(v.Rewind(n));
    }

    lemma RegrownShows(v: View, rest: seq<Byte>)
      requires Shows(v) && size + |rest| <= v.maxsize
      ensures Regrown(rest).Shows(v.(size := size + |rest|))
    {
      RegrownView(rest);
      ShowsBytes(v);
      Regrown(rest).ShowsBytes(v.(size := size + |rest|));
    }

    lemma FilledShows(v: View, data': seq<Byte>, iDst: nat, d: seq<Byte>)
      requires Shows(v) && iDst <= size && Stores(data, iIn, d, data', iDst)
      ensures Filled(data', iDst, |d|).Shows(v.Arrive(d))
      ensures v.Arrive(d).gotWrap <==> v.gotWrap || |d| > size - used - ReplayLen()
    {
      var r := Filled(data', iDst, |d|);
      StoresKeepsBounds(data, iIn, d, data', iDst);
      if |d| <= size {
        StoresIndexSmall(data, iIn, d, data', iDst);
      }
      FilledRoom(data', iDst, |d|);
      HistoryAfterStore(r, d);
      UnreadAfterStore(r, d);
      HistorySplits();
      r.HistorySplits();
      v.ArriveKeepsLatest(d);
      ShowsBytes(v);
      SamePrefix(v.Arrive(d).replay, r.Replay(), r.Unread());
      r.ShowsBytes(v.Arrive(d));
    }
  }
}
