// What the operations of a cbuf do to the bytes, said of the bytes themselves.

module CbufBytes {
  import opened Seqs
  import opened CbufSpec
  import opened CbufLaws
  import opened CbufLines

  // ----- room ----------------------------------------------------------------------

  // Memory is allocated in chunks of 1000 bytes.
  predicate WholeChunks(n: nat) {
    n % 1000 == 0
  }

  // The buffer grows exactly when bytes that do not fit are to come, there is room
  // below the maximum and memory is granted.
  lemma GrowsExactly(v: View, len: nat, granted: bool)
    requires v.Valid()
    ensures v.Grown(len, granted) == v.(size := v.Grown(len, granted).size)
    ensures v.Grown(len, granted).size > v.size <==> granted && |v.unread| + len > v.size && v.size < v.maxsize
  {
  }

  // Then to the least number of whole chunks that leaves a byte more than it has to, or
  // to the maximum if that is less.
  lemma GrowsLeast(v: View, len: nat)
    requires v.Valid() && |v.unread| + len > v.size && v.size < v.maxsize
    ensures var size := v.Grown(len, true).size;
      && size <= v.maxsize
      && (size < v.maxsize ==> WholeChunks(size + v.meta) && |v.unread| + len < size)
      && forall n | |v.unread| + len + v.meta < n && WholeChunks(n) :: size + v.meta <= n
  {
    var m := |v.unread| + len + v.meta;
    assert m == v.size + v.meta + (len - v.Free());
    NextChunk(m);
    forall n | m < n && WholeChunks(n) ensures m + (CHUNK - m % CHUNK) <= n {
      NoChunkBetween(m, n);
    }
  }

  lemma NextChunk(m: nat)
    ensures WholeChunks(m + (CHUNK - m % CHUNK)) && m < m + (CHUNK - m % CHUNK)
  {
  }

  lemma NoChunkBetween(m: nat, n: nat)
    requires m < n && WholeChunks(n)
    ensures m + (CHUNK - m % CHUNK) <= n
  {
    assert n == CHUNK * (n / CHUNK) && m == CHUNK * (m / CHUNK) + m % CHUNK;
  }

  // A descriptor asked for all the room there is fills it, without growth and without
  // loss; only a full buffer asks for a chunk.
  lemma WantedFillsTheRoom(v: View, granted: bool)
    requires v.Valid()
    ensures |v.unread| + v.Wanted(-1) == if |v.unread| < v.size then v.size else v.size + 1000
    ensures |v.unread| < v.size ==>
      && v.Grown(v.Wanted(-1), granted) == v
      && v.Admitted(v.Wanted(-1)) == v.Wanted(-1) && v.Overwritten(v.Wanted(-1)) == 0
    ensures forall len: nat :: v.Wanted(len) == len
  {
  }

  // ----- writing ---------------------------------------------------------------------

  // What is refused of a write is what the policy has no place for: under NO_DROP the
  // buffer is left full, under WRAP_ONCE exactly its size is accepted, under WRAP_MANY
  // everything. Nothing is refused while there is memory to grow.
  lemma WriteAccepts(v: View, s: seq<Byte>, granted: bool)
    requires v.Valid() && s != []
    ensures var o := v.Write(s, granted); var w, k := o.view, Max(o.rc, 0);
      && (o.rc == -1 || 0 < o.rc <= |s|)
      && (v.policy == NoDrop ==> (k < |s| ==> |w.unread| == w.size) && (k == |s| <==> |v.unread| + |s| <= w.size))
      && (v.policy == WrapOnce ==> (k < |s| ==> k == w.size) && (k == |s| <==> |s| <= w.size))
      && (v.policy == WrapMany ==> k == |s|)
      && (k < |s| ==> w.size == w.maxsize || !granted)
  {
    var g := v.Grown(|s|, granted);
    ArriveConserves(g, s[..g.Admitted(|s|)]);
  }

  // What is accepted is the start of s. The end of what was unread and of s stays unread,
  // the end of the history and of s is the history, as far as there is room.
  lemma WriteStores(v: View, s: seq<Byte>, granted: bool)
    requires v.Valid()
    ensures var o := v.Write(s, granted); var w, k := o.view, Max(o.rc, 0);
      && 0 <= k <= |s|
      && w == v.(replay := w.replay, unread := w.unread, size := w.size, gotWrap := w.gotWrap)
      && w.unread == LastN(v.unread + s[..k], w.size)
      && w.History() == LastN(v.History() + s[..k], w.size)
      && w.gotWrap == (v.gotWrap || |v.History()| + k > w.size)
      && o.ndropped == |v.unread| + k - |w.unread|
  {
    var g := v.Grown(|s|, granted);
    var k := g.Admitted(|s|);
    g.ArriveKeepsLatest(s[..k]);
    WriteConserves(v, s, granted);
    assert v.unread + [] == v.unread && v.History() + [] == v.History();
    assert LastN(v.unread, v.size) == v.unread && LastN(v.History(), v.size) == v.History();
  }

  // ----- reading -----------------------------------------------------------------------

  // Reading and rewinding move the border between what can be replayed and what is
  // unread, and touch nothing else.
  lemma ReadingMovesTheBorder(v: View, n: nat)
    requires v.Valid()
    ensures n <= |v.unread| ==> var w := v.Drop(n);
      && w == v.(replay := w.replay, unread := w.unread)
      && w.History() == v.History() && |w.replay| == |v.replay| + n
    ensures n <= |v.replay| ==> var w := v.Rewind(n);
      && w == v.(replay := w.replay, unread := w.unread)
      && w.History() == v.History() && |w.unread| == |v.unread| + n
  {
  }

  // cbuf_replay_line shows the end of the lines found, closed by a newline, in all of the
  // destination that they fill.
  lemma ShownIsTheEnd(r: seq<Byte>, m: nat, len: nat)
    requires 0 < m <= |r| && len > 1
    ensures var lines := r[|r| - m..] + if r[|r| - 1] == 10 then [] else [10];
      Shown(r, m, len) == LastN(lines, len - 1)
  {
    var k := Min(m, len - 1 - Unended(r));
    var lines := r[|r| - m..] + if r[|r| - 1] == 10 then [] else [10];
    LastNIsSlice(r, k);
    LastNIsSlice(lines, len - 1);
  }
}
