// The circular buffer of liblsd/cbuf.c.

module Cbuf {
  import opened Seqs
  import opened CbufSpec
  import opened CbufRing
  import opened CbufIo
  import opened CbufLines
  import opened CbufLaws

  class Cbuf {
    const minsize: nat
    const maxsize: nat
    var alloc: nat            // bytes allocated, cookies included
    var size: nat             // bytes of data the ring holds
    var used: nat             // bytes of unread data
    var overwrite: Policy
    var gotWrap: bool
    var iIn: nat              // where data is written in
    var iOut: nat             // where data is read out
    var iRep: nat             // where replayable data starts
    var data: array<Byte>     // size bytes and the sentinel

    ghost var view: View      // what the buffer means

    ghost function R(): Ring
      reads this, data
    {
      Ring(size, used, iIn, iOut, iRep, data[..])
    }

    ghost predicate Valid()
      reads this, data
    {
      data.Length == size + 1 && ValidWith(R())
    }

    // The invariant, were the ring r.
    ghost predicate ValidWith(r: Ring)
      reads this
    {
      && 0 < minsize <= size <= maxsize
      && size < alloc
      && (gotWrap || iRep == 0)
      && r == Ring(size, used, iIn, iOut, iRep, r.data)
      && r.Shows(view)
      && view.maxsize == maxsize && view.meta == alloc - size
      && view.policy == overwrite && view.gotWrap == gotWrap
    }

    constructor (min: nat, max: nat)
      requires 0 < min
      ensures Valid() && fresh(data)
      ensures view == View([], [], min, Max(min, max), 1, WrapMany, false)
    {
      minsize := min;
      maxsize := if max > min then max else min;
      alloc := min + 1;
      size := min;
      used := 0;
      overwrite := WrapMany;
      gotWrap := false;
      iIn, iOut, iRep := 0, 0, 0;
      data := new Byte[min + 1];
      view := View([], [], min, Max(min, max), 1, WrapMany, false);
    }

    method Flush()
      requires Valid()
      modifies this
      ensures Valid() && data == old(data)
      ensures view == View([], [], size, maxsize, alloc - size, overwrite, false)
      ensures size == old(size) && alloc == old(alloc) && overwrite == old(overwrite)
      ensures view == old(view).Flush()
    {
      used := 0;
      gotWrap := false;
      iIn, iOut, iRep := 0, 0, 0;
      view := view.Flush();
    }

    method OptSet(name: int, value: int) returns (rc: int)
      requires Valid()
      modifies this
      ensures Valid() && data == old(data)
      ensures rc == if name == OPT_OVERWRITE && 0 <= value <= 2 then 0 else -1
      ensures view ==
        if rc < 0 then old(view)
        else old(view).(policy := if value == 0 then NoDrop else if value == 1 then WrapOnce else WrapMany)
    {
      rc := 0;
      if name == OPT_OVERWRITE {
        match PolicyOf(value) {
          case Some(policy) =>
            overwrite := policy;
            view := view.(policy := policy);
          case None =>
            rc := -1;
        }
      } else {
        rc := -1;
      }
    }

    // ----- internals --------------------------------------------------------

    // Discards unread data, which stays replayable.
    method Dropper(len: nat)
      requires Valid() && 0 < len <= used
      modifies this`used, this`iOut, this`view
      ensures Valid() && view == old(view).Drop(len)
      ensures R() == old(R()).Dropped(len)
    {
      ghost var r := R();
      r.DroppedShows(view, len);
      view := view.Drop(len);
      MoveOut(used - len, iOut + len);
      assert R() == r.Dropped(len);
    }

    method MoveOut(n: nat, i: nat)
      requires i < 2 * (size + 1)
      modifies this`used, this`iOut
      ensures used == n && iOut == Wrap(i, size + 1)
      ensures R() == old(R()).(used := n, iOut := Wrap(i, size + 1))
    {
      used := n;
      iOut := Wrap(i, size + 1);
    }

    // Adds at least n bytes of room if that many are allowed and realloc, which
    // leaves the new bytes undefined, succeeds.
    method Grow(n: nat, granted: bool) returns (grown: nat)
      requires Valid() && 0 < n
      modifies this, data
      ensures Valid() && (data == old(data) || fresh(data))
      ensures view == old(view).(size := size)
      ensures size == if granted && old(size) < maxsize then old(view).GrownSize(n) else old(size)
      ensures grown == size - old(size)
    {
      if size == maxsize || !granted {
        return 0;
      }
      var sizeOld, sizeMeta := size, alloc - size;
      var m := alloc + n;
      m := Min(m + (CHUNK - m % CHUNK), maxsize + sizeMeta);
      ghost var ring := R();
      ghost var rest := Regrow(m, sizeMeta);
      ring.RegrownShows(view, rest);
      view := view.(size := size);
      return size - sizeOld;
    }

    // The part of cbuf_grow that follows the computation of the allocation m.
    method Regrow(m: nat, sizeMeta: nat) returns (ghost rest: seq<Byte>)
      requires data.Length == size + 1 && iRep <= size && iOut <= size
      requires sizeMeta == alloc - size && size < alloc <= m
      modifies this`alloc, this`size, this`data, this`iOut, this`iRep, data
      ensures data.Length == size + 1 && fresh(data)
      ensures alloc == m && size == m - sizeMeta
      ensures R() == old(R()).Regrown(rest)
    {
      ghost var ring := R();
      var sizeOld := size;
      data, rest := Reallocated(data, m - sizeMeta + 1);
      alloc := m;
      size := m - sizeMeta;
      MoveTail(sizeOld, ring, rest);
    }

    // The part of cbuf_grow that moves what is at the end of the old array to the end of
    // the new one.
    method MoveTail(sizeOld: nat, ghost ring: Ring, ghost rest: seq<Byte>)
      requires data.Length == size + 1 && data[..] == ring.data + rest && |ring.data| == sizeOld + 1
      requires ring == Ring(sizeOld, used, iIn, iOut, iRep, ring.data) && iRep <= sizeOld && iOut <= sizeOld
      modifies this`iOut, this`iRep, data
      ensures R() == ring.Regrown(rest)
    {
      if iRep > iIn {
        var tail := sizeOld + 1 - iRep;
        var to := size + 1 - tail;
        MoveUp(data, iRep, to, tail);
        ring.RegrownData(rest, to, tail, data[..]);
        if iOut >= iRep {
          iOut := iOut + (to - iRep);
        }
        iRep := to;
      } else {
        ring.RegrownLonger(rest, data[..]);
      }
    }

    // Copies up to len unread bytes into dst.
    method Reader(len: nat, dst: Sink) returns (n: int, dst': Sink)
      requires Valid() && 0 < len
      ensures n <= Min(len, used)
      ensures dst'.got == dst.got + view.unread[..Max(n, 0)]
      ensures if used == 0 then n == 0 else dst.Answers(n)
      ensures dst.Takes(Min(len, used)) ==> n == Min(len, used)
    {
      var bound := Min(len, used);
      if bound == 0 {
        return 0, dst;
      }
      n, dst' := CopyOut(iOut, bound, dst);
      R().UnreadHead(view, Max(n, 0));
    }

    // Copies up to len replay bytes, the most recent ones, into dst.
    method Replayer(len: nat, dst: Sink) returns (n: int, dst': Sink)
      requires Valid() && 0 < len
      ensures n <= Min(len, |view.replay|)
      ensures dst'.got == dst.got + LastN(view.replay, len)[..Max(n, 0)]
      ensures dst.Takes(Min(len, |view.replay|)) ==> n == Min(len, |view.replay|)
    {
      var nrepl := Wrap(iOut - iRep + (size + 1), size + 1);
      var bound := Min(len, nrepl);
      if bound == 0 {
        return 0, dst;
      }
      var start := Wrap(iOut - bound + (size + 1), size + 1);
      n, dst' := CopyOut(start, bound, dst);
      R().ReplayTail(view, len, bound, start, Max(n, 0));
    }

    // The copy loop of the reader and of the replayer. It passes the end of the
    // array at most once and stops at an error or a short count.
    method CopyOut(start: nat, len: nat, dst: Sink) returns (n: int, dst': Sink)
      requires data.Length == size + 1 && start <= size && 0 < len <= size
      ensures n <= len
      ensures dst'.got == dst.got + Walk(data[..], start, Max(n, 0))
      ensures Emptied(dst, len, n)
    {
      dst' := dst;
      ghost var bytes := data[..];
      CopyStarts(bytes, start, len, dst.got);
      var iSrc: nat, nleft: nat, m: int := start, len, 0;
      while nleft > 0
        invariant Copied(bytes, start, len, iSrc, nleft, dst.got, dst'.got)
        invariant Emptying(dst, dst', len, nleft)
      {
        var k := Min(nleft, size + 1 - iSrc);
        m, dst' := CopyChunk(iSrc, k, dst', bytes, start, len, nleft, dst);
        if m > 0 {
          nleft := nleft - m;
          iSrc := Wrap(iSrc + m, size + 1);
        }
        if k != m {
          break;
        }
      }
      n := if nleft == len then m else len - nleft;
    }

    // One call of the sink, when nleft elements are still to go to it.
    method CopyChunk(iSrc: nat, k: nat, dst: Sink,
        ghost bytes: seq<Byte>, ghost start: nat, ghost len: nat, ghost nleft: nat, ghost from: Sink)
      returns (m: int, dst': Sink)
      requires data.Length == size + 1 && bytes == data[..]
      requires Copied(bytes, start, len, iSrc, nleft, from.got, dst.got) && Emptying(from, dst, len, nleft)
      requires 0 < k <= nleft && iSrc + k <= size + 1
      ensures m <= k
      ensures Copied(bytes, start, len, Wrap(iSrc + Max(m, 0), size + 1), nleft - Max(m, 0), from.got, dst'.got)
      ensures m == k ==> Emptying(from, dst', len, nleft - k)
      ensures m != k ==> Emptied(from, len, if m <= 0 && nleft == len then m else len - (nleft - Max(m, 0)))
    {
      var chunk := data[iSrc..iSrc + k];
      assert chunk == bytes[iSrc..iSrc + k];
      m, dst' := Put(dst, chunk);
      CopyContinues(bytes, start, len, nleft, iSrc, k, Max(m, 0), from.got, dst.got, dst'.got);
      EmptyTurn(from, dst, dst', len, nleft, k, m);
    }

    // Stores one more chunk into an array that has come from `initial` by storing d.
    method StoreChunk(iDst: nat, chunk: seq<Byte>, ghost initial: seq<Byte>, ghost d: seq<Byte>)
      requires data.Length == size + 1 && iIn <= size && iDst + |chunk| <= size + 1 && iDst <= size
      requires |initial| == size + 1 && Stores(initial, iIn, d, data[..], iDst)
      modifies data
      ensures Stores(initial, iIn, d + chunk, data[..], Wrap(iDst + |chunk|, size + 1))
    {
      ghost var before := data[..];
      Store(data, iDst, chunk);
      StoresMore(initial, iIn, d, before, iDst, chunk, data[..]);
    }

    // The writer has stored d from its index on and stands at iDst, and src has given d.
    ghost predicate Storing(initial: seq<Byte>, d: seq<Byte>, iDst: nat, from: Source, src: Source, len: nat,
        nleft: nat)
      reads this, data
    {
      && data.Length == size + 1 == |initial| && iIn <= size && iDst <= size && nleft <= len
      && Stores(initial, iIn, d, data[..], iDst)
      && from.rest == d + src.rest && |d| == len - nleft
    }

    // One call of the source, when nleft bytes are still to come.
    method FillChunk(iDst: nat, k: nat, src: Source, ghost initial: seq<Byte>, ghost d: seq<Byte>, ghost from: Source,
        ghost len: nat, ghost nleft: nat)
      returns (m: int, src': Source, ghost d': seq<Byte>)
      requires Storing(initial, d, iDst, from, src, len, nleft) && Filling(from, src, len, nleft)
      requires 0 < k <= nleft && iDst + k <= size + 1
      modifies data
      ensures m <= k
      ensures Storing(initial, d', Wrap(iDst + Max(m, 0), size + 1), from, src', len, nleft - Max(m, 0))
      ensures m == k ==> Filling(from, src', len, nleft - k)
      ensures m != k ==> Filled(from, len, if m <= 0 && nleft == len then m else len - (nleft - Max(m, 0)))
    {
      var chunk;
      m, chunk, src' := Get(src, k);
      FillTurn(from, src, src', len, nleft, k, m);
      d' := d + chunk;
      Associative(d, chunk, src'.rest);
      if m > 0 {
        StoreChunk(iDst, chunk, initial, d);
      } else {
        assert d' == d;
      }
    }

    // The copy loop of the writer. It passes the end of the array as often as len
    // makes it and stops at an end of file, an error or a short count.
    method Fill(len: nat, src: Source) returns (n: int, iDst: nat, src': Source, ghost d: seq<Byte>)
      requires data.Length == size + 1 && iIn <= size && 0 < len && src.CanSupply(len)
      modifies data
      ensures iDst <= size && Stores(old(data[..]), iIn, d, data[..], iDst)
      ensures src.rest == d + src'.rest
      ensures |d| == Max(n, 0) <= len
      ensures Filled(src, len, n)
      ensures n <= 0 ==> data[..] == old(data[..])
    {
      src' := src;
      d := [];
      iDst := iIn;
      ghost var initial := data[..];
      var nleft: nat, m: int := len, 0;
      while nleft > 0
        invariant Storing(initial, d, iDst, src, src', len, nleft) && Filling(src, src', len, nleft)
        invariant nleft == len ==> m <= 0
      {
        var k := Min(nleft, size + 1 - iDst);
        m, src', d := FillChunk(iDst, k, src', initial, d, src, len, nleft);
        if m > 0 {
          nleft := nleft - m;
          iDst := Wrap(iDst + m, size + 1);
        }
        if k != m {
          break;
        }
      }
      n := if nleft == len then m else len - nleft;
    }

    // The index updates that follow a copy loop which stored n bytes into a ring
    // that was r.
    method UpdateIndices(iDst: nat, n: nat, nfree: nat, ghost r: Ring)
      requires r.InRange() && r == Ring(size, used, iIn, iOut, iRep, r.data)
      requires nfree == size - used && iDst <= size
      modifies this`used, this`gotWrap, this`iIn, this`iOut, this`iRep
      ensures R() == r.Filled(data[..], iDst, n)
      ensures gotWrap == (old(gotWrap) || n > nfree - r.ReplayLen())
      ensures gotWrap || iRep == old(iRep)
    {
      var nrepl := Wrap(iOut - iRep + (size + 1), size + 1);
      used := Min(used + n, size);
      iIn := iDst;
      if n > nfree - nrepl {
        gotWrap := true;
        iRep := Wrap(iIn + 1, size + 1);
      }
      if n > nfree {
        iOut := iRep;
      }
    }

    // They make the stored bytes d arrive.
    method Account(iDst: nat, n: nat, nfree: nat, ghost r: Ring, ghost d: seq<Byte>)
      requires ValidWith(r) && data.Length == size + 1
      requires iDst <= size && Stores(r.data, iIn, d, data[..], iDst)
      requires n == |d| && nfree == size - used
      modifies this`used, this`gotWrap, this`iIn, this`iOut, this`iRep, this`view
      ensures Valid() && view == old(view).Arrive(d)
    {
      r.FilledShows(view, data[..], iDst, d);
      UpdateIndices(iDst, n, nfree, r);
      view := view.Arrive(d);
    }

    // The attempt to grow, if len bytes do not fit, with which every write starts.
    method MakeRoom(len: nat, granted: bool) returns (nfree: nat)
      requires Valid()
      modifies this, data
      ensures Valid() && (data == old(data) || fresh(data))
      ensures view == old(view).Grown(len, granted) && nfree == size - used
    {
      nfree := size - used;
      if len > nfree && size < maxsize {
        var grown := Grow(len - nfree, granted);
        nfree := nfree + grown;
      }
    }

    // How many of len bytes the overwrite policy lets in.
    method Admit(len: nat) returns (bound: nat)
      requires Valid()
      ensures bound == view.Admitted(len)
    {
      bound := len;
      if overwrite == NoDrop {
        bound := Min(len, size - used);
      } else if overwrite == WrapOnce {
        bound := Min(len, size);
      }
    }

    // Writes up to len bytes of src, growing the buffer first if they do not fit.
    method Writer(len: nat, src: Source, granted: bool)
      returns (n: int, ndropped: nat, src': Source, ghost d: seq<Byte>)
      requires Valid() && 0 < len && src.CanSupply(len)
      modifies this, data
      ensures Valid() && (data == old(data) || fresh(data))
      ensures src.rest == d + src'.rest && |d| == Max(n, 0)
      ensures var g := old(view).Grown(len, granted);
        && view == g.Arrive(d)
        && (if g.Admitted(len) == 0 then n == -1 else Filled(src, g.Admitted(len), n))
        && ndropped == g.Overwritten(|d|)
    {
      var nfree := MakeRoom(len, granted);
      var bound := Admit(len);
      if bound == 0 {
        return -1, 0, src, [];
      }
      n, ndropped, src', d := FillAndAccount(bound, nfree, src);
    }

    // The part of cbuf_writer that follows the choice of the number of bytes.
    method FillAndAccount(len: nat, nfree: nat, src: Source)
      returns (n: int, ndropped: nat, src': Source, ghost d: seq<Byte>)
      requires Valid() && 0 < len && src.CanSupply(len) && nfree == size - used
      modifies this`used, this`gotWrap, this`iIn, this`iOut, this`iRep, this`view, data
      ensures Valid()
      ensures src.rest == d + src'.rest && |d| == Max(n, 0)
      ensures view == old(view).Arrive(d)
      ensures Filled(src, len, n)
      ensures ndropped == old(view).Overwritten(|d|)
    {
      ghost var r := R();
      var iDst;
      n, iDst, src', d := Fill(len, src);
      if n <= 0 {
        return n, 0, src', d;
      }
      ndropped := Max(0, n - nfree);
      Account(iDst, n, nfree, r, d);
    }

    // Copies up to len unread bytes of src into this buffer.
    method Copier(src: Cbuf, len: nat, granted: bool) returns (n: int, ndropped: nat)
      requires Valid() && src.Valid() && src != this && src.data != data && 0 < len
      modifies this, data
      ensures Valid() && (data == old(data) || fresh(data))
      ensures Outcome(view, n, ndropped) == old(view).Copy(src.view.unread[..Min(len, |src.view.unread|)], granted)
    {
      var avail := Min(len, src.used);
      if avail == 0 {
        return 0, 0;
      }
      var nfree := MakeRoom(avail, granted);
      n, ndropped := CopyAdmitted(src, avail, nfree);
    }

    // The part of cbuf_copier that follows the attempt to grow.
    method CopyAdmitted(src: Cbuf, avail: nat, nfree: nat) returns (n: int, ndropped: nat)
      requires Valid() && src.Valid() && src != this && src.data != data
      requires 0 < avail <= src.used && nfree == size - used
      modifies this`used, this`gotWrap, this`iIn, this`iOut, this`iRep, this`view, data
      ensures Valid()
      ensures Outcome(view, n, ndropped) == old(view).CopyAdmitted(src.view.unread[..avail])
    {
      var bound := Admit(avail);
      if bound == 0 {
        return -1, 0;
      }
      ndropped := Max(0, bound - size + used);
      var skip := Max(0, bound - size);
      LastNOfPrefix(src.view.unread, avail, bound, size, skip);
      TransferAndAccount(src, skip, bound, nfree);
      n := bound;
    }

    // The part of cbuf_copier that stores the unread bytes of src from the
    // skip-th up to the end-th.
    method TransferAndAccount(src: Cbuf, skip: nat, end: nat, nfree: nat)
      requires Valid() && src.Valid() && src != this && src.data != data
      requires skip < end <= src.used && nfree == size - used
      modifies this`used, this`gotWrap, this`iIn, this`iOut, this`iRep, this`view, data
      ensures Valid()
      ensures view == old(view).Arrive(src.view.unread[skip..end])
    {
      var n := end - skip;
      ghost var r, d := R(), src.view.unread[skip..end];
      src.R().UnreadMiddle(src.view, skip, end, Wrap(src.iOut + skip, src.size + 1), n);
      var iDst := Transfer(src, Wrap(src.iOut + skip, src.size + 1), n);
      Account(iDst, n, nfree, r, d);
    }

    // One turn of the copy loop of the copier, up to the end of either array.
    method TransferChunk(src: Cbuf, iSrc: nat, iDst: nat, n: nat, ghost initial: seq<Byte>,
        ghost bytes: seq<Byte>, ghost start: nat, ghost len: nat, ghost nleft: nat)
      requires data.Length == size + 1 && src.data.Length == src.size + 1 && src.data != data
      requires bytes == src.data[..] && Moved(initial, iIn, bytes, start, len, nleft, iSrc, data[..], iDst)
      requires n <= nleft && iSrc + n <= src.size + 1 && iDst + n <= size + 1
      modifies data
      ensures bytes == src.data[..]
      ensures Moved(initial, iIn, bytes, start, len, nleft - n, Wrap(iSrc + n, src.size + 1),
        data[..], Wrap(iDst + n, size + 1))
    {
      var chunk := src.data[iSrc..iSrc + n];
      assert chunk == bytes[iSrc..iSrc + n];
      ghost var done := len - nleft;
      WalkedChunk(bytes, start, done, iSrc, n, done + n);
      StoreChunk(iDst, chunk, initial, Walk(bytes, start, done));
    }

    // The copy loop of the copier, which passes the end of either array as often
    // as need be.
    method Transfer(src: Cbuf, start: nat, len: nat) returns (iDst: nat)
      requires data.Length == size + 1 && iIn <= size
      requires src.data.Length == src.size + 1 && start <= src.size && 0 < len <= src.size
      requires src.data != data
      modifies data
      ensures iDst <= size && Stores(old(data[..]), iIn, Walk(src.data[..], start, len), data[..], iDst)
    {
      ghost var initial, bytes := data[..], src.data[..];
      MoveStarts(initial, iIn, bytes, start, len);
      var iSrc: nat, nleft: nat := start, len;
      iDst := iIn;
      while nleft > 0
        invariant bytes == src.data[..] && Moved(initial, iIn, bytes, start, len, nleft, iSrc, data[..], iDst)
      {
        var n := Min(Min(src.size + 1 - iSrc, size + 1 - iDst), nleft);
        TransferChunk(src, iSrc, iDst, n, initial, bytes, start, len, nleft);
        iSrc := Wrap(iSrc + n, src.size + 1);
        iDst := Wrap(iDst + n, size + 1);
        nleft := nleft - n;
      }
    }

    // ----- lines ------------------------------------------------------------

    // The lines at the start of the unread data.
    method FindUnreadLine(chars: int, lines: int) returns (m: nat, nlines: nat)
      requires Valid() && lines >= -1
      ensures UnreadLines(view.unread, chars, lines, m, nlines)
    {
      m, nlines := 0, 0;
      ghost var u := view.unread;
      assert u[..0] == [];
      if lines == 0 || (lines <= -1 && chars <= 0) || used == 0 {
        return;
      }
      var n, linesLeft, l;
      n, m, l, linesLeft := ScanUnread(if lines > 0 then -1 else chars, lines);
      UnreadScanEnds(u, chars, lines, n);
      if linesLeft > 0 {
        return 0, 0;
      }
      nlines := l;
    }

    // Its loop, which counts characters down unless chars is -1 and lines unless
    // lines is -1.
    method ScanUnread(chars: int, lines: int) returns (n: nat, m: nat, l: nat, linesLeft: int)
      requires Valid() && 0 < used && (if lines > 0 then chars == -1 else lines == -1 && chars > 0)
      ensures n <= used && m == LastEnd(view.unread, n) && l == Ahead(view.unread, n)
      ensures
        if lines > 0 then
          linesLeft == lines - l >= 0 && (n == used || (linesLeft == 0 && view.unread[n - 1] == NEWLINE))
        else linesLeft == -1 && n == Min(chars, used)
    {
      var charsLeft := chars;
      linesLeft := lines;
      var i := iOut;
      n, m, l := 0, 0, 0;
      ghost var u := view.unread;
      R().ReachesIn(i, n);
      while i != iIn
        invariant n <= used && i == Wrap(iOut + n, size + 1) && (i == iIn <==> n == used)
        invariant m == LastEnd(u, n) && l == Ahead(u, n)
        invariant if lines > 0 then charsLeft == -1 && linesLeft == lines - l > 0
                  else linesLeft == -1 && charsLeft == chars - n > 0
        decreases used - n
      {
        var newline, next := NextUnread(i, n);
        n := n + 1;
        charsLeft := if charsLeft > 0 then charsLeft - 1 else charsLeft;
        if newline {
          linesLeft := if linesLeft > 0 then linesLeft - 1 else linesLeft;
          m := n;
          l := l + 1;
        }
        if charsLeft == 0 || linesLeft == 0 {
          return;
        }
        i := next;
      }
    }

    // Whether data[i], the n-th unread byte, is a newline.
    method NextUnread(i: nat, ghost n: nat) returns (newline: bool, next: nat)
      requires Valid() && n < used && i == Wrap(iOut + n, size + 1)
      ensures newline <==> view.unread[n] == NEWLINE
      ensures next == Wrap(iOut + (n + 1), size + 1) && (next == iIn <==> n + 1 == used)
    {
      R().UnreadAt(view, n);
      newline := data[i] == NEWLINE;
      next := Wrap(i + 1, size + 1);
      R().ReachesIn(next, n + 1);
    }

    // The lines at the end of the replay data, and whether a newline is missing.
    method FindReplayLine(chars: int, lines: int) returns (m: nat, nlines: nat, nl: nat)
      requires Valid() && lines >= -1
      ensures ReplayLines(view.replay, view.gotWrap, chars, lines, m, nlines)
      ensures nl == if lines == 0 || (lines < 0 && chars <= 0) then 0 else Unended(view.replay)
    {
      m, nlines, nl := 0, 0, 0;
      if lines == 0 || (lines <= -1 && chars <= 0) || iOut == iRep {
        FoundNothing(view.replay, gotWrap, chars, lines);
        return;
      }
      var charsLeft := if lines > 0 then -1 else chars + 1;
      var linesLeft := lines;
      var l := 0;
      R().ReplayBack(view, 1, Wrap(iOut + size, size + 1));
      if data[Wrap(iOut + size, size + 1)] != NEWLINE {
        nl := 1;
        charsLeft := charsLeft - 1;
      } else {
        if lines > 0 {
          linesLeft := linesLeft + 1;
        }
        l := -1;
      }
      m, nlines := ReplayLineFrom(charsLeft, linesLeft, l, chars, lines);
    }

    // The part of cbuf_find_replay_line that follows the look at the last byte.
    method ReplayLineFrom(charsLeft0: int, linesLeft0: int, l0: int, ghost chars: int, ghost lines: int)
      returns (m: nat, nlines: nat)
      requires Valid() && iOut != iRep && l0 == Unended(view.replay) - 1
      requires if lines > 0 then charsLeft0 < 0 && linesLeft0 == lines - l0
               else lines == linesLeft0 == -1 && chars > 0 && charsLeft0 == chars - l0
      ensures ReplayLines(view.replay, view.gotWrap, chars, lines, m, nlines)
    {
      var s := ScanReplay(charsLeft0, linesLeft0, l0);
      var l, linesLeft := s.l, s.linesLeft;
      m := s.m;
      if !gotWrap && (s.charsLeft > 0 || linesLeft > 0) {
        if linesLeft > 0 {
          linesLeft := linesLeft - 1;
        }
        m := s.n;
        l := l + 1;
      }
      if linesLeft > 0 {
        m, l := 0, 0;
      }
      ReplayScanned(view.replay, gotWrap, chars, lines, charsLeft0, linesLeft0, l0, s, m, l);
      nlines := l;
    }

    // Its loop, back from iOut to iRep.
    method ScanReplay(chars: int, lines: int, l0: int) returns (s: Scan)
      requires Valid() && chars != 0 && lines != 0
      ensures s == ScanFrom(view.replay, Scan(0, 0, l0, chars, lines))
    {
      s := Scan(0, 0, l0, chars, lines);
      ghost var e := ScanFrom(view.replay, s);
      var i := iOut;
      R().StartsBack();
      while i != iRep
        invariant BackAt(i, s.n) && s.n <= |view.replay| && ScanFrom(view.replay, s) == e
        decreases |view.replay| - s.n
      {
        i, s := TurnBack(i, s, e);
        if s.charsLeft == 0 || s.linesLeft == 0 {
          return;
        }
      }
    }

    // One turn, if the scan ends at e.
    method TurnBack(i: nat, s: Scan, ghost e: Scan) returns (i': nat, s': Scan)
      requires Valid() && s.n < |view.replay| && BackAt(i, s.n) && ScanFrom(view.replay, s) == e
      ensures BackAt(i', s'.n) && s'.n == s.n + 1
      ensures if s'.GoesOn() then ScanFrom(view.replay, s') == e else s' == e
    {
      var newline;
      i', newline := StepBack(i, s.n);
      s' := CountStep(s, newline);
    }

    // The counters after a step that came upon a newline or another character.
    static method CountStep(s: Scan, newline: bool) returns (s': Scan)
      ensures s' == s.Stepped(newline)
    {
      var charsLeft := if s.charsLeft > 0 then s.charsLeft - 1 else s.charsLeft;
      s' := s.(n := s.n + 1, charsLeft := charsLeft);
      if newline {
        var linesLeft := if s.linesLeft > 0 then s.linesLeft - 1 else s.linesLeft;
        s' := s'.(linesLeft := linesLeft, m := s.n, l := s.l + 1);
      }
    }

    // That i is n steps back from iOut.
    ghost predicate BackAt(i: nat, n: nat)
      reads this, data
    {
      R().BackAt(i, n)
    }

    // One step back, and whether it comes upon a newline.
    method StepBack(i: nat, ghost n: nat) returns (i': nat, newline: bool)
      requires Valid() && n < |view.replay| && BackAt(i, n)
      ensures BackAt(i', n + 1)
      ensures newline <==> view.replay[|view.replay| - (n + 1)] == NEWLINE
    {
      i' := Wrap(i + size, size + 1);
      newline := data[i'] == NEWLINE;
      R().StepBack(view, i, i', n, n + 1);
    }

    // ----- reading, dropping, rewinding ---------------------------------------

    // How many of the n bytes there are a length argument asks for: -1 for all.
    static function Asked(len: int, n: nat): (k: nat)
      ensures len < 0 ==> k == n
      ensures len >= 0 ==> k <= len && k <= n && (k == len || k == n)
    {
      if len < 0 then n else Min(len, n)
    }

    method Drop(len: int) returns (n: int)
      requires Valid()
      modifies this`used, this`iOut, this`view
      ensures n == if len < -1 then -1 else Asked(len, |old(view).unread|)
      ensures Valid() && view == old(view).Drop(Max(n, 0))
    {
      if len < -1 {
        return -1;
      }
      n := if len == -1 then used else Min(len, used);
      if n > 0 {
        Dropper(n);
      }
    }

    method Peek(len: int) returns (n: int, bytes: seq<Byte>)
      requires Valid()
      ensures n == if len < 0 then -1 else Min(len, |view.unread|)
      ensures bytes == view.unread[..Max(n, 0)]
    {
      if len < 0 {
        return -1, [];
      }
      if len == 0 {
        return 0, [];
      }
      var dst;
      n, dst := Reader(len, MemSink([]));
      bytes := dst.got;
    }

    method Read(len: int) returns (n: int, bytes: seq<Byte>)
      requires Valid()
      modifies this`used, this`iOut, this`view
      ensures n == if len < 0 then -1 else Min(len, |old(view).unread|)
      ensures bytes == old(view).unread[..Max(n, 0)]
      ensures Valid() && view == old(view).Drop(Max(n, 0))
      ensures R() == old(R()).Dropped(Max(n, 0))
    {
      n, bytes := Peek(len);
      if n > 0 {
        Dropper(n);
      }
    }

    // The descriptor may take fewer bytes than there are, or fail; what it took,
    // and no more, is consumed.
    method ReadToFd(dst: Sink, len: int) returns (n: int, dst': Sink)
      requires Valid() && dst.FdSink?
      modifies this`used, this`iOut, this`view
      ensures len < -1 ==> n == -1
      ensures n <= Asked(len, |old(view).unread|)
      ensures len >= -1 ==>
        if Asked(len, |old(view).unread|) == 0 then n == 0 else dst.Answers(n)
      ensures len >= -1 && dst.Takes(Asked(len, |old(view).unread|)) ==> n == Asked(len, |old(view).unread|)
      ensures dst'.got == dst.got + old(view).unread[..Max(n, 0)]
      ensures Valid() && view == old(view).Drop(Max(n, 0))
    {
      n, dst' := 0, dst;
      if len < -1 {
        return -1, dst;
      }
      var bound := if len == -1 then used else len;
      if bound > 0 {
        n, dst' := Reader(bound, dst);
        if n > 0 {
          Dropper(n);
        }
      }
    }

    method Replay(len: int) returns (n: int, bytes: seq<Byte>)
      requires Valid()
      ensures n == if len < 0 then -1 else Min(len, |view.replay|)
      ensures bytes == LastN(view.replay, Max(len, 0))
    {
      LastNIsSlice(view.replay, Max(len, 0));
      if len < 0 {
        return -1, [];
      }
      if len == 0 {
        return 0, [];
      }
      var dst;
      n, dst := Replayer(len, MemSink([]));
      bytes := dst.got;
    }

    // Puts the last n replay bytes back into the unread data.
    method Rewinder(n: nat)
      requires Valid() && 0 < n <= |view.replay|
      modifies this`used, this`iOut, this`view
      ensures Valid() && view == old(view).Rewind(n)
      ensures R() == old(R()).Rewound(n)
    {
      ghost var r := R();
      r.RewoundShows(view, n);
      view := view.Rewind(n);
      MoveOut(used + n, iOut - n + (size + 1));
      assert R() == r.Rewound(n);
    }

    method Rewind(len: int) returns (n: int)
      requires Valid()
      modifies this`used, this`iOut, this`view
      ensures n == if len < -1 then -1 else Asked(len, |old(view).replay|)
      ensures Valid() && view == old(view).Rewind(Max(n, 0))
      ensures n > 0 ==> R() == old(R()).Rewound(n)
    {
      view.DropOrRewindNothing();
      if len < -1 {
        return -1;
      }
      var reused := Wrap(iOut - iRep + (size + 1), size + 1);
      n := if len == -1 then reused else Min(len, reused);
      if n > 0 {
        Rewinder(n);
      }
    }

    // ----- reading, replaying and rewinding lines -----------------------------

    // m and found are what the scanner found. A text cut short for a destination
    // of len characters loses its end, but the whole lines are consumed.
    method ReadLine(len: int, lines: int) returns (n: int, text: seq<Byte>, ghost found: nat)
      requires Valid()
      modifies this`used, this`iOut, this`view
      ensures len < 0 || lines < -1 ==> n == -1
      ensures len >= 0 && lines >= -1 ==> n >= 0 && UnreadLines(old(view).unread, len - 1, lines, n, found)
      ensures text == old(view).unread[..Min(Max(n, 0), Max(len - 1, 0))]
      ensures Valid() && view == old(view).Drop(Max(n, 0))
    {
      n, text, found := 0, [], 0;
      view.DropOrRewindNothing();
      if len < 0 || lines < -1 {
        return -1, [], 0;
      }
      var m;
      m, found := FindUnreadLine(len - 1, lines);
      n := m;
      text := ReadFound(len, m);
    }

    // The m bytes found are consumed, and shown as far as there is room.
    method ReadFound(len: nat, m: nat) returns (text: seq<Byte>)
      requires Valid() && m <= used
      modifies this`used, this`iOut, this`view
      ensures text == old(view).unread[..Min(m, Max(len - 1, 0))]
      ensures Valid() && view == old(view).Drop(m)
    {
      text := [];
      view.DropOrRewindNothing();
      if m > 0 {
        text := UnreadText(Min(m, Max(len - 1, 0)));
        Dropper(m);
      }
    }

    method UnreadText(k: nat) returns (text: seq<Byte>)
      requires Valid() && k <= used
      ensures text == view.unread[..k]
    {
      text := [];
      if k > 0 {
        var n, dst := Reader(k, MemSink([]));
        text := dst.got;
      }
    }

    // A text cut short loses its beginning: the replayer replays what was read
    // last. The newline the replay data may lack is appended and counted.
    method ReplayLine(len: int, lines: int) returns (n: int, text: seq<Byte>, ghost m: nat, ghost found: nat)
      requires Valid()
      ensures len < 0 || lines < -1 ==> n == -1 && text == []
      ensures len >= 0 && lines >= -1 ==>
        && ReplayLines(view.replay, view.gotWrap, len - 1, lines, m, found)
        && n == (if m > 0 && len > 0 then m + Unended(view.replay) else m)
        && text == Shown(view.replay, m, len)
    {
      if len < 0 || lines < -1 {
        return -1, [], 0, 0;
      }
      n, text, m, found := ReplayAsked(len, lines);
    }

    method ReplayAsked(len: nat, lines: int) returns (n: int, text: seq<Byte>, ghost m: nat, ghost found: nat)
      requires Valid() && lines >= -1
      ensures ReplayLines(view.replay, view.gotWrap, len - 1, lines, m, found)
      ensures n == if m > 0 && len > 0 then m + Unended(view.replay) else m
      ensures text == Shown(view.replay, m, len)
    {
      var k, nl;
      k, found, nl := FindReplayLine(len - 1, lines);
      m := k;
      n, text := ReplayFound(len, k, nl);
    }

    // The k bytes found, with the newline that is not among them.
    method ReplayFound(len: int, k: nat, nl: nat) returns (n: nat, text: seq<Byte>)
      requires Valid() && len >= 0 && k <= |view.replay| && (k > 0 && len > 1 ==> nl == Unended(view.replay)) && nl <= 1
      ensures n == if k > 0 && len > 0 then k + nl else k
      ensures text == Shown(view.replay, k, len)
    {
      n, text := k, [];
      if n > 0 && len > 0 {
        var shown := Max(Min(n, len - 1 - nl), 0);
        text := ReplayText(shown, nl == 1 && len > 1);
        LastNIsSlice(view.replay, shown);
        n := n + nl;
      }
    }

    method ReplayText(shown: nat, newline: bool) returns (text: seq<Byte>)
      requires Valid() && shown <= |view.replay|
      ensures text == LastN(view.replay, shown) + if newline then [NEWLINE] else []
    {
      text := [];
      LastNIsSlice(view.replay, shown);
      if shown > 0 {
        var k, dst := Replayer(shown, MemSink([]));
        text := dst.got;
      }
      if newline {
        text := text + [NEWLINE];
      }
    }

    method RewindLine(len: int, lines: int) returns (n: int, ghost found: nat)
      requires Valid()
      modifies this`used, this`iOut, this`view
      ensures len < 0 || lines < -1 ==> n == -1
      ensures len >= 0 && lines >= -1 ==>
        n >= 0 && ReplayLines(old(view).replay, old(view).gotWrap, len, lines, n, found)
      ensures Valid() && view == old(view).Rewind(Max(n, 0))
    {
      n, found := 0, 0;
      view.DropOrRewindNothing();
      if len < 0 || lines < -1 {
        return -1, 0;
      }
      var m, nl;
      m, found, nl := FindReplayLine(len, lines);
      n := m;
      if n > 0 {
        Rewinder(n);
      }
    }

    // ----- writing ----------------------------------------------------------

    method Write(srcbuf: seq<Byte>, len: int, granted: bool) returns (n: int, ndropped: nat)
      requires Valid() && len <= |srcbuf|
      modifies this, data
      ensures Valid() && (data == old(data) || fresh(data))
      ensures len < 0 ==> n == -1 && ndropped == 0 && view == old(view)
      ensures len >= 0 ==> Outcome(view, n, ndropped) == old(view).Write(srcbuf[..len], granted)
    {
      if len < 0 {
        return -1, 0;
      }
      if len == 0 {
        return 0, 0;
      }
      n, ndropped := WriteAll(srcbuf[..len], granted);
    }

    // cbuf_writer on memory.
    method WriteAll(s: seq<Byte>, granted: bool) returns (n: int, ndropped: nat)
      requires Valid() && s != []
      modifies this, data
      ensures Valid() && (data == old(data) || fresh(data))
      ensures Outcome(view, n, ndropped) == old(view).Write(s, granted)
    {
      ghost var g := view.Grown(|s|, granted);
      var src;
      ghost var d;
      n, ndropped, src, d := Writer(|s|, MemSource(s), granted);
      assert d == s[..|d|];
    }

    // A descriptor may deliver fewer bytes than there is room for, reach its end
    // or fail; the bytes delivered arrive.
    method WriteFromFd(src: Source, len: int, granted: bool)
      returns (n: int, ndropped: nat, src': Source, ghost d: seq<Byte>)
      requires Valid() && src.FdSource?
      modifies this, data
      ensures Valid() && (data == old(data) || fresh(data))
      ensures len < -1 ==> n == -1
      ensures src.rest == d + src'.rest && |d| == Max(n, 0)
      ensures
        var want := old(view).Wanted(len);
        var g := old(view).Grown(want, granted);
        && view == g.Arrive(d) && n <= g.Admitted(want) && ndropped == g.Overwritten(|d|)
        && (len >= -1 && want > 0 && g.Admitted(want) == 0 ==> n == -1)
        && (len >= -1 && want == 0 ==> n == 0)
        && (len >= -1 && want > 0 && g.Admitted(want) > 0 ==> src.Answers(n))
      ensures len >= -1 && src.Gives(old(view).Wanted(len)) ==>
        Outcome(view, n, ndropped) == old(view).Write(src.rest[..old(view).Wanted(len)], granted)
    {
      n, ndropped, src', d := 0, 0, src, [];
      if len < -1 {
        n := -1;
        return;
      }
      var want := if len == -1 then (if size - used == 0 then CHUNK else size - used) else len;
      if want > 0 {
        ghost var v := view;
        n, ndropped, src', d := Writer(want, src, granted);
        if src.Gives(want) {
          GivenIsWritten(v, src, src', want, granted, d, n);
        }
      }
    }

    method WriteLine(srcbuf: seq<Byte>, granted0: bool, granted1: bool, granted2: bool)
      returns (n: int, ndropped: nat)
      requires Valid()
      modifies this, data
      ensures Valid() && (data == old(data) || fresh(data))
      ensures Outcome(view, n, ndropped) == old(view).WriteLine(srcbuf, granted0, granted1, granted2)
    {
      var missing := if srcbuf == [] || srcbuf[|srcbuf| - 1] != NEWLINE then [NEWLINE] else [];
      var len := |srcbuf| + |missing|;
      ghost var v := view;
      var nfree := MakeRoom(len, granted0);
      if overwrite == NoDrop && len > size - used {
        return -1, 0;
      }
      if overwrite == WrapOnce && len > size {
        return -1, 0;
      }
      n := len;
      ndropped := WriteAdmittedLine(srcbuf, missing, len, v, granted0, granted1, granted2);
    }

    // The rest of cbuf_write_line, once the line is known to be accepted.
    method WriteAdmittedLine(srcbuf: seq<Byte>, missing: seq<Byte>, len: nat, ghost v: View,
        ghost granted0: bool, granted1: bool, granted2: bool)
      returns (ndropped: nat)
      requires Valid() && v.Valid() && missing == Missing(srcbuf) && len == |srcbuf| + |missing|
      requires view == v.Grown(len, granted0) && view.AdmitsLine(len)
      modifies this, data
      ensures Valid() && (data == old(data) || fresh(data))
      ensures Outcome(view, len, ndropped) == v.WriteLine(srcbuf, granted0, granted1, granted2)
    {
      var pre := Max(0, len - size);
      v.WriteLineAdmitted(srcbuf, len, pre, granted0, granted1, granted2);
      ndropped := WriteParts(srcbuf[pre..], missing, len, pre, granted1, granted2);
    }

    // The two calls of cbuf_writer in cbuf_write_line.
    method WriteParts(s: seq<Byte>, t: seq<Byte>, ghost len: nat, pre: nat, granted1: bool, granted2: bool)
      returns (ndropped: nat)
      requires Valid() && view.AdmitsLine(|s| + |t|) && |s| + |t| <= size
      modifies this, data
      ensures Valid() && (data == old(data) || fresh(data))
      ensures Outcome(view, len, ndropped) == old(view).WriteTwice(s, t, len, pre, granted1, granted2)
    {
      AcceptsBoth(view, s, t, granted1, granted2);
      ghost var o1 := view.Write(s, granted1);
      ghost var o2 := o1.view.Write(t, granted2);
      var d1 := WritePart(s, granted1, o1);
      var d2 := WritePart(t, granted2, o2);
      ndropped := pre + d1 + d2;
    }

    // One of them, which the code asserts to write every byte.
    method WritePart(s: seq<Byte>, granted: bool, ghost o: Outcome) returns (ndropped: nat)
      requires Valid() && o == view.Write(s, granted) && o.rc == |s|
      modifies this, data
      ensures Valid() && (data == old(data) || fresh(data))
      ensures view == o.view && ndropped == o.ndropped
    {
      ndropped := 0;
      if s != [] {
        var n;
        n, ndropped := WriteAll(s, granted);
        assert n == |s|;
      }
    }

    // ----- copying and moving -------------------------------------------------

    method Copy(src: Cbuf, len: int, granted: bool) returns (n: int, ndropped: nat)
      requires Valid() && src.Valid() && (src != this ==> src.data != data)
      modifies this, data
      ensures Valid() && (data == old(data) || fresh(data))
      ensures src == this || len < -1 ==> n == -1 && ndropped == 0 && view == old(view)
      ensures src != this && len >= -1 ==>
        Outcome(view, n, ndropped) == old(view).Copy(src.view.unread[..Asked(len, |src.view.unread|)], granted)
    {
      if src == this || len < -1 {
        return -1, 0;
      }
      var bound := if len == -1 then src.used else len;
      if bound == 0 {
        return 0, 0;
      }
      n, ndropped := Copier(src, bound, granted);
    }

    method MoveFrom(src: Cbuf, len: int, granted: bool) returns (n: int, ndropped: nat)
      requires Valid() && src.Valid() && (src != this ==> src.data != data)
      modifies this, data, src`used, src`iOut, src`view
      ensures Valid() && src.Valid() && (data == old(data) || fresh(data))
      ensures src == this || len < -1 ==> n == -1 && ndropped == 0 && view == old(view) && src.view == old(src.view)
      ensures src != this && len >= -1 ==>
        && Outcome(view, n, ndropped) ==
           old(view).Copy(old(src.view).unread[..Asked(len, |old(src.view).unread|)], granted)
        && src.view == old(src.view).Drop(Max(n, 0))
    {
      n, ndropped := 0, 0;
      src.view.DropOrRewindNothing();
      if src == this || len < -1 {
        return -1, 0;
      }
      var bound := if len == -1 then src.used else len;
      if bound > 0 {
        n, ndropped := MoveSome(src, bound, granted);
      }
    }

    // The part of cbuf_move between the locks.
    method MoveSome(src: Cbuf, len: nat, granted: bool) returns (n: int, ndropped: nat)
      requires Valid() && src.Valid() && src != this && src.data != data && 0 < len
      modifies this, data, src`used, src`iOut, src`view
      ensures Valid() && src.Valid() && (data == old(data) || fresh(data))
      ensures var s := old(src.view); var asked := s.unread[..Min(len, |s.unread|)];
        Outcome(view, n, ndropped) == old(view).Copy(asked, granted) && n <= |s.unread| && src.view == s.Drop(Max(n, 0))
    {
      n, ndropped := Copier(src, len, granted);
      src.view.DropOrRewindNothing();
      if n > 0 {
        src.Dropper(n);
      }
    }
  }

  // cbuf_create: the sizes are the caller's, `granted` is whether there is memory.
  method Create(minsize: int, maxsize: int, granted: bool) returns (cb: Cbuf?)
    ensures cb == null <==> minsize <= 0 || !granted
    ensures cb != null ==> cb.Valid() && fresh(cb) && fresh(cb.data)
    ensures cb != null ==> cb.view == View([], [], minsize, Max(minsize, maxsize), 1, WrapMany, false)
  {
    if minsize <= 0 || !granted {
      return null;
    }
    cb := new Cbuf(minsize, Max(maxsize, 0));
  }

  // What getf does to the array: the chunk goes to data[i..].
  method Store(data: array<Byte>, i: nat, chunk: seq<Byte>)
    requires i + |chunk| <= data.Length
    modifies data
    ensures data[..] == old(data[..])[..i] + chunk + old(data[..])[i + |chunk|..]
  {
    forall k | 0 <= k < |chunk| {
      data[i + k] := chunk[k];
    }
  }

  // What realloc returns when it succeeds: the old bytes, then undefined ones.
  method Reallocated(data: array<Byte>, length: nat) returns (bigger: array<Byte>, ghost rest: seq<Byte>)
    requires data.Length <= length
    ensures fresh(bigger) && bigger[..] == data[..] + rest
    ensures bigger.Length == length
  {
    bigger := new Byte[length];
    forall k | 0 <= k < data.Length {
      bigger[k] := data[k];
    }
    rest := bigger[data.Length..];
  }

  // memmove to higher addresses of the same array.
  method MoveUp(data: array<Byte>, from: nat, to: nat, n: nat)
    requires from <= to && to + n <= data.Length
    modifies data
    ensures data[..] == old(data[..])[..to] + old(data[..])[from..from + n] + old(data[..])[to + n..]
  {
    forall k | 0 <= k < n {
      data[to + k] := data[from + k];
    }
  }
}
