// The objects a cbuf is filled from and emptied into: memory, which always
// moves all the bytes asked for, and a descriptor, which may move fewer, report
// the end of file or fail.

module CbufIo {
  import opened Seqs
  import opened CbufSpec

  // A descriptor answers its next call with limits[0]: a negative number is an
  // error, any other number bounds the bytes it moves. It is at the end of file
  // once the limits run out.
  datatype Source = MemSource(rest: seq<Byte>) | FdSource(rest: seq<Byte>, limits: seq<int>)
  {
    predicate CanSupply(len: nat) {
      MemSource? ==> len <= |rest|
    }

    // It has n bytes and answers every call with all that is asked for.
    predicate Gives(n: nat) {
      n <= |rest| && (FdSource? ==> n <= |limits| && forall k | 0 <= k < n :: n <= limits[k])
    }

    // Its first answer, when it is asked for something, makes n of this kind.
    predicate Answers(n: int) {
      FdSource? ==>
        if limits == [] || limits[0] == 0 || (limits[0] > 0 && rest == []) then n == 0
        else if limits[0] < 0 then n == -1
        else n > 0
    }
  }

  datatype Sink = MemSink(got: seq<Byte>) | FdSink(got: seq<Byte>, limits: seq<int>)
  {
    predicate Takes(n: nat) {
      FdSink? ==> n <= |limits| && forall k | 0 <= k < n :: n <= limits[k]
    }

    predicate Answers(n: int) {
      FdSink? ==>
        if limits == [] || limits[0] < 0 then n == -1
        else if limits[0] == 0 then n == 0
        else n > 0
    }
  }

  lemma GivesLess(src: Source, n: nat, k: nat)
    requires src.Gives(n) && k <= n
    ensures src.Gives(k)
  {
  }

  // What a source delivers that gives all it is asked for is written as from memory.
  lemma GivenIsWritten(v: View, src: Source, src': Source, len: nat, granted: bool, d: seq<Byte>, n: int)
    requires v.Valid() && 0 < len && src.Gives(len) && src.rest == d + src'.rest && |d| == Max(n, 0)
    requires var k := v.Grown(len, granted).Admitted(len); if k == 0 then n == -1 else Filled(src, k, n)
    ensures var g := v.Grown(len, granted);
      Outcome(g.Arrive(d), n, g.Overwritten(|d|)) == v.Write(src.rest[..len], granted)
  {
    var k := v.Grown(len, granted).Admitted(len);
    GivesLess(src, len, k);
    assert src.rest[..len][..Max(n, 0)] == d;
  }

  // Of len bytes nleft are still to come from src, which was `from`.
  ghost predicate Filling(from: Source, src: Source, len: nat, nleft: nat) {
    && nleft <= len && src.CanSupply(nleft) && (from.Gives(len) ==> src.Gives(nleft))
    && (if nleft == len then src == from else from.Answers(len - nleft))
  }

  // The n bytes are what the answers of `from` make of len bytes.
  ghost predicate Filled(from: Source, len: nat, n: int) {
    n <= len && from.Answers(n) && (from.Gives(len) ==> n == len)
  }

  // And of a sink.
  ghost predicate Emptying(from: Sink, dst: Sink, len: nat, nleft: nat) {
    && nleft <= len && (from.Takes(len) ==> dst.Takes(nleft))
    && (if nleft == len then dst == from else from.Answers(len - nleft))
  }

  ghost predicate Emptied(from: Sink, len: nat, n: int) {
    n <= len && from.Answers(n) && (from.Takes(len) ==> n == len)
  }

  // One call of getf or putf that moves m of the k bytes asked for: the loop goes on, or
  // ends with a count of its own or the answer to its first call.
  lemma FillTurn(from: Source, src: Source, src': Source, len: nat, nleft: nat, k: nat, m: int)
    requires Filling(from, src, len, nleft) && 0 < k <= nleft && m <= k
    requires src.Answers(m) && src'.CanSupply(nleft - Max(m, 0))
    requires src.Gives(nleft) ==> m == k && src'.Gives(nleft - k)
    ensures m == k ==> Filling(from, src', len, nleft - k)
    ensures m != k ==> Filled(from, len, if m <= 0 && nleft == len then m else len - (nleft - Max(m, 0)))
  {
  }

  lemma EmptyTurn(from: Sink, dst: Sink, dst': Sink, len: nat, nleft: nat, k: nat, m: int)
    requires Emptying(from, dst, len, nleft) && 0 < k <= nleft && m <= k && dst.Answers(m)
    requires dst.Takes(nleft) ==> m == k && dst'.Takes(nleft - k)
    ensures m == k ==> Emptying(from, dst', len, nleft - k)
    ensures m != k ==> Emptied(from, len, if m <= 0 && nleft == len then m else len - (nleft - Max(m, 0)))
  {
  }

  // cbuf_get_mem and cbuf_get_fd.
  method Get(src: Source, len: nat) returns (m: int, chunk: seq<Byte>, src': Source)
    requires src.CanSupply(len)
    ensures m <= len && |chunk| == Max(m, 0)
    ensures src.rest == chunk + src'.rest
    ensures src.MemSource? ==> m == len && src'.MemSource?
    ensures src.FdSource? ==> src'.FdSource?
    ensures 0 < len ==> src.Answers(m)
    ensures forall n: nat | 0 < len <= n && src.Gives(n) :: m == len && src'.Gives(n - len)
  {
    match src
    case MemSource(rest) =>
      return len, rest[..len], MemSource(rest[len..]);
    case FdSource(rest, limits) =>
      if limits == [] {
        return 0, [], src;
      }
      if limits[0] < 0 {
        return -1, [], FdSource(rest, limits[1..]);
      }
      m := Min(limits[0], Min(len, |rest|));
      return m, rest[..m], FdSource(rest[m..], limits[1..]);
  }

  // cbuf_put_mem and cbuf_put_fd.
  method Put(dst: Sink, chunk: seq<Byte>) returns (m: int, dst': Sink)
    ensures m <= |chunk| && dst'.got == dst.got + chunk[..Max(m, 0)]
    ensures dst.MemSink? ==> m == |chunk| && dst'.MemSink?
    ensures dst.FdSink? ==> dst'.FdSink?
    ensures chunk != [] ==> dst.Answers(m)
    ensures forall n: nat | 0 < |chunk| <= n && dst.Takes(n) :: m == |chunk| && dst'.Takes(n - |chunk|)
  {
    match dst
    case MemSink(got) =>
      return |chunk|, MemSink(got + chunk);
    case FdSink(got, limits) =>
      if limits == [] || limits[0] < 0 {
        return -1, FdSink(got, if limits == [] then [] else limits[1..]);
      }
      m := Min(limits[0], |chunk|);
      return m, FdSink(got + chunk[..m], limits[1..]);
  }
}
