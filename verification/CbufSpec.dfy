// What a cbuf means, with no ring: the replayable bytes, the unread bytes and
// the settings, and every operation of liblsd/cbuf.c as a function on them.

module CbufSpec {
  import opened Seqs

  newtype Byte = x: int | 0 <= x < 256

  const NEWLINE: Byte := 10
  const CHUNK: nat := 1000

  datatype Policy = NoDrop | WrapOnce | WrapMany

  // The only option, and its values.
  const OPT_OVERWRITE: int := 0

  function PolicyOf(value: int): Option<Policy> {
    match value
    case 0 => Some(NoDrop)
    case 1 => Some(WrapOnce)
    case 2 => Some(WrapMany)
    case _ => None
  }

  // What cbuf_write_line adds to the buffer for the string s.
  function Line(s: seq<Byte>): seq<Byte> {
    s + Missing(s)
  }

  function Missing(s: seq<Byte>): seq<Byte> {
    if s == [] || s[|s| - 1] != NEWLINE then [NEWLINE] else []
  }

  // What a writing operation leaves and reports.
  datatype Outcome = Outcome(view: View, rc: int, ndropped: nat)

  // meta is the number of allocated bytes that hold no data: the sentinel, and
  // in a debug build the two cookies.
  datatype View = View(
    replay: seq<Byte>,
    unread: seq<Byte>,
    size: nat,
    maxsize: nat,
    meta: nat,
    policy: Policy,
    gotWrap: bool)
  {
    function History(): seq<Byte> {
      replay + unread
    }

    function Free(): int {
      size - |unread|
    }

    predicate Valid() {
      0 < size <= maxsize && 0 < meta && |replay| + |unread| <= size
    }

    // ----- growing ------------------------------------------------------

    // The size after cbuf_grow is asked for n more bytes and realloc succeeds.
    function GrownSize(n: nat): (r: nat)
      requires Valid() && 0 < n
      ensures size <= r <= maxsize
      ensures r >= Min(maxsize, size + n)
    {
      var m := size + meta + n;
      Min(m + (CHUNK - m % CHUNK), maxsize + meta) - meta
    }

    // The attempt to make room for len bytes that precedes every write.
    function Grown(len: nat, granted: bool): (v: View)
      requires Valid()
      ensures v.Valid()
      ensures v == this.(size := v.size) && size <= v.size
      ensures granted ==> v.size == maxsize || len <= v.Free()
    {
      if len > Free() && size < maxsize && granted then
        this.(size := GrownSize(len - Free()))
      else
        this
    }

    // ----- writing ------------------------------------------------------

    // How many bytes a length argument asks a descriptor for: -1 for what is free,
    // or a chunk when nothing is.
    function Wanted(len: int): (n: nat)
      requires Valid()
    {
      if len != -1 then Max(len, 0) else if Free() == 0 then CHUNK else Free()
    }

    // How many of len bytes the overwrite policy lets in.
    function Admitted(len: nat): (k: nat)
      requires Valid()
      ensures k <= len
    {
      match policy
      case NoDrop => Min(len, Free())
      case WrapOnce => Min(len, size)
      case WrapMany => len
    }

    // A byte arrives. Once the buffer is full the oldest replay byte makes way,
    // and when there is none the oldest unread byte.
    function ArriveOne(b: Byte): (v: View)
      requires Valid()
      ensures v.Valid()
    {
      if |replay| + |unread| < size then this.(unread := unread + [b])
      else if replay != [] then this.(replay := replay[1..], unread := unread + [b], gotWrap := true)
      else this.(unread := unread[1..] + [b], gotWrap := true)
    }

    // The bytes d arrive.
    function Arrive(d: seq<Byte>): (v: View)
      requires Valid()
      ensures v.Valid()
      ensures v.size == size && v.maxsize == maxsize && v.meta == meta && v.policy == policy
    {
      Arrivals(this, d)
    }

    // What is kept is what arrived last, of the history and of its unread part.
    lemma {:induction false} ArriveKeepsLatest(d: seq<Byte>)
      requires Valid()
      ensures var v := Arrive(d);
        && v.History() == LastN(History() + d, size)
        && v.unread == LastN(unread + d, size)
        && v.gotWrap == (gotWrap || |History()| + |d| > size)
      decreases |d|
    {
      if d == [] {
        LastNIsSlice(History() + d, size);
        LastNIsSlice(unread + d, size);
        assert History() + d == History() && unread + d == unread;
      } else {
        var v := ArriveOne(d[0]);
        v.ArriveKeepsLatest(d[1..]);
        OneThenRest(History(), d, size, v.History());
        OneThenRest(unread, d, size, v.unread);
      }
    }

    // The unread bytes that the arrival of n bytes overwrites.
    function Overwritten(n: nat): (r: nat)
      requires Valid()
    {
      Max(0, n - Free())
    }

    // cbuf_write of the bytes s.
    function Write(s: seq<Byte>, granted: bool): (o: Outcome)
      requires Valid()
      ensures o.view.Valid()
      ensures o.view.size == if s == [] then size else Grown(|s|, granted).size
    {
      if s == [] then Outcome(this, 0, 0)
      else
        var g := Grown(|s|, granted);
        var k := g.Admitted(|s|);
        if k == 0 then Outcome(g, -1, 0) else Outcome(g.Arrive(s[..k]), k, g.Overwritten(k))
    }

    // cbuf_copy of the unread bytes s of another buffer: of the bytes admitted,
    // those that would be overwritten at once are never stored.
    function Copy(s: seq<Byte>, granted: bool): (o: Outcome)
      requires Valid()
      ensures o.view.Valid()
    {
      if s == [] then Outcome(this, 0, 0) else Grown(|s|, granted).CopyAdmitted(s)
    }

    function CopyAdmitted(s: seq<Byte>): (o: Outcome)
      requires Valid()
      ensures o.view.Valid()
    {
      var k := Admitted(|s|);
      if k == 0 then Outcome(this, -1, 0) else Outcome(Arrive(LastN(s[..k], size)), k, Overwritten(k))
    }

    // cbuf_write_line of the string s: the newline it may lack is added, the part
    // that cannot stay is dropped first, and string and newline are written
    // separately. Each of the three attempts to grow has its own outcome.
    function WriteLine(s: seq<Byte>, granted0: bool, granted1: bool, granted2: bool): (o: Outcome)
      requires Valid()
      ensures o.view.Valid()
    {
      var len := |Line(s)|;
      var g := Grown(len, granted0);
      if !g.AdmitsLine(len) then Outcome(g, -1, 0)
      else
        var pre := Max(0, len - g.size);
        g.WriteTwice(s[Min(pre, |s|)..], Missing(s), len, pre, granted1, granted2)
    }

    function WriteTwice(s: seq<Byte>, t: seq<Byte>, len: nat, pre: nat, granted1: bool, granted2: bool): (o: Outcome)
      requires Valid()
      ensures o.view.Valid()
    {
      var first := Write(s, granted1);
      var second := first.view.Write(t, granted2);
      Outcome(second.view, len, pre + first.ndropped + second.ndropped)
    }

    lemma WriteLineAdmitted(s: seq<Byte>, len: nat, pre: nat, granted0: bool, granted1: bool, granted2: bool)
      requires Valid() && len == |s| + |Missing(s)| && Grown(len, granted0).AdmitsLine(len)
      requires pre == Max(0, len - Grown(len, granted0).size)
      ensures pre <= |s|
      ensures WriteLine(s, granted0, granted1, granted2) ==
              Grown(len, granted0).WriteTwice(s[pre..], Missing(s), len, pre, granted1, granted2)
    {
    }

    predicate AdmitsLine(len: nat) {
      match policy
      case NoDrop => len <= Free()
      case WrapOnce => len <= size
      case WrapMany => true
    }

    // ----- reading ------------------------------------------------------

    function Drop(n: nat): (v: View)
      requires Valid() && n <= |unread|
      ensures v.Valid()
    {
      this.(replay := replay + unread[..n], unread := unread[n..])
    }

    function Rewind(n: nat): (v: View)
      requires Valid() && n <= |replay|
      ensures v.Valid()
    {
      this.(replay := replay[..|replay| - n], unread := replay[|replay| - n..] + unread)
    }

    lemma DropOrRewindNothing()
      ensures Valid() ==> Drop(0) == this && Rewind(0) == this
    {
    }

    function Flush(): (v: View)
      requires Valid()
      ensures v.Valid()
    {
      this.(replay := [], unread := [], gotWrap := false)
    }
  }

  // The bytes d arrive in v, one by one.
  function Arrivals(v: View, d: seq<Byte>): (w: View)
    requires v.Valid()
    ensures w.Valid()
    ensures w.size == v.size && w.maxsize == v.maxsize && w.meta == v.meta && w.policy == v.policy
    decreases |d|
  {
    if d == [] then v else Arrivals(v.ArriveOne(d[0]), d[1..])
  }
}
