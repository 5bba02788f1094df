// What pushing does to the ranges of a list, and what ranges names become.

module HostPush {
  import opened Seqs
  import opened HostNames
  import opened HostRange
  import opened HostSpec
  import opened HostFind
  import opened HostMerge

  function PushedOnto(hr: seq<Range>, r: Range): seq<Range>
    requires r.lo <= ULONG_MAX
  {
    if hr != [] && Continues(hr[|hr| - 1], r) then hr[|hr| - 1 := Merged(hr[|hr| - 1], r)] else hr + [r]
  }

  lemma ExpandOfTail(front: seq<Range>, tail: Range)
    requires AllSound(front) && Sound(tail)
    ensures AllSound(front + [tail]) && Expand(front + [tail]) == Expand(front) + Names(tail)
  {
    ExpandOfOne(tail);
    ExpandOfSum(front, [tail]);
  }

  lemma MergeIntoTail(hr: seq<Range>, r: Range)
    requires AllSound(hr) && Sound(r) && hr != [] && Continues(hr[|hr| - 1], r)
    ensures var more := hr[|hr| - 1 := Merged(hr[|hr| - 1], r)];
      AllSound(more) && Expand(more) == Expand(hr) + Names(r)
  {
    var front, tail := hr[..|hr| - 1], hr[|hr| - 1];
    MergeKeepsNames(tail, r);
    ExpandOfTail(front, tail);
    ExpandOfTail(front, Merged(tail, r));
    assert hr == front + [tail] && hr[|hr| - 1 := Merged(tail, r)] == front + [Merged(tail, r)];
    Associative(Expand(front), Names(tail), Names(r));
  }

  lemma PushKeepsNames(hr: seq<Range>, r: Range)
    requires AllSound(hr) && Sound(r)
    ensures AllSound(PushedOnto(hr, r)) && Expand(PushedOnto(hr, r)) == Expand(hr) + Names(r)
  {
    if hr != [] && Continues(hr[|hr| - 1], r) {
      MergeIntoTail(hr, r);
    } else {
      ExpandOfTail(hr, r);
    }
  }

  // The range r has the next number after the last one, and is printed with the same digits.
  predicate IsNext(tail: Range, r: Range) {
    tail.prefix == r.prefix && !tail.single && !r.single && tail.hi + 1 == r.lo
    && Pad(r.lo, tail.width) == Pad(r.lo, r.width)
  }

  lemma SameDigits(tail: Range, r: Range)
    requires tail.lo <= r.lo
    ensures Pad(r.lo, tail.width) == Pad(r.lo, r.width) <==> Compatible(tail.lo, tail.width, r.lo, r.width)
  {
    CompatibleUpwards(tail, r);
    if Compatible(tail.lo, tail.width, r.lo, r.width) {
      SameAbove(r.lo, r.lo, tail.width, r.width);
    }
  }

  lemma ContinuesIsNext(tail: Range, r: Range)
    requires Sound(tail) && Sound(r)
    ensures Continues(tail, r) <==> IsNext(tail, r)
  {
    StrCmpIsEqual(tail.prefix, r.prefix);
    if tail.hi + 1 == r.lo && !tail.single {
      SameDigits(tail, r);
    }
  }

  // A range that goes on where the last one ends makes that one longer; any other is a
  // range of its own.
  lemma PushMerges(hr: seq<Range>, r: Range)
    requires AllSound(hr) && Sound(r)
    ensures var n, more := |hr|, PushedOnto(hr, r);
      if n > 0 && IsNext(hr[n - 1], r) then
        && |more| == n && more[..n - 1] == hr[..n - 1]
        && more[n - 1] == hr[n - 1].(hi := r.hi, width := more[n - 1].width)
      else more == hr + [r]
  {
    if hr != [] {
      ContinuesIsNext(hr[|hr| - 1], r);
    }
  }

  // ----- names -----------------------------------------------------------------------

  // A name that ends in digits becomes its prefix and a number printed with as many
  // digits, unless that number is above 2^25.
  lemma RangeOfNumber(prefix: string, digits: string)
    requires !EndsInDigit(prefix) && AllDigits(digits)
    ensures RangeOf(SplitName(prefix + digits)) ==
      if digits != "" && Value(digits) <= 0x200_0000 then Range(prefix, Value(digits), Value(digits), |digits|, false)
      else Range(prefix + digits, 0, 0, 0, true)
  {
    if digits == "" {
      assert prefix + digits == prefix;
      PrefixLengthOfSum(prefix, "");
    } else {
      SplitOfSum(prefix, digits);
    }
  }

  // What a pushed name makes of the ranges.
  function PushedName(hr: seq<Range>, name: string): seq<Range> {
    RangeOfName(SplitName(name));
    PushedOnto(hr, RangeOf(SplitName(name)))
  }

  // What ranges pushed one by one do.
  function AllPushed(hr: seq<Range>, rs: seq<Range>): seq<Range>
    requires AllSound(rs)
  {
    if rs == [] then hr else PushedOnto(AllPushed(hr, rs[..|rs| - 1]), rs[|rs| - 1])
  }

  function NameRange(name: string): (r: Range)
    ensures Sound(r) && r == RangeOf(SplitName(name))
  {
    RangeOfName(SplitName(name));
    RangeOf(SplitName(name))
  }

  function RangesOf(names: seq<string>): (rs: seq<Range>)
    ensures |rs| == |names| && AllSound(rs) && forall k | 0 <= k < |rs| :: rs[k] == NameRange(names[k])
  {
    seq(|names|, k requires 0 <= k < |names| => NameRange(names[k]))
  }

  // Pushing names is pushing their ranges.
  lemma NamesAreRanges(hr: seq<Range>, names: seq<string>)
    requires names != []
    ensures AllPushed(hr, RangesOf(names)) ==
      PushedName(AllPushed(hr, RangesOf(names[..|names| - 1])), names[|names| - 1])
  {
    var rs := RangesOf(names);
    assert rs[..|rs| - 1] == RangesOf(names[..|names| - 1]);
  }

  lemma NextNumberMerges(prefix: string, width: nat, lo: nat, hi: nat, tail: Range, r: Range)
    requires lo <= hi && tail == Range(prefix, lo, hi, Printed(lo, width), false)
    requires r == Range(prefix, hi + 1, hi + 1, Printed(hi + 1, width), false) && hi + 1 < ULONG_MAX
    ensures PushedOnto([tail], r) == [tail.(hi := hi + 1)]
  {
    MoreDigits(lo, hi + 1);
    StrCmpIsEqual(prefix, prefix);
    assert Continues(tail, r);
    assert Merged(tail, r) == tail.(hi := hi + 1);
  }

  // Ranges of one number each, from lo on.
  ghost predicate Consecutive(rs: seq<Range>, prefix: string, width: nat, lo: nat) {
    forall k | 0 <= k < |rs| :: rs[k] == Range(prefix, lo + k, lo + k, Printed(lo + k, width), false)
  }

  lemma {:induction false} ConsecutiveMerge(rs: seq<Range>, prefix: string, width: nat, lo: nat)
    requires AllSound(rs) && rs != [] && Consecutive(rs, prefix, width, lo)
    ensures AllPushed([], rs) == [Range(prefix, lo, lo + (|rs| - 1), Printed(lo, width), false)]
    decreases |rs|
  {
    var front, r, hi := rs[..|rs| - 1], rs[|rs| - 1], lo + (|rs| - 1);
    assert r == Range(prefix, hi, hi, Printed(hi, width), false);
    if front == [] {
      assert AllPushed([], front) == [];
    } else {
      ConsecutiveMerge(front, prefix, width, lo);
      NextNumberMerges(prefix, width, lo, hi - 1, AllPushed([], front)[0], r);
    }
  }

  lemma NumberIsRange(prefix: string, width: nat, n: nat, name: string)
    requires !EndsInDigit(prefix) && n <= 0x200_0000 && name == prefix + Pad(n, width)
    ensures NameRange(name) == Range(prefix, n, n, Printed(n, width), false)
  {
    ValueOfPad(n, width);
    RangeOfNumber(prefix, Pad(n, width));
  }

  // The names of hosts with consecutive numbers, pushed one by one, make a single range.
  lemma ConsecutiveAreOne(prefix: string, width: nat, lo: nat, hi: nat, names: seq<string>)
    requires !EndsInDigit(prefix) && lo <= hi <= 0x200_0000 && names == Span(prefix, width, lo, hi + 1)
    ensures AllPushed([], RangesOf(names)) == [Range(prefix, lo, hi, Printed(lo, width), false)]
  {
    var rs := RangesOf(names);
    forall k | 0 <= k < |rs| ensures rs[k] == Range(prefix, lo + k, lo + k, Printed(lo + k, width), false) {
      NumberIsRange(prefix, width, lo + k, names[k]);
    }
    ConsecutiveMerge(rs, prefix, width, lo);
  }
}
