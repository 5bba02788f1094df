// The ranges of liblsd/hostlist.c: a prefix with consecutive numbers, printed to a
// width, or a single host without a number.

module HostRange {
  import opened Seqs
  import opened HostNames

  datatype Range = Range(prefix: string, lo: nat, hi: nat, width: nat, single: bool)

  // hostlist_find may set the width of a single host to 1; its numbers stay 0.
  predicate Sound(r: Range) {
    if r.single then r.lo == 0 && r.hi == 0 && r.width <= 1 else r.lo <= r.hi < ULONG_MAX
  }

  // The numbers that the comparison handles without losing their order.
  const INT_RANGE: nat := 0x8000_0000

  predicate Small(r: Range) {
    Sound(r) && r.lo < INT_RANGE && r.width < INT_RANGE
  }

  function Count(r: Range): nat
    requires Sound(r)
  {
    if r.single then 1 else r.hi - r.lo + 1
  }

  // The names with the numbers from `from` up to, but not including, `to`.
  function Span(prefix: string, width: nat, from: nat, to: nat): (s: seq<string>)
    requires from <= to
    ensures |s| == to - from
  {
    seq(to - from, k requires 0 <= k < to - from => prefix + Pad(from + k, width))
  }

  // The hosts that a range stands for.
  function Names(r: Range): (s: seq<string>)
    requires Sound(r)
    ensures |s| == Count(r)
  {
    if r.single then [r.prefix] else Span(r.prefix, r.width, r.lo, r.hi + 1)
  }

  lemma SpanSplits(prefix: string, width: nat, from: nat, mid: nat, to: nat)
    requires from <= mid <= to
    ensures Span(prefix, width, from, to) == Span(prefix, width, from, mid) + Span(prefix, width, mid, to)
  {
  }

  // ----- widths ----------------------------------------------------------------------

  // The width that n is printed with.
  function Printed(n: nat, width: nat): nat {
    Max(width, NumDigits(n))
  }

  predicate Compatible(n: nat, wn: nat, m: nat, wm: nat) {
    Printed(n, wn) == Printed(n, wm) || Printed(m, wn) == Printed(m, wm)
  }

  method WidthEquiv(n: nat, wn: nat, m: nat, wm: nat) returns (ok: bool, wn': nat, wm': nat)
    ensures ok == Compatible(n, wn, m, wm)
    ensures ok ==> wn' == wm'
    ensures !ok ==> wn' == wn && wm' == wm
    ensures Printed(n, wn') == Printed(n, wn) && Printed(m, wm') == Printed(m, wm)
    ensures ok ==> wn' == if Printed(n, wn) == Printed(n, wm) then wm else wn
  {
    wn', wm' := wn, wm;
    var npad := ZeroPadded(n, wn);
    var nmpad := ZeroPadded(n, wm);
    var mpad := ZeroPadded(m, wm);
    var mnpad := ZeroPadded(m, wn);
    if npad != nmpad && mpad != mnpad {
      return false, wn', wm';
    }
    if npad != nmpad {
      if mpad == mnpad {
        wm' := wn;
        ok := true;
      } else {
        ok := false;
      }
    } else {
      if npad == nmpad {
        wn' := wm;
        ok := true;
      } else {
        ok := false;
      }
    }
  }

  // What hostrange_width_combine makes of the widths.
  function Combined(h1: Range, h2: Range): (Range, Range) {
    if !Compatible(h1.lo, h1.width, h2.lo, h2.width) then (h1, h2)
    else if Printed(h1.lo, h1.width) == Printed(h1.lo, h2.width) then (h1.(width := h2.width), h2)
    else (h1, h2.(width := h1.width))
  }

  method WidthCombine(h1: Range, h2: Range) returns (ok: bool, h1': Range, h2': Range)
    ensures ok == Compatible(h1.lo, h1.width, h2.lo, h2.width)
    ensures (h1', h2') == Combined(h1, h2)
  {
    var w1, w2;
    ok, w1, w2 := WidthEquiv(h1.lo, h1.width, h2.lo, h2.width);
    h1', h2' := h1.(width := w1), h2.(width := w2);
  }

  // A width that prints the lowest number the same prints all the others the same.
  lemma SameAbove(lo: nat, n: nat, w: nat, w': nat)
    requires Printed(lo, w) == Printed(lo, w') && lo <= n
    ensures Printed(n, w) == Printed(n, w') && Pad(n, w) == Pad(n, w')
  {
    MoreDigits(lo, n);
  }

  lemma SpanRewidth(prefix: string, w: nat, w': nat, lo: nat, from: nat, to: nat)
    requires Printed(lo, w) == Printed(lo, w') && lo <= from <= to
    ensures Span(prefix, w, from, to) == Span(prefix, w', from, to)
  {
    forall k | 0 <= k < to - from ensures Span(prefix, w, from, to)[k] == Span(prefix, w', from, to)[k] {
      SameAbove(lo, from + k, w, w');
    }
  }

  // Rewriting a width this way changes no host name.
  lemma RewidthKeepsNames(r: Range, width: nat)
    requires Sound(r) && Printed(r.lo, r.width) == Printed(r.lo, width) && (r.single ==> width <= 1)
    ensures Sound(r.(width := width)) && Names(r.(width := width)) == Names(r)
  {
    if !r.single {
      SpanRewidth(r.prefix, r.width, width, r.lo, r.lo, r.hi + 1);
    }
  }

  // ----- comparison ------------------------------------------------------------------

  function Sign(x: int): int {
    if x < 0 then -1 else if x > 0 then 1 else 0
  }

  // strcmp.
  function StrCmp(a: string, b: string): int {
    if a == [] then (if b == [] then 0 else -1)
    else if b == [] then 1
    else if a[0] != b[0] then a[0] as int - b[0] as int
    else StrCmp(a[1..], b[1..])
  }

  lemma {:induction false} StrCmpIsEqual(a: string, b: string)
    ensures StrCmp(a, b) == 0 <==> a == b
  {
    if a != [] && b != [] {
      StrCmpIsEqual(a[1..], b[1..]);
      assert a == [a[0]] + a[1..] && b == [b[0]] + b[1..];
    }
  }

  lemma {:induction false} StrCmpIsOrder(a: string, b: string, c: string)
    ensures Sign(StrCmp(a, b)) == -Sign(StrCmp(b, a))
    ensures StrCmp(a, b) <= 0 && StrCmp(b, c) <= 0 ==> StrCmp(a, c) <= 0
    decreases |a| + |b| + |c|
  {
    if a != [] && b != [] {
      StrCmpIsOrder(a[1..], b[1..], if c == [] then c else c[1..]);
    }
  }

  // The first characters that differ decide, and a text comes before what continues it.
  lemma {:induction false} FirstDifferenceDecides(both: string, c: char, s: string, d: char, t: string)
    ensures c != d ==> StrCmp(both + [c] + s, both + [d] + t) == c as int - d as int
    ensures StrCmp(both, both + [c] + s) < 0 < StrCmp(both + [c] + s, both)
    decreases |both|
  {
    if both != [] {
      var rest := both[1..];
      assert (both + [c] + s)[1..] == rest + [c] + s && (both + [d] + t)[1..] == rest + [d] + t;
      FirstDifferenceDecides(rest, c, s, d, t);
    }
  }

  // unsigned long to int, as hostrange_cmp returns a difference.
  function Int32(x: int): int {
    var low := x % 0x1_0000_0000;
    if low >= INT_RANGE then low - 0x1_0000_0000 else low
  }

  function PrefixCmp(h1: Range, h2: Range): int {
    var c := StrCmp(h1.prefix, h2.prefix);
    if c != 0 then c else (if h2.single then 1 else 0) - (if h1.single then 1 else 0)
  }

  // The value that hostrange_cmp returns.
  function CmpValue(h1: Range, h2: Range): int {
    if PrefixCmp(h1, h2) != 0 then PrefixCmp(h1, h2)
    else if Compatible(h1.lo, h1.width, h2.lo, h2.width) then Int32(h1.lo - h2.lo)
    else Int32(h1.width - h2.width)
  }

  // And the widths it leaves.
  function Compared(h1: Range, h2: Range): (Range, Range) {
    if PrefixCmp(h1, h2) != 0 then (h1, h2) else Combined(h1, h2)
  }

  method Cmp(h1: Range, h2: Range) returns (retval: int, h1': Range, h2': Range)
    ensures retval == CmpValue(h1, h2)
    ensures (h1', h2') == Compared(h1, h2)
  {
    h1', h2' := h1, h2;
    retval := PrefixCmp(h1, h2);
    if retval == 0 {
      var ok;
      ok, h1', h2' := WidthCombine(h1, h2);
      retval := if ok then Int32(h1'.lo - h2'.lo) else Int32(h1'.width - h2'.width);
    }
  }

  // The fixed key behind the comparison: prefix, single hosts first, the width the
  // lowest number is printed with, the lowest number.
  function KeyCmp(h1: Range, h2: Range): int {
    if PrefixCmp(h1, h2) != 0 then PrefixCmp(h1, h2)
    else if Printed(h1.lo, h1.width) != Printed(h2.lo, h2.width) then
      Printed(h1.lo, h1.width) - Printed(h2.lo, h2.width)
    else h1.lo - h2.lo
  }

  predicate SameKey(h: Range, h': Range) {
    h'.prefix == h.prefix && h'.single == h.single && h'.lo == h.lo && h'.hi == h.hi
    && Printed(h'.lo, h'.width) == Printed(h.lo, h.width)
  }

  lemma WidthOrder(n: nat, wn: nat, m: nat, wm: nat)
    ensures Compatible(n, wn, m, wm) && Printed(n, wn) < Printed(m, wm) ==> n < m
    ensures !Compatible(n, wn, m, wm) ==> (wn < wm <==> Printed(n, wn) < Printed(m, wm)) && wn != wm
  {
    if n <= m {
      MoreDigits(n, m);
    } else {
      MoreDigits(m, n);
    }
  }

  // The comparison agrees with the key although it rewrites its arguments.
  lemma CmpIsKey(h1: Range, h2: Range)
    requires Small(h1) && Small(h2)
    ensures Sign(CmpValue(h1, h2)) == Sign(KeyCmp(h1, h2))
  {
    if PrefixCmp(h1, h2) == 0 {
      if Compatible(h1.lo, h1.width, h2.lo, h2.width) {
        Int32OfSmall(h1.lo, h2.lo);
        CompatibleKey(h1, h2);
      } else {
        Int32OfSmall(h1.width, h2.width);
        WidthOrder(h1.lo, h1.width, h2.lo, h2.width);
        WidthOrder(h2.lo, h2.width, h1.lo, h1.width);
      }
    }
  }

  lemma Int32OfSmall(a: nat, b: nat)
    requires a < INT_RANGE && b < INT_RANGE
    ensures Int32(a - b) == a - b
  {
  }

  lemma CompatibleKey(h1: Range, h2: Range)
    requires PrefixCmp(h1, h2) == 0 && Compatible(h1.lo, h1.width, h2.lo, h2.width)
    ensures Sign(h1.lo - h2.lo) == Sign(KeyCmp(h1, h2))
  {
    if h1.lo <= h2.lo {
      MoreDigits(h1.lo, h2.lo);
    } else {
      MoreDigits(h2.lo, h1.lo);
    }
  }

  // No comparison changes a key or a host name.
  lemma CmpKeepsNames(h1: Range, h2: Range)
    requires Sound(h1) && Sound(h2)
    ensures var (h1', h2') := Compared(h1, h2);
      && SameKey(h1, h1') && SameKey(h2, h2') && Sound(h1') && Sound(h2')
      && Names(h1') == Names(h1) && Names(h2') == Names(h2)
  {
    if PrefixCmp(h1, h2) == 0 && Compatible(h1.lo, h1.width, h2.lo, h2.width) {
      StrCmpIsEqual(h1.prefix, h2.prefix);
      if Printed(h1.lo, h1.width) == Printed(h1.lo, h2.width) {
        RewidthKeepsNames(h1, h2.width);
      } else {
        RewidthKeepsNames(h2, h1.width);
      }
    }
  }

  lemma {:induction false} KeyIsOrder(a: Range, b: Range, c: Range)
    ensures Sign(KeyCmp(a, b)) == -Sign(KeyCmp(b, a))
    ensures KeyCmp(a, b) <= 0 && KeyCmp(b, c) <= 0 ==> KeyCmp(a, c) <= 0
  {
    StrCmpIsOrder(a.prefix, b.prefix, c.prefix);
    StrCmpIsOrder(b.prefix, c.prefix, a.prefix);
    StrCmpIsEqual(a.prefix, b.prefix);
    StrCmpIsEqual(b.prefix, c.prefix);
    StrCmpIsEqual(a.prefix, c.prefix);
  }

  // So the comparison is a total preorder on ranges, whatever has been compared
  // before: it is as if all ranges had been compared by a key that never changes.
  lemma CmpIsOrder(a: Range, b: Range, c: Range)
    requires Small(a) && Small(b) && Small(c)
    ensures Sign(CmpValue(a, b)) == -Sign(CmpValue(b, a))
    ensures CmpValue(a, b) <= 0 && CmpValue(b, c) <= 0 ==> CmpValue(a, c) <= 0
  {
    KeyIsOrder(a, b, c);
    CmpIsKey(a, b);
    CmpIsKey(b, a);
    CmpIsKey(b, c);
    CmpIsKey(a, c);
  }

  // The conversion to int is harmless for numbers below a bound exactly when that
  // bound is at most 2^31.
  ghost predicate ExactBelow(bound: nat) {
    forall a: Range, b: Range | Sound(a) && Sound(b) && a.lo < bound && b.lo < bound
        && a.width < INT_RANGE && b.width < INT_RANGE ::
      Sign(CmpValue(a, b)) == Sign(KeyCmp(a, b))
  }

  lemma CmpWraps(bound: nat)
    requires INT_RANGE < bound <= ULONG_MAX
    ensures !ExactBelow(bound)
  {
    var a, b := Range("", INT_RANGE, INT_RANGE, 0, false), Range("", 0, 0, 0, false);
    WrapsAround(INT_RANGE);
    assert Sound(a) && Sound(b) && Sign(CmpValue(a, b)) != Sign(KeyCmp(a, b));
  }

  lemma WrapsAround(n: nat)
    requires n == INT_RANGE
    ensures var a, b := Range("", n, n, 0, false), Range("", 0, 0, 0, false); CmpValue(a, b) < 0 < KeyCmp(a, b)
  {
    var a, b := Range("", n, n, 0, false), Range("", 0, 0, 0, false);
    WrapsToNegative(n);
    HigherKey(a, b);
  }

  lemma WrapsToNegative(n: nat)
    requires n == INT_RANGE
    ensures Int32(n) < 0
  {
  }

  lemma HigherKey(a: Range, b: Range)
    requires PrefixCmp(a, b) == 0 && a.width == b.width && a.lo > b.lo
    ensures KeyCmp(a, b) > 0 && Compatible(a.lo, a.width, b.lo, b.width)
  {
    MoreDigits(b.lo, a.lo);
  }

  lemma CmpIsExactBelow(bound: nat)
    requires bound <= ULONG_MAX
    ensures ExactBelow(bound) <==> bound <= INT_RANGE
  {
    if bound > INT_RANGE {
      CmpWraps(bound);
    } else {
      forall a: Range, b: Range | Sound(a) && Sound(b) && a.lo < bound && b.lo < bound
          && a.width < INT_RANGE && b.width < INT_RANGE
        ensures Sign(CmpValue(a, b)) == Sign(KeyCmp(a, b))
      {
        CmpIsKey(a, b);
      }
    }
  }

  // Where a range starts and how it prints, which is all that comparing it looks at.
  predicate SameStart(h: Range, h': Range) {
    h'.prefix == h.prefix && h'.single == h.single && h'.lo == h.lo
    && Printed(h'.lo, h'.width) == Printed(h.lo, h.width)
  }

  lemma CompatibleByStart(a: Range, b: Range, a': Range, b': Range)
    requires SameStart(a, a') && SameStart(b, b')
    ensures Compatible(a.lo, a.width, b.lo, b.width) <==> Compatible(a'.lo, a'.width, b'.lo, b'.width)
  {
    if a.lo <= b.lo {
      CompatibleUpwards(a, b);
      CompatibleUpwards(a', b');
      SameAbove(a.lo, b.lo, a.width, a'.width);
    } else {
      CompatibleDownwards(a, b);
      CompatibleDownwards(a', b');
      SameAbove(b.lo, a.lo, b.width, b'.width);
    }
  }

  lemma CompatibleUpwards(a: Range, b: Range)
    requires a.lo <= b.lo
    ensures Compatible(a.lo, a.width, b.lo, b.width) <==> Printed(b.lo, a.width) == Printed(b.lo, b.width)
  {
    MoreDigits(a.lo, b.lo);
  }

  lemma CompatibleDownwards(a: Range, b: Range)
    requires b.lo <= a.lo
    ensures Compatible(a.lo, a.width, b.lo, b.width) <==> Printed(a.lo, a.width) == Printed(a.lo, b.width)
  {
    MoreDigits(b.lo, a.lo);
  }

  // ----- joining, intersecting and splitting --------------------------------------------

  // lo - 1 on unsigned long.
  function Pred(lo: nat): nat
    requires lo <= ULONG_MAX
  {
    if lo == 0 then ULONG_MAX else lo - 1
  }

  // The two ranges print their numbers alike, and no number is missing between them.
  predicate Joins(h1: Range, h2: Range) {
    PrefixCmp(h1, h2) == 0 && Compatible(h1.lo, h1.width, h2.lo, h2.width) && (h1.single || h1.hi + 1 >= h2.lo)
  }

  // What hostrange_join leaves in h1 and h2.
  function Joined(h1: Range, h2: Range): (Range, Range) {
    var (c1, c2) := Compared(h1, h2);
    if Joins(h1, h2) then (c1.(hi := Max(h1.hi, h2.hi)), c2) else (c1, c2)
  }

  lemma ComparedAgain(h1: Range, h2: Range)
    ensures var (c1, c2) := Compared(h1, h2);
      && PrefixCmp(c1, c2) == PrefixCmp(h1, h2) && Compared(c1, c2) == (c1, c2)
      && Compatible(c1.lo, c1.width, c2.lo, c2.width) == Compatible(h1.lo, h1.width, h2.lo, h2.width)
  {
  }

  lemma OrderOfLows(h1: Range, h2: Range)
    requires PrefixCmp(h1, h2) == 0 && Compatible(h1.lo, h1.width, h2.lo, h2.width) && KeyCmp(h1, h2) <= 0
    ensures h1.lo <= h2.lo && h1.prefix == h2.prefix && h1.single == h2.single
  {
    WidthOrder(h1.lo, h1.width, h2.lo, h2.width);
    StrCmpIsEqual(h1.prefix, h2.prefix);
  }

  // What the code asserts of its arguments is that they compare in order.
  method Join(h1: Range, h2: Range) returns (duplicated: int, h1': Range, h2': Range)
    requires Sound(h1) && Sound(h2) && CmpValue(h1, h2) <= 0
    ensures (h1', h2') == Joined(h1, h2)
    ensures duplicated >= 0 <==> Joins(h1, h2)
    ensures Joins(h1, h2) ==> Sound(h1') && Count(h1') == Count(h1) + Count(h2) - duplicated
  {
    duplicated := -1;
    var cmp;
    cmp, h1', h2' := Cmp(h1, h2);
    assert cmp <= 0;
    ComparedAgain(h1, h2);
    if PrefixCmp(h1', h2') == 0 {
      var ok;
      ok, h1', h2' := WidthCombine(h1', h2');
      if ok {
        if h1'.single && h2'.single {
          duplicated := 1;
        } else if h1'.hi == Pred(h2'.lo) {
          h1' := h1'.(hi := h2'.hi);
          duplicated := 0;
        } else if h1'.hi >= h2'.lo {
          if h1'.hi < h2'.hi {
            duplicated := h1'.hi - h2'.lo + 1;
            h1' := h1'.(hi := h2'.hi);
          } else {
            duplicated := Count(h2');
          }
        }
      }
    }
  }

  lemma ElementsOfSum(s: seq<string>, t: seq<string>)
    ensures Elements(s + t) == Elements(s) + Elements(t)
  {
  }

  // Two spans of one kind with no gap between them make one.
  lemma SpanUnion(prefix: string, w: nat, a: nat, b: nat, c: nat, d: nat)
    requires a <= c <= b && c <= d
    ensures Elements(Span(prefix, w, a, b)) + Elements(Span(prefix, w, c, d)) == Elements(Span(prefix, w, a, Max(b, d)))
  {
    var top := Max(b, d);
    SpanSplits(prefix, w, a, c, b);
    SpanSplits(prefix, w, a, c, top);
    ElementsOfSum(Span(prefix, w, a, c), Span(prefix, w, c, b));
    ElementsOfSum(Span(prefix, w, a, c), Span(prefix, w, c, top));
    if b <= d {
      SpanSplits(prefix, w, c, b, d);
      ElementsOfSum(Span(prefix, w, c, b), Span(prefix, w, b, d));
    } else {
      SpanSplits(prefix, w, c, d, b);
      ElementsOfSum(Span(prefix, w, c, d), Span(prefix, w, d, b));
    }
  }

  // Joining keeps the set of names, whatever the widths were.
  lemma JoinKeepsNames(h1: Range, h2: Range)
    requires Sound(h1) && Sound(h2) && KeyCmp(h1, h2) <= 0 && Joins(h1, h2)
    ensures var h := Joined(h1, h2).0;
      Sound(h) && SameKey(h1.(hi := h.hi), h) && Elements(Names(h)) == Elements(Names(h1)) + Elements(Names(h2))
  {
    OrderOfLows(h1, h2);
    CmpKeepsNames(h1, h2);
    var (c1, c2) := Compared(h1, h2);
    if !h1.single {
      SpanUnion(h1.prefix, c1.width, h1.lo, h1.hi + 1, h2.lo, h2.hi + 1);
    }
  }

  // Numbers after one prefix are told apart whatever their width is.
  lemma SameNumber(a: Range, k: nat, b: Range, m: nat)
    requires Sound(a) && Sound(b) && !a.single && !b.single && a.prefix == b.prefix
    requires k < Count(a) && m < Count(b) && Names(a)[k] == Names(b)[m]
    ensures a.lo + k == b.lo + m
  {
    SameSuffix(a.prefix, Pad(a.lo + k, a.width), Pad(b.lo + m, b.width));
    ValueOfPad(a.lo + k, a.width);
    ValueOfPad(b.lo + m, b.width);
  }

  lemma LowIsHigher(h1: Range, h2: Range)
    requires Joins(h1, h2) && KeyCmp(h1, h2) > 0
    ensures h1.lo > h2.lo && h1.prefix == h2.prefix && h1.single == h2.single
  {
    StrCmpIsEqual(h1.prefix, h2.prefix);
    if h1.lo <= h2.lo {
      CompatibleUpwards(h1, h2);
      MoreDigits(h1.lo, h2.lo);
    }
  }

  // What is joined keeps its lowest number, so a lower one of the second range is lost.
  lemma LowIsLost(h1: Range, h2: Range)
    requires Sound(h1) && Sound(h2) && Joins(h1, h2) && KeyCmp(h1, h2) > 0
    ensures Sound(Joined(h1, h2).0) && Names(h2)[0] !in Names(Joined(h1, h2).0)
  {
    var h := Joined(h1, h2).0;
    LowIsHigher(h1, h2);
    if Names(h2)[0] in Names(h) {
      var k :| 0 <= k < Count(h) && Names(h)[k] == Names(h2)[0];
      SameNumber(h, k, h2, 0);
    }
  }

  // So joining two ranges keeps their names if and only if they are in order.
  lemma JoinIsExact(h1: Range, h2: Range)
    requires Sound(h1) && Sound(h2) && Joins(h1, h2)
    ensures Sound(Joined(h1, h2).0)
    ensures Elements(Names(Joined(h1, h2).0)) == Elements(Names(h1)) + Elements(Names(h2)) <==> KeyCmp(h1, h2) <= 0
  {
    if KeyCmp(h1, h2) <= 0 {
      JoinKeepsNames(h1, h2);
    } else {
      LowIsLost(h1, h2);
      assert Names(h2)[0] in Elements(Names(h2));
    }
  }

  // Part of the first range lies beyond where the second starts.
  predicate Overlaps(h1: Range, h2: Range) {
    !h1.single && !h2.single && PrefixCmp(h1, h2) == 0 && h1.hi > h2.lo
    && Compatible(h1.lo, h1.width, h2.lo, h2.width)
  }

  // hostrange_intersect: two hosts without a number are not even compared.
  method Intersect(h1: Range, h2: Range) returns (found: bool, common: Range, h1': Range, h2': Range)
    requires Sound(h1) && Sound(h2)
    requires !h1.single && !h2.single ==> CmpValue(h1, h2) <= 0
    ensures found == Overlaps(h1, h2)
    ensures (h1', h2') == if h1.single || h2.single then (h1, h2) else Compared(h1, h2)
    ensures found ==> common == h1'.(lo := h2.lo, hi := Min(h1.hi, h2.hi))
  {
    found, common, h1', h2' := false, h1, h1, h2;
    if h1.single || h2.single {
      return;
    }
    var cmp;
    cmp, h1', h2' := Cmp(h1, h2);
    assert cmp <= 0;
    ComparedAgain(h1, h2);
    if PrefixCmp(h1', h2') == 0 && h1'.hi > h2'.lo {
      var ok;
      ok, h1', h2' := WidthCombine(h1', h2');
      if ok {
        found, common := true, h1'.(lo := h2'.lo, hi := if h2'.hi < h1'.hi then h2'.hi else h1'.hi);
      }
    }
  }

  function Without(s: seq<string>, k: nat): seq<string>
    requires k < |s|
  {
    s[..k] + s[k + 1..]
  }

  lemma SpanWithout(prefix: string, width: nat, from: nat, n: nat, to: nat)
    requires from <= n < to
    ensures Span(prefix, width, from, n) + Span(prefix, width, n + 1, to) ==
            Without(Span(prefix, width, from, to), n - from)
  {
    SpanSplits(prefix, width, from, n, to);
    SpanSplits(prefix, width, n, n + 1, to);
  }

  datatype Deleted = Shrunk(left: Range) | SplitInTwo(left: Range, right: Range)

  // hostrange_delete_host: the upper part of a split is a new range.
  method DeleteHost(r: Range, n: nat) returns (d: Deleted)
    requires Sound(r) && !r.single && r.lo <= n <= r.hi
    ensures d.SplitInTwo? <==> r.lo < n < r.hi
    ensures d.left.prefix == r.prefix && d.left.width == r.width && !d.left.single
    ensures d.SplitInTwo? ==>
      Sound(d.left) && Sound(d.right) && Names(d.left) + Names(d.right) == Without(Names(r), n - r.lo)
    ensures d.Shrunk? && r.lo < r.hi ==> Sound(d.left) && Names(d.left) == Without(Names(r), n - r.lo)
    ensures d.Shrunk? && r.lo == r.hi ==> d.left.hi < d.left.lo
  {
    if n == r.lo {
      d := Shrunk(r.(lo := r.lo + 1));
    } else if n == r.hi {
      d := Shrunk(r.(hi := r.hi - 1));
    } else {
      d := SplitInTwo(r.(hi := n - 1), r.(lo := n + 1));
    }
    SpanWithout(r.prefix, r.width, r.lo, n, r.hi + 1);
  }
}
