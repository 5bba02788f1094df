// Which host hostlist_find reports, and when that is the first one of that name.

module HostFind {
  import opened HostNames
  import opened HostRange
  import opened HostSpec

  // hostrange_hn_within. A host without a number has its whole name as prefix.
  predicate Within(r: Range, hn: HostName) {
    || (r.single && hn.name == r.prefix)
    || (hn.Numbered? && r.prefix == hn.prefix && r.lo <= hn.num <= r.hi
        && Compatible(r.lo, r.width, hn.num, |hn.suffix|))
    || (hn.Plain? && r.prefix == hn.name && r.single)
  }

  method HnWithin(r: Range, hn: HostName) returns (retval: bool, r': Range)
    requires Sound(r) && hn == SplitName(hn.name)
    ensures retval == Within(r, hn)
    ensures Sound(r') && r' == r.(width := r'.width) && Names(r') == Names(r)
  {
    retval, r' := false, r;
    if r.single && hn.name == r.prefix {
      return true, r;
    }
    if r.prefix == (if hn.Plain? then hn.name else hn.prefix) {
      if hn.Plain? {
        if r.single {
          retval := true;
        }
      } else if r.lo <= hn.num <= r.hi {
        var w, w';
        retval, w, w' := WidthEquiv(r.lo, r.width, hn.num, |hn.suffix|);
        if retval && r.single {
          assert Printed(0, |hn.suffix|) == 1;
        }
        RewidthKeepsNames(r, w);
        r' := r.(width := w);
      }
    }
  }

  lemma NumberIsWithin(r: Range, hn: HostName)
    requires Sound(r) && !r.single && hn.Numbered? && hn == SplitName(hn.name)
    requires r.prefix == hn.prefix && r.lo <= hn.num <= r.hi && Compatible(r.lo, r.width, hn.num, |hn.suffix|)
    ensures Names(r)[hn.num - r.lo] == hn.name
  {
    SuffixIsPad(r.lo, r.width, hn.num, hn.suffix);
  }

  // Digits that a width prints alike are those it prints.
  lemma SuffixIsPad(lo: nat, width: nat, num: nat, suffix: string)
    requires AllDigits(suffix) && suffix != [] && num == Value(suffix) && lo <= num
    requires Compatible(lo, width, num, |suffix|)
    ensures Pad(num, width) == suffix
  {
    PadOfValue(suffix);
    if Printed(lo, width) == Printed(lo, |suffix|) {
      SameAbove(lo, num, width, |suffix|);
    } else {
      SameAbove(num, num, width, |suffix|);
    }
  }

  lemma NumberSplits(r: Range, n: nat, suffix: string, hn: HostName)
    requires Sound(r) && !r.single && r.lo <= n <= r.hi && !EndsInDigit(r.prefix) && n <= MAX_HOST_SUFFIX
    requires suffix == Pad(n, r.width) && hn == SplitName(r.prefix + suffix)
    ensures hn.Numbered? && hn.num == n && hn.prefix == r.prefix && hn.suffix == suffix
    ensures Compatible(r.lo, r.width, n, |suffix|)
  {
    ValueOfPad(n, r.width);
    SplitOfSum(r.prefix, suffix);
    MoreDigits(r.lo, n);
  }

  // The position within the range that hostlist_find adds.
  function Reported(r: Range, hn: HostName): (k: nat)
    requires Sound(r) && Within(r, hn)
    ensures k < Count(r)
  {
    if hn.Numbered? && !r.single then hn.num - r.lo else 0
  }

  lemma DigitsHide(r: Range, hn: HostName)
    requires !r.single && EndsInDigit(r.prefix) && hn == SplitName(hn.name)
    ensures !Within(r, hn)
  {
  }

  lemma LargeNumbersHide(r: Range, n: nat, digits: string, hn: HostName)
    requires !r.single && !EndsInDigit(r.prefix) && n > MAX_HOST_SUFFIX && digits == Pad(n, r.width)
    requires hn == SplitName(r.prefix + digits)
    ensures !Within(r, hn)
  {
    ValueOfPad(n, r.width);
    SplitOfSum(r.prefix, digits);
  }

  lemma NumberIsReported(r: Range, n: nat, digits: string, hn: HostName)
    requires Sound(r) && !r.single && r.lo <= n <= r.hi && !EndsInDigit(r.prefix) && n <= MAX_HOST_SUFFIX
    requires digits == Pad(n, r.width) && hn == SplitName(r.prefix + digits)
    ensures Within(r, hn) && Reported(r, hn) == n - r.lo
  {
    NumberSplits(r, n, digits, hn);
  }

  lemma DigitsAnswer(r: Range, n: nat, digits: string, hn: HostName)
    requires Sound(r) && !r.single && r.lo <= n <= r.hi && digits == Pad(n, r.width)
    requires hn == SplitName(r.prefix + digits)
    ensures Within(r, hn) <==> !EndsInDigit(r.prefix) && n <= MAX_HOST_SUFFIX
    ensures Within(r, hn) ==> Reported(r, hn) == n - r.lo
  {
    if EndsInDigit(r.prefix) {
      DigitsHide(r, hn);
    } else if n <= MAX_HOST_SUFFIX {
      NumberIsReported(r, n, digits, hn);
    } else {
      LargeNumbersHide(r, n, digits, hn);
    }
  }

  lemma NameOf(r: Range, k: nat, digits: string)
    requires Sound(r) && !r.single && k < Count(r) && digits == Pad(r.lo + k, r.width)
    ensures Names(r)[k] == r.prefix + digits
  {
  }

  // A range answers to the name of a host exactly when that is split where the prefix ends.
  lemma NumberAnswers(r: Range, k: nat, hn: HostName)
    requires Sound(r) && !r.single && k < Count(r) && hn == SplitName(Names(r)[k])
    ensures Within(r, hn) <==> !EndsInDigit(r.prefix) && r.lo + k <= MAX_HOST_SUFFIX
    ensures Within(r, hn) ==> Reported(r, hn) == k
  {
    var digits := Pad(r.lo + k, r.width);
    NameOf(r, k, digits);
    DigitsAnswer(r, r.lo + k, digits, hn);
  }

  // For ranges with numbers hostlist_find compares numbers and widths; that is the
  // same as comparing names.
  lemma WithinIsByName(r: Range, name: string)
    requires Sound(r) && !r.single && !EndsInDigit(r.prefix) && r.hi <= MAX_HOST_SUFFIX
    ensures Within(r, SplitName(name)) <==> name in Names(r)
    ensures Within(r, SplitName(name)) ==> SplitName(name).Numbered? && r.lo <= SplitName(name).num <= r.hi
    ensures Within(r, SplitName(name)) ==> Names(r)[SplitName(name).num - r.lo] == name
  {
    if Within(r, SplitName(name)) {
      NumberIsWithin(r, SplitName(name));
    } else if name in Names(r) {
      var k :| 0 <= k < Count(r) && Names(r)[k] == name;
      NumberAnswers(r, k, SplitName(name));
    }
  }

  // A range is found under all its names exactly when its prefix does not end in a
  // digit and its numbers are not taken for a part of the name.
  lemma NamesAreFound(r: Range)
    requires Sound(r) && !r.single
    ensures (forall name | name in Names(r) :: Within(r, SplitName(name)))
      <==> !EndsInDigit(r.prefix) && r.hi <= MAX_HOST_SUFFIX
  {
    forall k | 0 <= k < Count(r)
      ensures Within(r, SplitName(Names(r)[k])) <==> !EndsInDigit(r.prefix) && r.lo + k <= MAX_HOST_SUFFIX
    {
      NumberAnswers(r, k, SplitName(Names(r)[k]));
    }
    assert Names(r)[r.hi - r.lo] in Names(r);
  }

  // A host without a number is also reported for its name followed by one zero.
  predicate FalseFriend(r: Range, name: string) {
    r.single && !EndsInDigit(r.prefix) && name == r.prefix + "0"
  }

  lemma OneZero(s: string)
    requires AllDigits(s) && |s| == 1 && Value(s) == 0
    ensures s == "0"
  {
    PadOfValue(s);
    assert Pad(0, 1) == "0";
  }

  lemma SingleIsWithin(r: Range, name: string)
    requires Sound(r) && r.single
    ensures Within(r, SplitName(name)) <==> name in Names(r) || FalseFriend(r, name)
  {
    var hn := SplitName(name);
    if FalseFriend(r, name) {
      assert Value("0") == 0 && "0" != [];
      SplitOfSum(r.prefix, "0");
    } else if hn.Numbered? && hn.num == 0 && |hn.suffix| == 1 {
      OneZero(hn.suffix);
    }
  }

  // ----- the position that is reported --------------------------------------------------

  function Found(hr: seq<Range>, hn: HostName): (k: int)
    requires AllSound(hr)
    ensures -1 <= k < |Expand(hr)|
  {
    if hr == [] then -1
    else if Within(hr[0], hn) then Reported(hr[0], hn)
    else After(Count(hr[0]), Found(hr[1..], hn))
  }

  // A position, or -1, with more hosts before it.
  function After(count: nat, k: int): int {
    if k < 0 then -1 else count + k
  }

  lemma FoundFrom(hr: seq<Range>, i: nat, hn: HostName)
    requires AllSound(hr) && i < |hr|
    ensures Found(hr[i..], hn) ==
      if Within(hr[i], hn) then Reported(hr[i], hn) else After(Count(hr[i]), Found(hr[i + 1..], hn))
  {
    assert hr[i..][1..] == hr[i + 1..];
  }

  // The range that hostlist_push_host makes of a name.
  function RangeOf(hn: HostName): Range {
    if hn.Numbered? then Range(hn.prefix, hn.num, hn.num, |hn.suffix|, false) else Range(hn.name, 0, 0, 0, true)
  }

  lemma NumberedName(prefix: string, suffix: string)
    requires AllDigits(suffix) && suffix != [] && Value(suffix) < ULONG_MAX
    ensures Names(Range(prefix, Value(suffix), Value(suffix), |suffix|, false)) == [prefix + suffix]
  {
    PadOfValue(suffix);
  }

  lemma RangeOfName(hn: HostName)
    requires hn == SplitName(hn.name)
    ensures Sound(RangeOf(hn)) && Names(RangeOf(hn)) == [hn.name]
  {
    if hn.Numbered? {
      NumberedName(hn.prefix, hn.suffix);
    }
  }

  // The first position of a name, or -1.
  function FirstIndex(s: seq<string>, name: string): (k: int)
    ensures -1 <= k < |s|
    ensures k >= 0 ==> s[k] == name && forall m | 0 <= m < k :: s[m] != name
    ensures k < 0 ==> name !in s
  {
    if s == [] then -1
    else if s[0] == name then 0
    else
      var k := FirstIndex(s[1..], name);
      if k < 0 then -1 else k + 1
  }

  lemma FirstIndexIs(s: seq<string>, name: string, k: nat)
    requires k < |s| && s[k] == name && forall m | 0 <= m < k :: s[m] != name
    ensures FirstIndex(s, name) == k
  {
    assert s[k] in s;
    assert FirstIndex(s, name) >= 0;
  }

  lemma FirstIndexOfSum(s: seq<string>, t: seq<string>, name: string)
    ensures FirstIndex(s + t, name) ==
      if name in s then FirstIndex(s, name)
      else if name in t then |s| + FirstIndex(t, name)
      else -1
  {
    if name in s {
      FirstIndexIs(s + t, name, FirstIndex(s, name));
    } else if name in t {
      FirstIndexIs(s + t, name, |s| + FirstIndex(t, name));
    }
  }

  // A range that holds the name answers to it: the name is not split elsewhere.
  predicate Answers(r: Range, name: string)
    requires Sound(r) && name in Names(r)
  {
    r.single || (!EndsInDigit(r.prefix) && r.lo + FirstIndex(Names(r), name) <= MAX_HOST_SUFFIX)
  }

  lemma AnswersIfWithin(r: Range, name: string)
    requires Sound(r) && name in Names(r)
    ensures Answers(r, name) <==> Within(r, SplitName(name))
    ensures Answers(r, name) ==> Reported(r, SplitName(name)) == FirstIndex(Names(r), name)
  {
    if r.single {
      SingleIsWithin(r, name);
    } else {
      NumberAnswers(r, FirstIndex(Names(r), name), SplitName(name));
    }
  }

  lemma StrangerIsNotWithin(r: Range, name: string)
    requires Sound(r) && name !in Names(r)
    ensures Within(r, SplitName(name)) <==> FalseFriend(r, name)
  {
    if r.single {
      SingleIsWithin(r, name);
    } else if Within(r, SplitName(name)) {
      NumberIsWithin(r, SplitName(name));
    }
  }

  // The first range that holds the name answers to it, and no host without a number
  // does before.
  predicate Unmistaken(hr: seq<Range>, name: string)
    requires AllSound(hr)
  {
    hr != [] ==>
      if name in Names(hr[0]) then Answers(hr[0], name)
      else !FalseFriend(hr[0], name) && Unmistaken(hr[1..], name)
  }

  // In every list, hostlist_find gives the first position of a name, or -1 if it is not
  // there, exactly then.
  lemma {:induction false} FoundIsFirst(hr: seq<Range>, name: string)
    requires AllSound(hr)
    ensures Found(hr, SplitName(name)) == FirstIndex(Expand(hr), name) <==> Unmistaken(hr, name)
    decreases |hr|
  {
    if hr != [] {
      var r, rest := hr[0], hr[1..];
      FirstIndexOfSum(Names(r), Expand(rest), name);
      if name in Names(r) {
        AnswersIfWithin(r, name);
      } else {
        StrangerIsNotWithin(r, name);
        FoundIsFirst(rest, name);
      }
    }
  }

  // A list whose prefixes do not end in digits, with numbers that are not taken for a
  // part of the name.
  predicate Findable(hr: seq<Range>) {
    forall k | 0 <= k < |hr| ::
      Sound(hr[k]) && (hr[k].single || (!EndsInDigit(hr[k].prefix) && hr[k].hi <= MAX_HOST_SUFFIX))
  }

  // There only a host without a number, asked for with a zero, can be mistaken.
  lemma {:induction false} FindableIsUnmistaken(hr: seq<Range>, name: string)
    requires Findable(hr) && AllSound(hr) && forall k | 0 <= k < |hr| :: !FalseFriend(hr[k], name)
    ensures Unmistaken(hr, name) && Found(hr, SplitName(name)) == FirstIndex(Expand(hr), name)
    decreases |hr|
  {
    FoundIsFirst(hr, name);
    if hr != [] {
      if name in Names(hr[0]) {
        assert FirstIndex(Names(hr[0]), name) < Count(hr[0]);
      } else {
        FindableIsUnmistaken(hr[1..], name);
      }
    }
  }
}
