// The text of host names in liblsd/hostlist.c: decimal suffixes, zero padding and
// how a name is split into a prefix and a number.

module HostNames {
  import opened Seqs

  // ----- decimal numbers ---------------------------------------------------------

  function DigitChar(d: nat): char
    requires d < 10
  {
    '0' + d as char
  }

  predicate IsDigit(c: char) {
    '0' <= c <= '9'
  }

  function DigitValue(c: char): nat
    requires IsDigit(c)
  {
    (c - '0') as nat
  }

  predicate AllDigits(s: string) {
    forall k | 0 <= k < |s| :: IsDigit(s[k])
  }

  function NumDigits(n: nat): (d: nat)
    ensures d >= 1
  {
    if n < 10 then 1 else 1 + NumDigits(n / 10)
  }

  function Digits(n: nat): (s: string)
    ensures |s| == NumDigits(n) && AllDigits(s)
  {
    if n < 10 then [DigitChar(n)] else Digits(n / 10) + [DigitChar(n % 10)]
  }

  function Value(s: string): nat
    requires AllDigits(s)
  {
    if s == [] then 0 else 10 * Value(s[..|s| - 1]) + DigitValue(s[|s| - 1])
  }

  function Zeros(k: nat): (s: string)
    ensures |s| == k && AllDigits(s)
  {
    if k == 0 then "" else Zeros(k - 1) + "0"
  }

  // What printf("%0*lu", width, n) writes.
  function Pad(n: nat, width: nat): (s: string)
    ensures |s| == Max(width, NumDigits(n)) && AllDigits(s)
  {
    Zeros(if width > NumDigits(n) then width - NumDigits(n) else 0) + Digits(n)
  }

  lemma {:induction false} MoreDigits(n: nat, m: nat)
    requires n <= m
    ensures NumDigits(n) <= NumDigits(m)
  {
    if m >= 10 {
      MoreDigits(n / 10, m / 10);
    }
  }

  lemma ValueOfAppend(s: string, c: char)
    requires AllDigits(s) && IsDigit(c)
    ensures AllDigits(s + [c]) && Value(s + [c]) == 10 * Value(s) + DigitValue(c)
  {
    assert (s + [c])[..|s|] == s;
  }

  lemma {:induction false} ValueOfDigits(n: nat)
    ensures Value(Digits(n)) == n
  {
    if n < 10 {
      assert Value([]) == 0;
      ValueOfAppend([], DigitChar(n));
      assert [] + [DigitChar(n)] == Digits(n);
    } else {
      ValueOfDigits(n / 10);
      ValueOfAppend(Digits(n / 10), DigitChar(n % 10));
    }
  }

  lemma {:induction false} ZerosAddNothing(k: nat, s: string)
    requires AllDigits(s)
    ensures AllDigits(Zeros(k) + s) && Value(Zeros(k) + s) == Value(s)
    decreases |s|, k
  {
    if s == [] {
      assert Zeros(k) + s == Zeros(k);
      if k > 0 {
        assert Zeros(k - 1) + [] == Zeros(k - 1);
        ZerosAddNothing(k - 1, []);
        ValueOfAppend(Zeros(k - 1), '0');
      }
    } else {
      var front := s[..|s| - 1];
      ZerosAddNothing(k, front);
      ValueOfAppend(Zeros(k) + front, s[|s| - 1]);
      assert Zeros(k) + s == (Zeros(k) + front) + [s[|s| - 1]];
    }
  }

  // Reading a padded number gives it back.
  lemma ValueOfPad(n: nat, width: nat)
    ensures Value(Pad(n, width)) == n
  {
    ValueOfDigits(n);
    ZerosAddNothing(if width > NumDigits(n) then width - NumDigits(n) else 0, Digits(n));
  }

  lemma PadAppendZero(k: nat, d: nat)
    requires k > 0 && d < 10
    ensures Pad(0, k) + [DigitChar(d)] == Pad(d, k + 1)
  {
    assert Pad(0, k) == Zeros(k - 1) + "0" == Zeros(k);
    assert Pad(d, k + 1) == Zeros(k) + [DigitChar(d)];
  }

  lemma PadAppend(v: nat, k: nat, d: nat, n: nat)
    requires v > 0 && NumDigits(v) <= k && d < 10 && n == 10 * v + d
    ensures NumDigits(n) == NumDigits(v) + 1 && Pad(v, k) + [DigitChar(d)] == Pad(n, k + 1)
  {
    assert n / 10 == v && n % 10 == d;
    var pad := Zeros(k - NumDigits(v));
    assert Zeros(0) == "";
    assert Pad(v, k) == pad + Digits(v) && Pad(n, k + 1) == pad + Digits(n);
    Associative(pad, Digits(v), [DigitChar(d)]);
  }

  // A digit string is the padding of its value to its length.
  lemma {:induction false} PadOfValue(s: string)
    requires AllDigits(s) && s != []
    ensures NumDigits(Value(s)) <= |s| && Pad(Value(s), |s|) == s
  {
    var front, c := s[..|s| - 1], s[|s| - 1];
    assert front + [c] == s;
    if front == [] {
      PadOfDigit(c);
    } else {
      PadOfValue(front);
      PadOfMore(front, c, Value(front), DigitValue(c), s);
    }
  }

  lemma DigitCharOfValue(c: char)
    requires IsDigit(c)
    ensures DigitValue(c) < 10 && DigitChar(DigitValue(c)) == c
  {
    assert (c - '0') as nat == c as nat - '0' as nat;
  }

  lemma PadOfDigit(c: char)
    requires IsDigit(c)
    ensures NumDigits(Value([c])) <= 1 && Pad(Value([c]), 1) == [c]
  {
    DigitCharOfValue(c);
    assert [c][..0] == [] && Zeros(0) == "";
    assert Value([c]) == DigitValue(c);
  }

  lemma PadOfMore(front: string, c: char, v: nat, d: nat, s: string)
    requires AllDigits(front) && front != [] && IsDigit(c) && s == front + [c] && AllDigits(s)
    requires v == Value(front) && d == DigitValue(c) && NumDigits(v) <= |front| && Pad(v, |front|) == front
    ensures NumDigits(Value(s)) <= |s| && Pad(Value(s), |s|) == s
  {
    DigitCharOfValue(c);
    assert s[..|s| - 1] == front;
    if v == 0 {
      PadAppendZero(|front|, d);
    } else {
      PadAppend(v, |front|, d, Value(s));
    }
  }

  // ----- widths --------------------------------------------------------------------

  // The number of zeros that bring num to width (hostlist.c:414-420).
  method ZeroPadded(num: nat, width: nat) returns (r: nat)
    ensures r == Max(width, NumDigits(num)) - NumDigits(num)
  {
    var n: nat, rest: nat := 1, num / 10;
    while rest != 0
      invariant NumDigits(num) == if rest == 0 then n else n + NumDigits(rest)
      decreases rest
    {
      n, rest := n + 1, rest / 10;
    }
    r := if width > n then width - n else 0;
  }

  // ----- splitting a name -------------------------------------------------------------

  const MAX_HOST_SUFFIX: nat := 0x200_0000

  datatype HostName = Numbered(name: string, prefix: string, num: nat, suffix: string) | Plain(name: string)

  predicate EndsInDigit(s: string) {
    s != [] && IsDigit(s[|s| - 1])
  }

  // How much of s is left without the digits at its end.
  function PrefixLength(s: string): (n: nat)
    ensures n <= |s| && AllDigits(s[n..]) && !EndsInDigit(s[..n])
  {
    if EndsInDigit(s) then
      var n := PrefixLength(s[..|s| - 1]);
      assert s[n..] == s[..|s| - 1][n..] + [s[|s| - 1]] && s[..|s| - 1][..n] == s[..n];
      n
    else
      assert s[..|s|] == s;
      |s|
  }

  // hostname_create: digits that stand for too large a number belong to the name.
  function SplitName(name: string): (hn: HostName)
    ensures hn.name == name
    ensures hn.Numbered? ==> hn.prefix + hn.suffix == name && !EndsInDigit(hn.prefix)
    ensures hn.Numbered? ==> AllDigits(hn.suffix) && hn.suffix != [] && hn.num == Value(hn.suffix) <= MAX_HOST_SUFFIX
  {
    var n := PrefixLength(name);
    if n == |name| || Value(name[n..]) > MAX_HOST_SUFFIX then Plain(name)
    else
      assert name[..n] + name[n..] == name;
      Numbered(name, name[..n], Value(name[n..]), name[n..])
  }

  // A name has one split, which depends on its text alone.
  lemma {:induction false} PrefixLengthOfSum(prefix: string, digits: string)
    requires AllDigits(digits) && !EndsInDigit(prefix)
    ensures PrefixLength(prefix + digits) == |prefix|
  {
    if digits == [] {
      assert prefix + digits == prefix;
    } else {
      var front := digits[..|digits| - 1];
      assert (prefix + digits)[..|prefix + digits| - 1] == prefix + front;
      PrefixLengthOfSum(prefix, front);
    }
  }

  lemma SplitOfSum(prefix: string, digits: string)
    requires AllDigits(digits) && digits != [] && !EndsInDigit(prefix)
    ensures SplitName(prefix + digits) ==
      if Value(digits) <= MAX_HOST_SUFFIX then Numbered(prefix + digits, prefix, Value(digits), digits)
      else Plain(prefix + digits)
  {
    PrefixLengthOfSum(prefix, digits);
    assert (prefix + digits)[..|prefix|] == prefix && (prefix + digits)[|prefix|..] == digits;
  }

  // The search for the end of the prefix (hostlist.c:473-480).
  method HostPrefixEnd(hostname: string) returns (idx: int)
    ensures idx == PrefixLength(hostname) - 1
  {
    idx := |hostname| - 1;
    assert hostname[..idx + 1] == hostname;
    while idx >= 0 && IsDigit(hostname[idx])
      invariant -1 <= idx < |hostname|
      invariant PrefixLength(hostname) == PrefixLength(hostname[..idx + 1])
    {
      assert hostname[..idx + 1][..idx] == hostname[..idx];
      idx := idx - 1;
    }
  }

  const ULONG_MAX: nat := 0xffff_ffff_ffff_ffff

  // strtoul on digits: what does not fit is ULONG_MAX.
  function Saturated(n: nat): nat {
    Min(n, ULONG_MAX)
  }

  method HostnameCreate(hostname: string) returns (hn: HostName)
    ensures hn == SplitName(hostname)
  {
    var idx := HostPrefixEnd(hostname);
    if idx == |hostname| - 1 {
      return Plain(hostname);
    }
    var suffix := hostname[idx + 1..];
    var num := Saturated(Value(suffix));
    if num <= MAX_HOST_SUFFIX {
      hn := Numbered(hostname, hostname[..idx + 1], num, suffix);
    } else {
      hn := Plain(hostname);
    }
  }
}
