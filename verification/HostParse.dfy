// How _hostlist_create_bracketed reads a list of hosts.

module HostParse {
  import opened Seqs
  import opened HostNames

  const MAX_RANGE: nat := 16384
  const MAX_RANGES: nat := 10240
  const TOKEN_BUFFER: nat := 1024

  // ----- C strings ------------------------------------------------------------------

  // The separators of hostlist_create.
  predicate IsSep(c: char) {
    c == '\t' || c == ',' || c == ' '
  }

  predicate IsSpace(c: char) {
    c == ' ' || 9 <= c as int <= 13
  }

  // strchr: where c is in s, or the length of s.
  function IndexOf(s: string, c: char): (k: nat)
    ensures k <= |s| && (k < |s| ==> s[k] == c)
  {
    if s == "" || s[0] == c then 0 else 1 + IndexOf(s[1..], c)
  }

  // The first c, wherever it is.
  lemma {:induction false} IndexOfFirst(before: string, c: char, after: string)
    requires c !in before
    ensures IndexOf(before + [c] + after, c) == |before|
    ensures IndexOf(before, c) == |before|
  {
    if before != "" {
      var rest := before[1..];
      assert (before + [c] + after)[1..] == rest + [c] + after;
      IndexOfFirst(rest, c, after);
    }
  }

  // The number that the digits at the start of s continue, and how many there are.
  function ReadDigits(s: string, number: nat): (r: (nat, nat))
    ensures r.1 <= |s|
  {
    if s == "" || !IsDigit(s[0]) then (number, 0)
    else
      var (v, used) := ReadDigits(s[1..], 10 * number + DigitValue(s[0]));
      (v, used + 1)
  }

  // -v in unsigned long.
  function Negated(v: nat): (r: nat)
    ensures r <= ULONG_MAX
  {
    if v == 0 then 0 else if v <= ULONG_MAX then ULONG_MAX + 1 - v else ULONG_MAX
  }

  // hi - lo + 1 in unsigned long.
  function CountOf(lo: nat, hi: nat): nat
    requires lo <= hi <= ULONG_MAX
  {
    if hi - lo == ULONG_MAX then 0 else hi - lo + 1
  }

  // strtoul in base 10: the value, and how many characters were used, 0 for none.
  // What does not fit is ULONG_MAX; a minus sign wraps around.
  function Strtoul(s: string): (r: (nat, nat))
    ensures r.0 <= ULONG_MAX && r.1 <= |s|
  {
    if s != "" && IsSpace(s[0]) then
      var (v, used) := Strtoul(s[1..]);
      (v, if used == 0 then 0 else used + 1)
    else if s != "" && (s[0] == '-' || s[0] == '+') then
      var (v, used) := ReadDigits(s[1..], 0);
      (if s[0] == '-' then Negated(v) else Saturated(v), if used == 0 then 0 else used + 1)
    else
      var (v, used) := ReadDigits(s, 0);
      (Saturated(v), used)
  }

  // ----- ranges between brackets --------------------------------------------------------

  datatype Span = Span(lo: nat, hi: nat, width: nat)

  // The upper end: the whole text after the dash has to be a number.
  function UpperEnd(left: string, lo: nat, used: nat, right: string): (r: Option<nat>)
    requires lo <= ULONG_MAX
    ensures r.Some? ==> r.value <= ULONG_MAX
  {
    if right == "" then (if used < |left| then None else Some(lo))
    else
      var (hi, usedHi) := Strtoul(right);
      if usedHi == 0 || usedHi < |right| then None else Some(hi)
  }

  function CheckedSpan(lo: nat, hi: nat, width: nat): Option<Span>
    requires hi <= ULONG_MAX
  {
    if lo > hi || CountOf(lo, hi) > MAX_RANGE then None else Some(Span(lo, hi, width))
  }

  function SpanOf(left: string, right: string): Option<Span> {
    if right != "" && right[0] == '-' then None
    else
      var (lo, used) := Strtoul(left);
      if used == 0 then None
      else match UpperEnd(left, lo, used, right)
        case None => None
        case Some(hi) => CheckedSpan(lo, hi, |left|)
  }

  function ParseSpan(str: string): Option<Span> {
    var p := IndexOf(str, '-');
    SpanOf(str[..p], if p < |str| then str[p + 1..] else "")
  }

  method ParseUpperEnd(left: string, lo: nat, used: nat, right: string) returns (hi: Option<nat>)
    requires used <= |left| && lo <= ULONG_MAX
    ensures hi == UpperEnd(left, lo, used, right)
  {
    var end, rest := lo, left[used..];
    if right != "" {
      var (h, usedHi) := Strtoul(right);
      if usedHi == 0 {
        return None;
      }
      end, rest := h, right[usedHi..];
    }
    hi := if rest != "" then None else Some(end);
  }

  method ParseSingleRange(str: string) returns (range: Option<Span>)
    ensures range == ParseSpan(str)
  {
    var p := IndexOf(str, '-');
    var left, right := str[..p], "";
    if p < |str| {
      right := str[p + 1..];
      if right != "" && right[0] == '-' {
        return None;
      }
    }
    var (lo, used) := Strtoul(left);
    if used == 0 {
      return None;
    }
    var hi := ParseUpperEnd(left, lo, used, right);
    if hi.None? {
      return None;
    }
    if lo > hi.value {
      return None;
    }
    if CountOf(lo, hi.value) > MAX_RANGE {
      return None;
    }
    return Some(Span(lo, hi.value, |left|));
  }

  // The pieces of s between commas.
  function Items(s: string): seq<string> {
    var p := IndexOf(s, ',');
    if p < |s| then [s[..p]] + Items(s[p + 1..]) else [s]
  }

  lemma ItemsCut(s: string, p: nat, item: string, rest: string)
    requires p == IndexOf(s, ',') && p < |s| && item == s[..p] && rest == s[p + 1..]
    ensures Items(s) == [item] + Items(rest)
  {
  }

  lemma ItemsLast(s: string)
    requires IndexOf(s, ',') == |s|
    ensures Items(s) == [s] && Items(s) == [s] + []
  {
  }

  function ParseItems(items: seq<string>, room: nat): Option<seq<Span>> {
    if items == [] then Some([])
    else if room == 0 then None
    else Then(ParseSpan(items[0]), ParseItems(items[1..], room - 1))
  }

  function Then(first: Option<Span>, rest: Option<seq<Span>>): Option<seq<Span>> {
    if first.Some? && rest.Some? then Some([first.value] + rest.value) else None
  }

  function After(done: seq<Span>, rest: Option<seq<Span>>): Option<seq<Span>> {
    if rest.Some? then Some(done + rest.value) else None
  }

  lemma ItemsStep(items: seq<string>, room: nat, item: string, rest: seq<string>, room': nat)
    requires room == room' + 1 && items == [item] + rest
    ensures ParseItems(items, room) == Then(ParseSpan(item), ParseItems(rest, room'))
  {
    assert room - 1 == room' && items[1..] == rest;
  }

  lemma AfterOne(done: seq<Span>, span: Span, rest: Option<seq<Span>>)
    ensures After(done, Then(Some(span), rest)) == After(done + [span], rest)
  {
    if rest.Some? {
      Associative(done, [span], rest.value);
    }
  }

  lemma AfterNothing(rest: Option<seq<Span>>)
    ensures After([], rest) == rest
  {
    if rest.Some? {
      assert [] + rest.value == rest.value;
    }
  }

  // Cuts the next item off the list, at the next comma if there is one.
  method NextItem(str: string) returns (item: string, rest: string, more: bool)
    ensures Items(str) == [item] + (if more then Items(rest) else [])
    ensures more ==> |rest| < |str|
  {
    var p := IndexOf(str, ',');
    item, rest, more := str[..p], "", false;
    if p < |str| {
      rest, more := str[p + 1..], true;
      ItemsCut(str, p, item, rest);
    } else {
      assert item == str;
      ItemsLast(str);
    }
  }

  method ParseRangeList(str: string, len: nat) returns (ranges: Option<seq<Span>>)
    ensures ranges == ParseItems(Items(str), len)
  {
    var rest, more, count, done: seq<Span> := str, true, 0, [];
    ghost var room, items, all := len, Items(str), ParseItems(Items(str), len);
    AfterNothing(all);
    while more
      invariant count + room == len && |done| == count
      invariant items == if more then Items(rest) else []
      invariant all == After(done, ParseItems(items, room))
      decreases |items|
    {
      if count == len {
        return None;
      }
      var item;
      item, rest, more := NextItem(rest);
      ghost var was, before := items, room;
      items, room := if more then Items(rest) else [], room - 1;
      ItemsStep(was, before, item, items, room);
      var span := ParseSingleRange(item);
      if span.None? {
        return None;
      }
      AfterOne(done, span.value, ParseItems(items, room));
      done, count := done + [span.value], count + 1;
    }
    ranges := Some(done);
    assert done + [] == done;
  }

  // ----- tokens ---------------------------------------------------------------------------

  function SkipSeps(s: string): (r: string)
    ensures |r| <= |s| && (r != "" ==> !IsSep(r[0]))
  {
    if s != "" && IsSep(s[0]) then SkipSeps(s[1..]) else s
  }

  // The characters before the first separator.
  function WordLength(s: string): (n: nat)
    ensures n <= |s|
  {
    if s == "" || IsSep(s[0]) then 0 else 1 + WordLength(s[1..])
  }

  // _advance_past_brackets with the first e characters scanned: past the closing
  // bracket, if exactly one has been opened.
  function PastBrackets(s: string, e: nat): (r: Option<nat>)
    requires e <= |s|
    ensures r.Some? ==> e < r.value <= |s| && ']' in s[..r.value]
  {
    if '[' in s[..e] && ']' !in s[..e] then
      var q := IndexOf(s[e..], ']');
      if q < |s| - e && '[' !in s[e..e + q] then
        assert s[..e + q + 1][e + q] == ']';
        Some(e + q + 1)
      else None
    else None
  }

  // Where the token that s starts with ends: separators between brackets belong to it.
  function TokenLength(s: string): (n: nat)
    ensures n <= |s|
  {
    var e := WordLength(s);
    match PastBrackets(s, e)
    case None => e
    case Some(next) => next + WordLength(s[next..])
  }

  // _next_tok: the next token and the text after the separators that follow it.
  method NextTok(s: string) returns (tok: Option<string>, rest: string)
    ensures Follows(SkipSeps(s), tok, rest)
  {
    rest := s;
    while rest != "" && IsSep(rest[0])
      invariant SkipSeps(rest) == SkipSeps(s)
      decreases |rest|
    {
      rest := rest[1..];
    }
    if rest == "" {
      return None, rest;
    }
    var t := rest;
    var n: nat := ScanWord(t, 0);
    var past := PastBrackets(t, n);
    while past.Some?
      invariant n <= |t|
      invariant past == PastBrackets(t, n)
      invariant past.Some? ==> n == WordLength(t)
      invariant past.None? ==> n == TokenLength(t)
      decreases past.Some?
    {
      n := ScanWord(t, past.value);
      assert ']' in t[..n] by {
        assert t[..past.value] == t[..n][..past.value];
      }
      past := PastBrackets(t, n);
    }
    rest := t[n..];
    while rest != "" && IsSep(rest[0])
      invariant SkipSeps(rest) == SkipSeps(t[n..])
      decreases |rest|
    {
      rest := rest[1..];
    }
    return Some(t[..n]), rest;
  }

  // What _next_tok finds in s, a text that does not start with a separator.
  ghost predicate Follows(s: string, tok: Option<string>, rest: string) {
    && s == SkipSeps(s) && (s == "" <==> tok == None)
    && (tok.Some? ==> tok.value == s[..TokenLength(s)] && rest == SkipSeps(s[TokenLength(s)..]))
  }

  // The inner loop of _next_tok, from k on.
  method ScanWord(s: string, k: nat) returns (n: nat)
    requires k <= |s|
    ensures n == k + WordLength(s[k..]) && k <= n <= |s|
  {
    n := k;
    while n < |s| && !IsSep(s[n])
      invariant k <= n <= |s| && n - k + WordLength(s[n..]) == WordLength(s[k..])
    {
      assert s[n..][1..] == s[n + 1..];
      n := n + 1;
    }
  }

  // ----- the whole text --------------------------------------------------------------------

  // The names that end up in the list; an error; or a text whose handling is not
  // modelled: a token that overflows the buffer it is copied to, or a range that ends
  // at ULONG_MAX.
  datatype Parsed = Rejected | Unmodelled | Pushed(names: seq<string>)

  function Append(names: seq<string>, parsed: Parsed): Parsed {
    match parsed
    case Pushed(more) => Pushed(names + more)
    case _ => parsed
  }

  function SpanNames(prefix: string, suffix: string, span: Span): (s: seq<string>)
    requires span.lo <= span.hi
  {
    seq(span.hi - span.lo + 1, k requires 0 <= k => prefix + Pad(span.lo + k, span.width) + suffix)
  }

  predicate Bounded(spans: seq<Span>) {
    forall k | 0 <= k < |spans| :: spans[k].lo <= spans[k].hi < ULONG_MAX
  }

  function AllSpanNames(prefix: string, suffix: string, spans: seq<Span>): seq<string>
    requires Bounded(spans)
  {
    if spans == [] then [] else SpanNames(prefix, suffix, spans[0]) + AllSpanNames(prefix, suffix, spans[1..])
  }

  function PlainName(tok: string): Parsed {
    if |tok| >= TOKEN_BUFFER then Unmodelled else Pushed([tok])
  }

  function BracketNames(prefix: string, list: string, suffix: string): Parsed {
    match ParseItems(Items(list), MAX_RANGES)
    case None => Rejected
    case Some(spans) => if Bounded(spans) then Pushed(AllSpanNames(prefix, suffix, spans)) else Unmodelled
  }

  datatype Token = Plain(name: string) | Bracketed(prefix: string, list: string, suffix: string)

  // A token without a pair of brackets is a name.
  function SplitToken(tok: string): Token {
    var p := IndexOf(tok, '[');
    if p == |tok| then Token.Plain(tok)
    else
      var rest := tok[p + 1..];
      var q := IndexOf(rest, ']');
      if q == |rest| then Token.Plain(tok) else Bracketed(tok[..p], rest[..q], rest[q + 1..])
  }

  function Meaning(token: Token): Parsed {
    match token
    case Plain(name) => PlainName(name)
    case Bracketed(prefix, list, suffix) => BracketNames(prefix, list, suffix)
  }

  function TokenNames(tok: string): Parsed {
    Meaning(SplitToken(tok))
  }

  function ParsedNames(s: string): Parsed
    decreases |s|
  {
    var t := SkipSeps(s);
    if t == "" then Pushed([])
    else
      var n := TokenLength(t);
      match TokenNames(t[..n])
      case Pushed(names) => Append(names, ParsedNames(t[n..]))
      case failed => failed
  }

  predicate Ordered(spans: seq<Span>) {
    forall k | 0 <= k < |spans| :: spans[k].lo <= spans[k].hi <= ULONG_MAX
  }

  lemma SpanIsOrdered(left: string, right: string, span: Span)
    requires SpanOf(left, right) == Some(span)
    ensures Ordered([span])
  {
  }

  lemma ItemIsOrdered(str: string, span: Span)
    requires ParseSpan(str) == Some(span)
    ensures Ordered([span])
  {
    var d := IndexOf(str, '-');
    SpanIsOrdered(str[..d], if d < |str| then str[d + 1..] else "", span);
  }

  lemma OrderedSum(span: Span, rest: seq<Span>)
    requires Ordered([span]) && Ordered(rest)
    ensures Ordered([span] + rest)
  {
    assert [span][0] == span;
  }

  // Every range that is accepted has at least one number.
  lemma {:induction false} SpansAreOrdered(items: seq<string>, room: nat, spans: seq<Span>)
    requires ParseItems(items, room) == Some(spans)
    ensures Ordered(spans)
    decreases room
  {
    if items != [] {
      var item, rest, room' := items[0], items[1..], room - 1;
      ItemsStep(items, room, item, rest, room');
      ItemIsOrdered(item, spans[0]);
      SpansAreOrdered(rest, room', ParseItems(rest, room').value);
      OrderedSum(spans[0], ParseItems(rest, room').value);
    }
  }

  lemma NamesStep(s: string, n: nat, names: seq<string>, next: string)
    requires s != "" && s == SkipSeps(s) && n == TokenLength(s) && TokenNames(s[..n]) == Pushed(names)
    requires next == SkipSeps(s[n..])
    ensures ParsedNames(s) == Append(names, ParsedNames(next)) && |next| < |s|
  {
    SkipTwice(s[n..]);
  }

  lemma NamesFail(s: string, n: nat)
    requires s != "" && s == SkipSeps(s) && n == TokenLength(s) && !TokenNames(s[..n]).Pushed?
    ensures ParsedNames(s) == TokenNames(s[..n])
  {
  }

  lemma AppendTwice(a: seq<string>, b: seq<string>, parsed: Parsed)
    ensures Append(a, Append(b, parsed)) == Append(a + b, parsed)
  {
    if parsed.Pushed? {
      Associative(a, b, parsed.names);
    }
  }

  lemma SkipTwice(s: string)
    ensures SkipSeps(SkipSeps(s)) == SkipSeps(s) && ParsedNames(SkipSeps(s)) == ParsedNames(s)
  {
  }
}
