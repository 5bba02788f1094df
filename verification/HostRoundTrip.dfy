// What hostlist_ranged_string writes, _hostlist_create_bracketed reads back.

module HostRoundTrip {
  import opened Seqs
  import opened HostNames
  import opened HostRange
  import opened HostSpec
  import opened HostPrint
  import P = HostParse
  import T = HostTokens

  // ----- lists that can be read back ---------------------------------------------------

  predicate Clean(s: string) {
    forall k | 0 <= k < |s| :: !P.IsSep(s[k]) && s[k] != '[' && s[k] != ']'
  }

  predicate Readable(r: Range) {
    Sound(r) && Clean(r.prefix) && (if r.single then r.prefix != "" else Count(r) <= P.MAX_RANGE)
  }

  ghost predicate AllReadable(hr: seq<Range>) {
    forall k | 0 <= k < |hr| :: Readable(hr[k])
  }

  // Each pair of brackets has room for its ranges, each token without brackets fits
  // the buffer it is copied to.
  ghost predicate Fits(hr: seq<Range>)
    requires AllReadable(hr)
    decreases |hr|
  {
    hr != [] ==>
      var n := GroupSize(hr);
      && n <= P.MAX_RANGES
      && (!BracketNeeded(hr[..n]) ==> |GroupText(hr[..n])| < P.TOKEN_BUFFER)
      && Fits(hr[n..])
  }

  // ----- numbers ------------------------------------------------------------------------

  lemma {:induction false} ReadDigitsAppend(s: string, c: char, number: nat)
    requires AllDigits(s) && IsDigit(c)
    ensures P.ReadDigits(s, number).1 == |s|
    ensures P.ReadDigits(s + [c], number) == (10 * P.ReadDigits(s, number).0 + DigitValue(c), |s| + 1)
  {
    if s == "" {
      assert (s + [c])[1..] == "";
    } else {
      assert (s + [c])[1..] == s[1..] + [c];
      ReadDigitsAppend(s[1..], c, 10 * number + DigitValue(s[0]));
    }
  }

  // strtoul reads the value of a digit string, all of it.
  lemma {:induction false} ReadDigitsIsValue(s: string)
    requires AllDigits(s)
    ensures P.ReadDigits(s, 0) == (Value(s), |s|)
  {
    if s != "" {
      var front, c := s[..|s| - 1], s[|s| - 1];
      ReadDigitsIsValue(front);
      ReadDigitsAppend(front, c, 0);
      assert s == front + [c];
    }
  }

  lemma StrtoulOfPad(n: nat, width: nat)
    requires n <= ULONG_MAX
    ensures P.Strtoul(Pad(n, width)) == (n, |Pad(n, width)|) && Pad(n, width) != ""
  {
    var s := Pad(n, width);
    assert IsDigit(s[0]);
    ReadDigitsIsValue(s);
    ValueOfPad(n, width);
  }

  lemma NoDash(s: string, c: char)
    requires AllDigits(s) && !IsDigit(c)
    ensures c !in s
  {
  }

  // A range is read back with the width that its lowest number was printed with.
  lemma SpanOfNumStr(r: Range)
    requires Readable(r) && !r.single
    ensures P.ParseSpan(NumStr(r)) == Some(P.Span(r.lo, r.hi, Printed(r.lo, r.width)))
  {
    var low, high := Pad(r.lo, r.width), Pad(r.hi, r.width);
    StrtoulOfPad(r.lo, r.width);
    StrtoulOfPad(r.hi, r.width);
    NoDash(low, '-');
    P.IndexOfFirst(low, '-', high);
    if r.lo < r.hi {
      var s := low + ['-'] + high;
      assert NumStr(r) == s && s[..|low|] == low && s[|low| + 1..] == high;
      assert IsDigit(high[0]);
      SpanOfTwo(low, high, r.lo, r.hi);
    } else {
      assert NumStr(r) == low && low[..|low|] == low;
      SpanOfTwo(low, "", r.lo, r.hi);
    }
  }

  lemma SpanOfTwo(left: string, right: string, lo: nat, hi: nat)
    requires left != "" && P.Strtoul(left) == (lo, |left|)
    requires if right == "" then hi == lo else P.Strtoul(right) == (hi, |right|) && right[0] != '-'
    requires lo <= hi <= ULONG_MAX && hi - lo < P.MAX_RANGE
    ensures P.SpanOf(left, right) == Some(P.Span(lo, hi, |left|))
  {
  }

  // ----- the text between brackets ----------------------------------------------------------

  // Splitting at the commas undoes joining with commas.
  lemma {:induction false} ItemsOfJoined(items: seq<string>)
    requires items != [] && forall k | 0 <= k < |items| :: ',' !in items[k]
    ensures P.Items(WithCommas(items)) == items
  {
    var first := items[0];
    if |items| == 1 {
      P.IndexOfFirst(first, ',', "");
      P.ItemsLast(first);
      assert items == [first];
    } else {
      var rest := WithCommas(items[1..]);
      ItemsOfJoined(items[1..]);
      P.IndexOfFirst(first, ',', rest);
      var s := first + [','] + rest;
      assert WithCommas(items) == s && s[..|first|] == first && s[|first| + 1..] == rest;
      P.ItemsCut(s, |first|, first, rest);
      assert items == [first] + items[1..];
    }
  }

  function SpanOfRange(r: Range): P.Span {
    P.Span(r.lo, r.hi, Printed(r.lo, r.width))
  }

  function SpansOf(hr: seq<Range>): seq<P.Span> {
    seq(|hr|, k requires 0 <= k < |hr| => SpanOfRange(hr[k]))
  }

  ghost predicate Numbered(hr: seq<Range>, prefix: string) {
    forall k | 0 <= k < |hr| :: Readable(hr[k]) && !hr[k].single && hr[k].prefix == prefix
  }

  lemma OneMoreItem(item: string, span: P.Span, items: seq<string>, spans: seq<P.Span>, room: nat, room': nat)
    requires P.ParseSpan(item) == Some(span) && P.ParseItems(items, room') == Some(spans) && room == room' + 1
    ensures P.ParseItems([item] + items, room) == Some([span] + spans)
  {
    P.ItemsStep([item] + items, room, item, items, room');
  }

  lemma NumStrsOfFirst(hr: seq<Range>)
    requires hr != []
    ensures NumStrs(hr) == [NumStr(hr[0])] + NumStrs(hr[1..])
    ensures SpansOf(hr) == [SpanOfRange(hr[0])] + SpansOf(hr[1..])
  {
  }

  lemma {:induction false} SpansAreRead(hr: seq<Range>, prefix: string, room: nat)
    requires Numbered(hr, prefix) && |hr| <= room
    ensures P.ParseItems(NumStrs(hr), room) == Some(SpansOf(hr))
    decreases |hr|
  {
    if hr != [] {
      var r, rest, room' := hr[0], hr[1..], room - 1;
      SpansAreRead(rest, prefix, room');
      NumStrsOfFirst(hr);
      SpanOfNumStr(r);
      OneMoreItem(NumStr(r), SpanOfRange(r), NumStrs(rest), SpansOf(rest), room, room');
    } else {
      assert NumStrs(hr) == [] && SpansOf(hr) == [];
    }
  }

  // The width that is read prints every number of the range as before.
  lemma NamesOfSpan(r: Range)
    requires Readable(r) && !r.single
    ensures P.SpanNames(r.prefix, "", SpanOfRange(r)) == Names(r)
  {
    var span, names := SpanOfRange(r), Names(r);
    forall k | 0 <= k < |names| ensures P.SpanNames(r.prefix, "", span)[k] == names[k] {
      SameAbove(r.lo, r.lo + k, r.width, span.width);
      var name := r.prefix + Pad(r.lo + k, span.width);
      assert name + "" == name;
    }
  }

  lemma {:induction false} NamesOfSpans(hr: seq<Range>, prefix: string)
    requires Numbered(hr, prefix)
    ensures AllSound(hr) && P.Bounded(SpansOf(hr)) && P.AllSpanNames(prefix, "", SpansOf(hr)) == Expand(hr)
    decreases |hr|
  {
    if hr != [] {
      NamesOfSpan(hr[0]);
      NamesOfSpans(hr[1..], prefix);
      assert SpansOf(hr)[1..] == SpansOf(hr[1..]);
    }
  }

  lemma NoComma(hr: seq<Range>, prefix: string)
    requires Numbered(hr, prefix)
    ensures forall k | 0 <= k < |hr| :: ',' !in NumStrs(hr)[k] && ']' !in NumStrs(hr)[k] && '[' !in NumStrs(hr)[k]
  {
    forall k | 0 <= k < |hr| ensures ',' !in NumStr(hr[k]) && ']' !in NumStr(hr[k]) && '[' !in NumStr(hr[k]) {
      NumStrIsDigits(hr[k]);
    }
  }

  lemma NumStrIsDigits(r: Range)
    requires !r.single
    ensures forall k | 0 <= k < |NumStr(r)| :: IsDigit(NumStr(r)[k]) || NumStr(r)[k] == '-'
  {
  }

  lemma BracketsAreRead(hr: seq<Range>, prefix: string)
    requires hr != [] && Numbered(hr, prefix) && |hr| <= P.MAX_RANGES
    ensures AllSound(hr) && P.BracketNames(prefix, WithCommas(NumStrs(hr)), "") == P.Pushed(Expand(hr))
  {
    NoComma(hr, prefix);
    ItemsOfJoined(NumStrs(hr));
    SpansAreRead(hr, prefix, P.MAX_RANGES);
    NamesOfSpans(hr, prefix);
  }

  // ----- one token ------------------------------------------------------------------------------

  lemma {:induction false} WithCommasIsSafe(items: seq<string>, c: char)
    requires c != ',' && forall k | 0 <= k < |items| :: c !in items[k]
    ensures c !in WithCommas(items)
  {
    if |items| > 1 {
      WithCommasIsSafe(items[1..], c);
    }
  }

  // A token is split at its first opening bracket and the first closing one after it.
  lemma SplitOfBrackets(prefix: string, list: string, suffix: string)
    requires '[' !in prefix && ']' !in list
    ensures P.SplitToken(prefix + "[" + list + "]" + suffix) == P.Bracketed(prefix, list, suffix)
  {
    var rest := list + [']'] + suffix;
    var tok := prefix + ['['] + rest;
    P.IndexOfFirst(prefix, '[', rest);
    P.IndexOfFirst(list, ']', suffix);
    assert prefix + "[" + list + "]" + suffix == tok;
    assert tok[..|prefix|] == prefix && tok[|prefix| + 1..] == rest;
    assert rest[..|list|] == list && rest[|list| + 1..] == suffix;
  }

  lemma SplitOfPlain(tok: string)
    requires '[' !in tok
    ensures P.SplitToken(tok) == P.Token.Plain(tok)
  {
    P.IndexOfFirst(tok, '[', "");
  }

  // A group of ranges: the first n of a list, or any that WithinRange makes one.
  ghost predicate IsGroup(group: seq<Range>) {
    group != [] && forall k | 0 < k < |group| :: WithinRange(group[k], group[k - 1])
  }

  lemma {:induction false} GroupHasOnePrefix(group: seq<Range>, k: nat)
    requires IsGroup(group) && k < |group|
    ensures group[k].prefix == group[0].prefix && (|group| > 1 ==> !group[k].single)
    decreases k
  {
    if k > 0 {
      GroupHasOnePrefix(group, k - 1);
      assert WithinRange(group[k], group[k - 1]);
      StrCmpIsEqual(group[k].prefix, group[k - 1].prefix);
    } else if |group| > 1 {
      assert WithinRange(group[1], group[0]);
    }
  }

  lemma GroupIsNumbered(group: seq<Range>)
    requires IsGroup(group) && AllReadable(group) && BracketNeeded(group)
    ensures Numbered(group, group[0].prefix)
  {
    forall k | 0 <= k < |group| ensures Readable(group[k]) && !group[k].single && group[k].prefix == group[0].prefix {
      GroupHasOnePrefix(group, k);
    }
  }

  lemma BracketGroupIsRead(group: seq<Range>, prefix: string)
    requires group != [] && Numbered(group, prefix) && |group| <= P.MAX_RANGES
    ensures AllSound(group) && P.TokenNames(prefix + "[" + WithCommas(NumStrs(group)) + "]") == P.Pushed(Expand(group))
  {
    var list := WithCommas(NumStrs(group));
    NoComma(group, prefix);
    WithCommasIsSafe(NumStrs(group), ']');
    assert Readable(group[0]);
    SplitOfBrackets(prefix, list, "");
    assert prefix + "[" + list + "]" + "" == prefix + "[" + list + "]";
    BracketsAreRead(group, prefix);
  }

  // The text of a group is a token that stands for the hosts of the group.
  lemma GroupIsRead(group: seq<Range>)
    requires IsGroup(group) && AllReadable(group) && |group| <= P.MAX_RANGES
    requires !BracketNeeded(group) ==> |GroupText(group)| < P.TOKEN_BUFFER
    ensures AllSound(group) && P.TokenNames(GroupText(group)) == P.Pushed(Expand(group))
  {
    if BracketNeeded(group) {
      GroupIsNumbered(group);
      BracketGroupIsRead(group, group[0].prefix);
      BracketText(group);
    } else {
      OneIsRead(group[0]);
      assert group == [group[0]];
      ExpandOfOne(group[0]);
    }
  }

  lemma BracketText(group: seq<Range>)
    requires group != [] && Sound(group[0]) && BracketNeeded(group)
    ensures GroupText(group) == group[0].prefix + "[" + WithCommas(NumStrs(group)) + "]"
  {
  }

  lemma OneIsRead(r: Range)
    requires Readable(r) && Count(r) == 1 && |r.prefix + NumStr(r)| < P.TOKEN_BUFFER
    ensures P.TokenNames(r.prefix + NumStr(r)) == P.Pushed(Names(r))
  {
    if r.single {
      assert r.prefix + "" == r.prefix;
    } else {
      NumStrIsDigits(r);
      assert NumStr(r) == Pad(r.lo, r.width);
      assert Names(r) == [r.prefix + Pad(r.lo, r.width)];
    }
    SplitOfPlain(r.prefix + NumStr(r));
  }

  // ----- tokens in a text ---------------------------------------------------------------------------

  // What may follow a token.
  predicate Ends(rest: string) {
    rest == "" || rest[0] == ','
  }

  lemma {:induction false} WordOfClean(word: string, rest: string)
    requires Clean(word)
    ensures P.WordLength(word + rest) == |word| + P.WordLength(rest)
  {
    if word == "" {
      assert word + rest == rest;
    } else {
      assert (word + rest)[1..] == word[1..] + rest;
      WordOfClean(word[1..], rest);
    }
  }

  lemma PlainIsToken(tok: string, rest: string)
    requires Clean(tok) && Ends(rest)
    ensures P.TokenLength(tok + rest) == |tok|
  {
    WordOfClean(tok, rest);
    OpensNone(tok, rest);
    WordIsToken(tok + rest, |tok|);
  }

  lemma OpensNone(tok: string, rest: string)
    requires Clean(tok)
    ensures '[' !in (tok + rest)[..|tok|]
  {
    assert (tok + rest)[..|tok|] == tok;
  }

  lemma WordIsToken(s: string, e: nat)
    requires e == P.WordLength(s) && '[' !in s[..e]
    ensures P.TokenLength(s) == e
  {
    assert P.PastBrackets(s, e) == None;
  }

  // Digits, dashes and commas.
  predicate Listing(s: string) {
    forall k | 0 <= k < |s| :: IsDigit(s[k]) || s[k] == '-' || s[k] == ','
  }

  predicate Unbracketed(s: string) {
    '[' !in s && ']' !in s
  }

  lemma {:induction false} WordInListing(list: string, rest: string)
    ensures var n := P.WordLength(list + "]" + rest);
      n == |list| + 1 + P.WordLength(rest) || (n < |list| && P.IsSep(list[n]))
  {
    var s := list + "]" + rest;
    if list == "" {
      assert s[1..] == rest;
    } else {
      assert s[1..] == list[1..] + "]" + rest;
      WordInListing(list[1..], rest);
    }
  }

  // A bracket that is still open is closed by the next one.
  lemma PastOpen(front: string, right: string, rest: string, s: string, e: nat)
    requires '[' in front && ']' !in front && ']' !in right && '[' !in right
    requires s == front + (right + [']'] + rest) && e == |front|
    ensures P.PastBrackets(s, e) == Some(|front| + |right| + 1) && s[|front| + |right| + 1..] == rest
  {
    assert s[..e] == front && s[e..] == right + [']'] + rest;
    P.IndexOfFirst(right, ']', rest);
    assert s[e..e + |right|] == right;
  }

  lemma PastClosed(s: string, e: nat)
    requires e <= |s| && ']' in s[..e]
    ensures P.PastBrackets(s, e) == None
  {
  }

  lemma CutListing(prefix: string, list: string, rest: string, n: nat)
    requires n <= |list| && Unbracketed(prefix) && Unbracketed(list)
    ensures var front := prefix + "[" + list[..n];
      && prefix + "[" + list + "]" + rest == front + (list[n..] + [']'] + rest)
      && '[' in front && ']' !in front && ']' !in list[n..] && '[' !in list[n..]
  {
    assert (prefix + "[" + list[..n])[|prefix|] == '[';
  }

  // The separators between the brackets do not end the token, those after them do.
  lemma BracketsAreToken(prefix: string, list: string, rest: string)
    requires Clean(prefix) && Unbracketed(list)
    ensures P.TokenLength(prefix + "[" + list + "]" + rest) == |prefix| + |list| + 2 + P.WordLength(rest)
  {
    var tok := prefix + "[" + list + "]";
    var s := tok + rest;
    WordInListing(list, rest);
    WordOfBrackets(prefix, list, rest, s);
    var e := P.WordLength(s);
    if e >= |tok| {
      assert s[..e][|tok| - 1] == ']';
      PastClosed(s, e);
    } else {
      var n := e - |prefix| - 1;
      CutListing(prefix, list, rest, n);
      PastOpen(prefix + "[" + list[..n], list[n..], rest, s, e);
    }
  }

  lemma WordOfBrackets(prefix: string, list: string, rest: string, s: string)
    requires Clean(prefix) && s == prefix + "[" + list + "]" + rest
    ensures P.WordLength(s) == |prefix| + 1 + P.WordLength(list + "]" + rest)
  {
    var inner := list + "]" + rest;
    WordOfClean(prefix, "[" + inner);
    assert s == prefix + ("[" + inner);
    assert ("[" + inner)[1..] == inner;
  }

  // ----- the whole list --------------------------------------------------------------------------------

  lemma {:induction false} ListingOfItems(items: seq<string>)
    requires forall k | 0 <= k < |items| :: Listing(items[k])
    ensures Listing(WithCommas(items))
  {
    if |items| > 1 {
      ListingOfItems(items[1..]);
    }
  }

  lemma ListingOfGroup(group: seq<Range>)
    requires forall k | 0 <= k < |group| :: !group[k].single
    ensures Listing(WithCommas(NumStrs(group)))
  {
    forall k | 0 <= k < |group| ensures Listing(NumStrs(group)[k]) {
      NumStrIsDigits(group[k]);
    }
    ListingOfItems(NumStrs(group));
  }

  predicate Starts(tok: string) {
    tok != "" && !P.IsSep(tok[0])
  }

  lemma GroupIsToken(group: seq<Range>, rest: string)
    requires IsGroup(group) && AllReadable(group) && Ends(rest)
    ensures Starts(GroupText(group)) && P.TokenLength(GroupText(group) + rest) == |GroupText(group)|
  {
    var r, prefix := group[0], group[0].prefix;
    if BracketNeeded(group) {
      forall k | 0 <= k < |group| ensures !group[k].single {
        GroupHasOnePrefix(group, k);
      }
      ListingOfGroup(group);
      var list := WithCommas(NumStrs(group));
      assert GroupText(group) == prefix + "[" + list + "]";
      assert prefix == "" ==> GroupText(group)[0] == '[';
      BracketsAreToken(prefix, list, rest);
    } else {
      OneIsClean(r);
      PlainIsToken(GroupText(group), rest);
    }
  }

  lemma OneIsClean(r: Range)
    requires Readable(r) && Count(r) == 1
    ensures Clean(r.prefix + NumStr(r)) && Starts(r.prefix + NumStr(r))
  {
    if !r.single {
      NumStrIsDigits(r);
      assert r.prefix == "" ==> (r.prefix + NumStr(r))[0] == NumStr(r)[0];
    }
  }

  lemma FirstGroup(hr: seq<Range>) returns (n: nat, group: seq<Range>, rest: seq<Range>)
    requires hr != [] && AllReadable(hr)
    ensures n == GroupSize(hr) && group == hr[..n] && rest == hr[n..] && hr == group + rest
    ensures IsGroup(group) && AllReadable(group) && AllReadable(rest)
    ensures AllSound(hr) && AllSound(group) && AllSound(rest)
  {
    n := GroupSize(hr);
    group, rest := hr[..n], hr[n..];
    GroupIsNeighbours(hr, n);
  }

  // One token, then the rest of the text.
  lemma TokenThenRest(tok: string, rest: string, names: seq<string>, more: seq<string>)
    requires Starts(tok) && P.TokenLength(tok + rest) == |tok| && P.TokenNames(tok) == P.Pushed(names)
    requires P.ParsedNames(rest) == P.Pushed(more)
    ensures P.ParsedNames(tok + rest) == P.Pushed(names + more)
  {
    var s := tok + rest;
    assert s[..|tok|] == tok && s[|tok|..] == rest && P.SkipSeps(s) == s;
    P.SkipTwice(rest);
    P.NamesStep(s, |tok|, names, P.SkipSeps(rest));
  }

  lemma CommaIsSkipped(rest: string)
    ensures P.ParsedNames("," + rest) == P.ParsedNames(rest)
  {
    assert ("," + rest)[1..] == rest;
    assert P.SkipSeps("," + rest) == P.SkipSeps(rest);
    P.SkipTwice(rest);
    P.SkipTwice("," + rest);
  }

  lemma {:induction false} TextIsRead(hr: seq<Range>)
    requires AllReadable(hr) && AllSound(hr) && Fits(hr)
    ensures P.ParsedNames(T.Text(hr)) == P.Pushed(Expand(hr))
    decreases |hr|
  {
    if hr != [] {
      var n, group, rest := FirstGroup(hr);
      var after := if n < |hr| then "," + T.Text(rest) else "";
      GroupIsToken(group, after);
      GroupIsRead(group);
      if n < |hr| {
        TextIsRead(rest);
        CommaIsSkipped(T.Text(rest));
      }
      assert P.ParsedNames(after) == P.Pushed(Expand(rest));
      TokenThenRest(GroupText(group), after, Expand(group), Expand(rest));
      ExpandOfSum(group, rest);
    }
  }

  // Reading the text of a list gives a list of the same hosts, in the same order.
  lemma PrintedIsRead(hr: seq<Range>)
    requires AllReadable(hr) && Fits(hr)
    ensures AllSound(hr) && P.ParsedNames(TextAfter("", hr)) == P.Pushed(Expand(hr))
  {
    T.TextAfterIsText("", hr);
    TextIsRead(hr);
    assert "" + T.Text(hr) == T.Text(hr);
  }
}
