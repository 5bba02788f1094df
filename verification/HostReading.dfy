// What _hostlist_create_bracketed accepts and makes of a text, said of the text itself.

module HostReading {
  import opened Seqs
  import opened HostNames
  import opened HostRange
  import opened HostSpec
  import opened HostPrint
  import opened HostRoundTrip
  import P = HostParse

  // ----- numbers -------------------------------------------------------------------------

  predicate StopsDigits(s: string) {
    s == "" || !IsDigit(s[0])
  }

  lemma {:induction false} DigitsThenRest(digits: string, rest: string, number: nat)
    requires AllDigits(digits) && StopsDigits(rest)
    ensures P.ReadDigits(digits + rest, number) == P.ReadDigits(digits, number)
    decreases |digits|
  {
    if digits == "" {
      assert digits + rest == rest;
    } else {
      assert (digits + rest)[1..] == digits[1..] + rest;
      DigitsThenRest(digits[1..], rest, 10 * number + DigitValue(digits[0]));
    }
  }

  // strtoul reads digits up to the first other character, and no more than ULONG_MAX.
  lemma StrtoulOfDigits(digits: string, rest: string)
    requires AllDigits(digits) && digits != "" && StopsDigits(rest)
    ensures P.Strtoul(digits + rest) == (Min(Value(digits), ULONG_MAX), |digits|)
  {
    assert IsDigit((digits + rest)[0]);
    DigitsThenRest(digits, rest, 0);
    ReadDigitsIsValue(digits);
  }

  // Without digits at the start there is no number, unless spaces or a sign come first.
  lemma StrtoulOfNothing(s: string)
    requires StopsDigits(s) && (s != "" ==> !P.IsSpace(s[0]) && s[0] != '-' && s[0] != '+')
    ensures P.Strtoul(s).1 == 0
  {
  }

  // ----- one range ----------------------------------------------------------------------------

  lemma CutAtDash(left: string, right: string)
    requires '-' !in left
    ensures P.ParseSpan(left + "-" + right) == P.SpanOf(left, right)
    ensures P.ParseSpan(left) == P.SpanOf(left, "")
  {
    P.IndexOfFirst(left, '-', right);
    var s := left + ['-'] + right;
    assert left + "-" + right == s && s[..|left|] == left && s[|left| + 1..] == right;
    assert left[..|left|] == left;
  }

  // The first number is not greater than the second and they are less than 16384 apart.
  // All of unsigned long passes, too: the number of its numbers wraps around to none.
  predicate InLimits(lo: nat, hi: nat) {
    lo <= hi && (hi - lo < 16384 || (lo == 0 && hi == ULONG_MAX))
  }

  function Limited(lo: nat, hi: nat, width: nat): Option<P.Span> {
    if InLimits(lo, hi) then Some(P.Span(lo, hi, width)) else None
  }

  lemma SpanOfRead(left: string, right: string, lo: nat, used: nat, hi: nat)
    requires P.Strtoul(left) == (lo, used) && used > 0 && lo <= ULONG_MAX
    requires right != "" && right[0] != '-' && P.Strtoul(right) == (hi, |right|) && hi <= ULONG_MAX
    ensures P.SpanOf(left, right) == Limited(lo, hi, |left|)
  {
    assert P.UpperEnd(left, lo, used, right) == Some(hi);
  }

  lemma SpanOfText(left: string, right: string, text: string, lo: nat, used: nat, hi: nat)
    requires '-' !in left && text == left + "-" + right
    requires P.Strtoul(left) == (lo, used) && used > 0 && lo <= ULONG_MAX
    requires right != "" && right[0] != '-' && P.Strtoul(right) == (hi, |right|) && hi <= ULONG_MAX
    ensures P.ParseSpan(text) == Limited(lo, hi, |left|)
  {
    CutAtDash(left, right);
    SpanOfRead(left, right, lo, used, hi);
  }

  // Two numbers with a dash are accepted if and only if they are in the limits; the width
  // is that of the text before the dash, whatever follows the number there.
  lemma TwoNumbers(a: string, junk: string, b: string, left: string, text: string, lo: nat, hi: nat)
    requires AllDigits(a) && a != "" && AllDigits(b) && b != "" && StopsDigits(junk) && '-' !in junk
    requires left == a + junk && text == left + "-" + b
    requires lo == Min(Value(a), ULONG_MAX) && hi == Min(Value(b), ULONG_MAX)
    ensures P.ParseSpan(text) == Limited(lo, hi, |left|)
  {
    NoDash(a, '-');
    StrtoulOfDigits(a, junk);
    StrtoulOfDigits(b, "");
    assert b + "" == b && IsDigit(b[0]);
    SpanOfText(left, b, text, lo, |a|, hi);
  }

  // One number is a range of one, and so is one with a dash and nothing after it.
  lemma OneNumber(a: string)
    requires AllDigits(a) && a != ""
    ensures var n := Min(Value(a), ULONG_MAX);
      P.ParseSpan(a) == P.ParseSpan(a + "-" + "") == Some(P.Span(n, n, |a|))
  {
    CutAtDash(a, "");
    StrtoulOfDigits(a, "");
    assert a + "" == a;
  }

  // Otherwise a number must not be followed by anything, with or without a dash before it.
  lemma MoreThanANumber(a: string, b: string, junk: string)
    requires AllDigits(a) && a != "" && AllDigits(b) && b != "" && junk != "" && !IsDigit(junk[0])
    ensures '-' !in junk ==> P.ParseSpan(b + junk) == None
    ensures P.ParseSpan(a + "-" + (b + junk)) == None
  {
    StrtoulOfDigits(b, junk);
    StrtoulOfDigits(a, "");
    assert a + "" == a;
    CutAtDash(a, b + junk);
    if '-' !in junk {
      CutAtDash(b + junk, "");
    }
  }

  // And there has to be a number first.
  lemma NoNumber(rest: string, b: string)
    requires StopsDigits(rest) && '-' !in rest && (rest != "" ==> !P.IsSpace(rest[0]) && rest[0] != '+')
    ensures P.ParseSpan(rest) == None && P.ParseSpan(rest + "-" + b) == None
  {
    assert rest != "" ==> rest[0] in rest;
    StrtoulOfNothing(rest);
    CutAtDash(rest, b);
  }

  // ----- the ranges between two brackets --------------------------------------------------------

  // A list of ranges is accepted if and only if there are not too many and each is accepted.
  lemma {:induction false} ItemsAreAccepted(items: seq<string>, room: nat)
    ensures P.ParseItems(items, room).Some? <==>
      |items| <= room && forall k | 0 <= k < |items| :: P.ParseSpan(items[k]).Some?
    ensures P.ParseItems(items, room).Some? ==>
      && |P.ParseItems(items, room).value| == |items|
      && forall k | 0 <= k < |items| :: P.ParseSpan(items[k]) == Some(P.ParseItems(items, room).value[k])
    decreases |items|
  {
    if items != [] && room > 0 {
      var item, rest, room' := items[0], items[1..], room - 1;
      P.ItemsStep(items, room, item, rest, room');
      ItemsAreAccepted(rest, room');
      assert forall k | 0 < k < |items| :: items[k] == rest[k - 1];
      assert (forall k | 0 <= k < |items| :: P.ParseSpan(items[k]).Some?) ==>
        forall k | 0 <= k < |rest| :: P.ParseSpan(rest[k]).Some? by {
        assert forall k | 0 <= k < |rest| :: rest[k] == items[k + 1];
      }
    }
  }

  // And so is the text between two brackets, whatever stands before and behind them.
  lemma BracketsAreAccepted(prefix: string, list: string, suffix: string)
    ensures P.BracketNames(prefix, list, suffix).Rejected? <==>
      |P.Items(list)| > 10240 || exists k :: 0 <= k < |P.Items(list)| && P.ParseSpan(P.Items(list)[k]).None?
  {
    ItemsAreAccepted(P.Items(list), P.MAX_RANGES);
  }

  // ----- the names with a suffix -------------------------------------------------------------------

  function Each(names: seq<string>, suffix: string): (s: seq<string>)
    ensures |s| == |names| && forall k | 0 <= k < |s| :: s[k] == names[k] + suffix
  {
    seq(|names|, k requires 0 <= k < |names| => names[k] + suffix)
  }

  lemma SpanWithSuffix(prefix: string, suffix: string, span: P.Span)
    requires span.lo <= span.hi
    ensures P.SpanNames(prefix, suffix, span) == Each(P.SpanNames(prefix, "", span), suffix)
  {
    var names := P.SpanNames(prefix, "", span);
    forall k | 0 <= k < |names| ensures P.SpanNames(prefix, suffix, span)[k] == names[k] + suffix {
      var name := prefix + Pad(span.lo + k, span.width);
      assert name + "" == name;
    }
  }

  lemma EachOfSum(s: seq<string>, t: seq<string>, suffix: string)
    ensures Each(s + t, suffix) == Each(s, suffix) + Each(t, suffix)
  {
  }

  lemma {:induction false} SpansWithSuffix(prefix: string, suffix: string, spans: seq<P.Span>)
    requires P.Bounded(spans)
    ensures P.AllSpanNames(prefix, suffix, spans) == Each(P.AllSpanNames(prefix, "", spans), suffix)
    decreases |spans|
  {
    if spans != [] {
      SpanWithSuffix(prefix, suffix, spans[0]);
      SpansWithSuffix(prefix, suffix, spans[1..]);
      EachOfSum(P.SpanNames(prefix, "", spans[0]), P.AllSpanNames(prefix, "", spans[1..]), suffix);
    }
  }

  lemma BracketsWithSuffix(prefix: string, list: string, suffix: string, names: seq<string>)
    requires P.BracketNames(prefix, list, "") == P.Pushed(names)
    ensures P.BracketNames(prefix, list, suffix) == P.Pushed(Each(names, suffix))
  {
    var spans := P.ParseItems(P.Items(list), P.MAX_RANGES).value;
    SpansWithSuffix(prefix, suffix, spans);
  }

  // A printed group in brackets, with a suffix after them and whatever else after a comma,
  // stands for each of the names of the group with that suffix.
  lemma SuffixIsAppended(group: seq<Range>, suffix: string, rest: string, more: seq<string>)
    requires IsGroup(group) && AllReadable(group) && |group| <= P.MAX_RANGES && BracketNeeded(group)
    requires Clean(suffix) && Ends(rest) && P.ParsedNames(rest) == P.Pushed(more)
    ensures AllSound(group)
    ensures P.ParsedNames(GroupText(group) + suffix + rest) == P.Pushed(Each(Expand(group), suffix) + more)
  {
    var prefix, list := group[0].prefix, WithCommas(NumStrs(group));
    GroupIsNumbered(group);
    NoComma(group, prefix);
    WithCommasIsSafe(NumStrs(group), ']');
    WithCommasIsSafe(NumStrs(group), '[');
    BracketsAreRead(group, prefix);
    BracketText(group);
    TokenWithSuffix(prefix, list, suffix, Expand(group), rest, more);
  }

  // So does any other list between brackets.
  lemma TokenWithSuffix(prefix: string, list: string, suffix: string, names: seq<string>, rest: string,
      more: seq<string>)
    requires Clean(prefix) && Unbracketed(list) && Clean(suffix) && Ends(rest)
    requires P.BracketNames(prefix, list, "") == P.Pushed(names) && P.ParsedNames(rest) == P.Pushed(more)
    ensures P.ParsedNames(prefix + "[" + list + "]" + suffix + rest) == P.Pushed(Each(names, suffix) + more)
  {
    var tok := prefix + "[" + list + "]" + suffix;
    WordOfClean(suffix, rest);
    assert tok + rest == prefix + "[" + list + "]" + (suffix + rest);
    BracketsAreToken(prefix, list, suffix + rest);
    SplitOfBrackets(prefix, list, suffix);
    BracketsWithSuffix(prefix, list, suffix, names);
    assert tok[0] == if prefix == "" then '[' else prefix[0];
    TokenThenRest(tok, rest, Each(names, suffix), more);
  }

  // No separator is in the word, and what follows is the end of the text or one.
  predicate WordEnds(word: string, rest: string) {
    (forall k | 0 <= k < |word| :: !P.IsSep(word[k])) && (rest == "" || P.IsSep(rest[0]))
  }

  lemma {:induction false} WordLengthIs(word: string, rest: string)
    requires WordEnds(word, rest)
    ensures P.WordLength(word + rest) == |word|
    decreases |word|
  {
    if word == "" {
      assert word + rest == rest;
    } else {
      assert (word + rest)[1..] == word[1..] + rest;
      WordLengthIs(word[1..], rest);
    }
  }

  // A word that has opened a bracket and not closed one goes on, separators included, to
  // the closing bracket and the word behind it, if no other bracket is opened before.
  lemma OpenWordGoesOn(word: string, inner: string, rest: string)
    requires '[' in word && ']' !in word && Unbracketed(inner) && WordEnds(word, inner + "]" + rest)
    ensures P.TokenLength(word + inner + "]" + rest) == |word| + |inner| + 1 + P.WordLength(rest)
  {
    var s := word + (inner + "]" + rest);
    WordLengthIs(word, inner + "]" + rest);
    assert s == word + (inner + [']'] + rest) && word + inner + "]" + rest == s;
    PastOpen(word, inner, rest, s, |word|);
  }

  // Any other word is a token: no bracket, one that is closed, one that is never closed, or
  // another one (behind `before`) that is opened before one is closed.
  lemma OtherWordStands(word: string, rest: string, before: string, behind: string)
    requires WordEnds(word, rest)
    requires '[' !in word || ']' in word || ']' !in rest || (rest == before + "[" + behind && ']' !in before)
    ensures P.TokenLength(word + rest) == |word|
  {
    var s := word + rest;
    WordLengthIs(word, rest);
    assert s[..|word|] == word && s[|word|..] == rest;
    if '[' in word && ']' !in word {
      NothingClosed(rest, before, behind);
    }
    assert P.PastBrackets(s, |word|) == None;
  }

  lemma NothingClosed(rest: string, before: string, behind: string)
    requires ']' !in rest || (rest == before + "[" + behind && ']' !in before)
    ensures var q := P.IndexOf(rest, ']'); q == |rest| || '[' in rest[..q]
  {
    var q := P.IndexOf(rest, ']');
    if ']' !in rest {
      P.IndexOfFirst(rest, ']', "");
    } else if q < |rest| {
      assert rest[|before|] == '[';
      assert forall k | 0 <= k < |before| :: rest[k] == before[k] && before[k] in before;
      assert q > |before|;
      assert rest[..q][|before|] == '[';
    }
  }

  // A token with a bracket that is never closed is a name, bracket and all.
  lemma OpenIsPlain(prefix: string, rest: string)
    requires '[' !in prefix && ']' !in rest
    ensures P.SplitToken(prefix + "[" + rest) == P.Token.Plain(prefix + "[" + rest)
  {
    var tok := prefix + ['['] + rest;
    P.IndexOfFirst(prefix, '[', rest);
    P.IndexOfFirst(rest, ']', "");
    assert tok == prefix + "[" + rest && tok[|prefix| + 1..] == rest;
  }

  // ----- words ---------------------------------------------------------------------------------------

  // Commas, spaces and tabs between the names do not matter, however many they are.
  lemma SeparatorIsSkipped(sep: char, rest: string)
    requires sep == ',' || sep == ' ' || sep == '\t'
    ensures P.ParsedNames([sep] + rest) == P.ParsedNames(rest)
  {
    assert ([sep] + rest)[1..] == rest;
    assert P.SkipSeps([sep] + rest) == P.SkipSeps(rest);
    P.SkipTwice(rest);
    P.SkipTwice([sep] + rest);
  }

  predicate Wordly(word: string) {
    word != "" && forall c | c in word :: c !in "[], \t"
  }

  lemma WordlyIsClean(word: string)
    requires Wordly(word)
    ensures Clean(word) && Starts(word) && '[' !in word
  {
    assert forall k | 0 <= k < |word| :: word[k] in word;
    assert '[' in "[], \t" && ']' in "[], \t" && ',' in "[], \t" && ' ' in "[], \t" && '\t' in "[], \t";
  }

  // A word is a name, and one of them ends it.
  lemma WordIsName(word: string, sep: char, rest: string)
    requires Wordly(word) && |word| < 1024 && (sep == ',' || sep == ' ' || sep == '\t')
    ensures P.ParsedNames(word) == P.Pushed([word])
    ensures P.ParsedNames(word + [sep] + rest) == P.Append([word], P.ParsedNames(rest))
  {
    WordlyIsClean(word);
    SplitOfPlain(word);
    SeparatorIsSkipped(sep, rest);
    WordAlone(word);
    WordThenRest(word, [sep] + rest);
    Associative(word, [sep], rest);
  }

  lemma WordAlone(word: string)
    requires Clean(word) && Starts(word) && P.TokenNames(word) == P.Pushed([word])
    ensures P.ParsedNames(word) == P.Pushed([word])
  {
    WordThenRest(word, "");
    assert word + "" == word && [word] + [] == [word];
  }

  lemma WordThenRest(word: string, rest: string)
    requires Clean(word) && Starts(word) && P.TokenNames(word) == P.Pushed([word])
    requires rest == "" || P.IsSep(rest[0])
    ensures P.ParsedNames(word + rest) == P.Append([word], P.ParsedNames(rest))
  {
    var s := word + rest;
    WordOfClean(word, rest);
    OpensNone(word, rest);
    WordIsToken(s, |word|);
    assert s[..|word|] == word && s[|word|..] == rest && P.SkipSeps(s) == s;
    P.SkipTwice(rest);
    P.NamesStep(s, |word|, [word], P.SkipSeps(rest));
  }
}
