// Which ranges hostlist_ranged_string writes between one pair of brackets.

module HostTokens {
  import opened Seqs
  import opened HostNames
  import opened HostRange
  import opened HostSpec
  import opened HostPrint

  // ----- the longest run -----------------------------------------------------------------

  // Both have numbers, after the same prefix.
  predicate Together(a: Range, b: Range) {
    a.prefix == b.prefix && !a.single && !b.single
  }

  lemma WithinIsTogether(a: Range, b: Range)
    ensures WithinRange(a, b) <==> Together(a, b)
  {
    StrCmpIsEqual(a.prefix, b.prefix);
  }

  // What is written first is the longest run of ranges from the first on that have its
  // prefix and, if there is more than one of them, numbers.
  lemma {:induction false} GroupIsLongestRun(hr: seq<Range>, n: nat)
    requires hr != [] && n == GroupSize(hr)
    ensures 0 < n <= |hr|
    ensures forall k | 0 <= k < n :: hr[k].prefix == hr[0].prefix && (hr[k].single ==> n == 1)
    ensures n < |hr| ==> hr[n].prefix != hr[0].prefix || hr[n].single || hr[0].single
    decreases |hr|
  {
    if |hr| > 1 {
      WithinIsTogether(hr[1], hr[0]);
      if Together(hr[1], hr[0]) {
        var rest := hr[1..];
        GroupIsLongestRun(rest, n - 1);
        forall k | 0 <= k < n ensures hr[k].prefix == hr[0].prefix && !hr[k].single {
          assert k > 0 ==> hr[k] == rest[k - 1];
        }
      }
    }
  }

  // So within it neighbours belong together, and at its end they do not.
  lemma GroupIsTogether(hr: seq<Range>, n: nat)
    requires hr != [] && n == GroupSize(hr)
    ensures forall k | 0 < k < n :: Together(hr[k - 1], hr[k])
    ensures n < |hr| ==> !Together(hr[n - 1], hr[n])
  {
    GroupIsLongestRun(hr, n);
  }

  // ----- the tokens of a text ----------------------------------------------------------------

  // A range as it is written between brackets.
  function Piece(r: Range): string {
    if r.lo == r.hi then Pad(r.lo, r.width) else Pad(r.lo, r.width) + "-" + Pad(r.hi, r.width)
  }

  function Pieces(group: seq<Range>): seq<string> {
    seq(|group|, k requires 0 <= k < |group| => Piece(group[k]))
  }

  // One host is written as its name, more in brackets.
  function Token(group: seq<Range>): string
    requires group != [] && Sound(group[0])
  {
    if |group| == 1 && |Names(group[0])| == 1 then Names(group[0])[0]
    else group[0].prefix + "[" + WithCommas(Pieces(group)) + "]"
  }

  // The ranges between the cuts each go together, and those next to a cut do not.
  ghost predicate CutsApart(hr: seq<Range>, cuts: seq<nat>) {
    && cuts != [] && cuts[0] == 0 && cuts[|cuts| - 1] == |hr|
    && (forall m | 0 < m < |cuts| :: cuts[m - 1] < cuts[m] <= |hr|)
    && (forall k | 0 < k < |hr| :: k in cuts <==> !Together(hr[k - 1], hr[k]))
  }

  ghost predicate Written(hr: seq<Range>, cuts: seq<nat>, tokens: seq<string>)
    requires AllSound(hr) && CutsApart(hr, cuts)
  {
    && |tokens| == |cuts| - 1
    && forall m | 0 <= m < |tokens| :: tokens[m] == TokenBetween(hr, cuts[m], cuts[m + 1])
  }

  function TokenBetween(hr: seq<Range>, a: nat, b: nat): string
    requires AllSound(hr)
  {
    if a < b <= |hr| then Token(hr[a..b]) else ""
  }

  lemma PiecesOfNumbers(group: seq<Range>)
    requires forall k | 0 <= k < |group| :: Sound(group[k]) && !group[k].single
    ensures NumStrs(group) == Pieces(group)
  {
    forall k | 0 <= k < |group| ensures NumStrs(group)[k] == Pieces(group)[k] {
      PieceOfNumbers(group[k]);
    }
  }

  lemma BracketsAreToken(group: seq<Range>)
    requires group != [] && Sound(group[0]) && BracketNeeded(group) && NumStrs(group) == Pieces(group)
    ensures GroupText(group) == Token(group)
  {
    Associative(group[0].prefix + "[", WithCommas(Pieces(group)), "]");
    Associative(group[0].prefix, "[", WithCommas(Pieces(group)) + "]");
    Associative("[", WithCommas(Pieces(group)), "]");
  }

  lemma NameIsToken(group: seq<Range>)
    requires group != [] && Sound(group[0]) && !BracketNeeded(group)
    ensures GroupText(group) == Token(group)
  {
    OneName(group[0]);
  }

  lemma GroupIsToken(hr: seq<Range>, n: nat)
    requires AllSound(hr) && hr != [] && n == GroupSize(hr)
    ensures GroupText(hr[..n]) == Token(hr[..n])
  {
    var group := hr[..n];
    GroupIsLongestRun(hr, n);
    assert group[0] == hr[0];
    if BracketNeeded(group) {
      forall k | 0 <= k < n ensures !group[k].single {
        assert group[k] == hr[k];
      }
      PiecesOfNumbers(group);
      BracketsAreToken(group);
    } else {
      NameIsToken(group);
    }
  }

  lemma PieceOfNumbers(r: Range)
    requires Sound(r) && !r.single
    ensures NumStr(r) == Piece(r)
  {
    assert Pad(r.lo, r.width) + "" == Pad(r.lo, r.width);
    Associative(Pad(r.lo, r.width), "-", Pad(r.hi, r.width));
  }

  lemma OneName(r: Range)
    requires Sound(r) && Count(r) == 1
    ensures Names(r)[0] == r.prefix + NumStr(r)
  {
    assert r.prefix + "" == r.prefix;
    if !r.single {
      PieceOfNumbers(r);
    }
  }

  // The text of a list, when its first token is not empty.
  function Text(hr: seq<Range>): string
    requires AllSound(hr)
    decreases |hr|
  {
    if hr == [] then ""
    else
      var n := GroupSize(hr);
      GroupText(hr[..n]) + if n < |hr| then "," + Text(hr[n..]) else ""
  }

  // There is no comma after nothing: only a host with an empty name, at the front, leaves none.
  predicate StartsEmpty(hr: seq<Range>) {
    hr != [] && hr[0].single && hr[0].prefix == ""
  }

  lemma EmptyToken(hr: seq<Range>, n: nat)
    requires AllSound(hr) && hr != [] && n == GroupSize(hr)
    ensures GroupText(hr[..n]) == "" <==> StartsEmpty(hr)
    ensures StartsEmpty(hr) ==> n == 1
  {
    GroupIsLongestRun(hr, n);
    if !BracketNeeded(hr[..n]) && !hr[0].single {
      assert |NumStr(hr[0])| > 0;
    }
  }

  lemma {:induction false} TextAfterIsText(out: string, hr: seq<Range>)
    requires AllSound(hr) && (out == "" ==> !StartsEmpty(hr))
    ensures TextAfter(out, hr) == out + Text(hr)
    decreases |hr|
  {
    if hr == [] {
      assert out + "" == out;
    } else {
      var n, rest := GroupSize(hr), hr[GroupSize(hr)..];
      var text := GroupText(hr[..n]);
      EmptyToken(hr, n);
      if n < |hr| {
        TextStep(out, hr, n, out + text + ",", rest);
        TextAfterIsText(out + text + ",", rest);
        CommaMoves(out, text, Text(rest));
      } else {
        assert rest == [] && text + "" == text;
        TextStep(out, hr, n, out + text, rest);
      }
    }
  }

  lemma CommaMoves(out: string, text: string, rest: string)
    ensures out + text + "," + rest == out + (text + ("," + rest))
  {
  }

  lemma EmptyLeavesNothing(hr: seq<Range>)
    requires AllSound(hr) && StartsEmpty(hr)
    ensures TextAfter("", hr) == TextAfter("", hr[1..])
  {
    EmptyToken(hr, GroupSize(hr));
    TextStep("", hr, 1, "", hr[1..]);
  }

  // ----- putting the tokens of the rest behind the first -------------------------------------------

  function Shifted(cuts: seq<nat>, n: nat): (s: seq<nat>)
    ensures |s| == |cuts| && forall m | 0 <= m < |s| :: s[m] == cuts[m] + n
  {
    seq(|cuts|, m requires 0 <= m < |cuts| => cuts[m] + n)
  }

  lemma ShiftedHas(cuts: seq<nat>, n: nat, k: nat)
    requires n <= k
    ensures k in Shifted(cuts, n) <==> k - n in cuts
  {
    if k - n in cuts {
      var m :| 0 <= m < |cuts| && cuts[m] == k - n;
      assert Shifted(cuts, n)[m] == k;
    }
  }

  lemma CutsClimb(cuts: seq<nat>, n: nat, top: nat, all: seq<nat>)
    requires 0 < n <= top && cuts != [] && cuts[0] == 0 && cuts[|cuts| - 1] == top - n
    requires forall m | 0 < m < |cuts| :: cuts[m - 1] < cuts[m] <= top - n
    requires all == [0] + Shifted(cuts, n)
    ensures all[0] == 0 && all[1] == n && all[|all| - 1] == top
    ensures forall m | 0 < m < |all| :: all[m - 1] < all[m] <= top
  {
    forall m | 0 < m < |all| ensures all[m - 1] < all[m] <= top {
      assert m > 1 ==> cuts[m - 2] < cuts[m - 1] <= top - n;
    }
  }

  // Where the list is cut behind its first group it is cut where the rest is.
  lemma CutOfRest(hr: seq<Range>, n: nat, rest: seq<Range>, cuts: seq<nat>, k: nat)
    requires hr != [] && n == GroupSize(hr) && rest == hr[n..] && CutsApart(rest, cuts) && 0 < k < |hr|
    ensures k in [0] + Shifted(cuts, n) <==> !Together(hr[k - 1], hr[k])
  {
    GroupIsTogether(hr, n);
    if k < n {
      assert forall m | 0 <= m < |cuts| :: Shifted(cuts, n)[m] >= n;
    } else {
      ShiftedHas(cuts, n, k);
      if k > n {
        assert rest[k - n - 1] == hr[k - 1] && rest[k - n] == hr[k];
      } else {
        assert cuts[0] in cuts;
      }
    }
  }

  lemma CutsOfRest(hr: seq<Range>, n: nat, rest: seq<Range>, cuts: seq<nat>)
    requires hr != [] && n == GroupSize(hr) && rest == hr[n..] && CutsApart(rest, cuts)
    ensures CutsApart(hr, [0] + Shifted(cuts, n))
  {
    var all := [0] + Shifted(cuts, n);
    CutsClimb(cuts, n, |hr|, all);
    forall k | 0 < k < |hr| ensures k in all <==> !Together(hr[k - 1], hr[k]) {
      CutOfRest(hr, n, rest, cuts, k);
    }
  }

  lemma TokensOfRest(hr: seq<Range>, n: nat, rest: seq<Range>, cuts: seq<nat>, tokens: seq<string>)
    requires AllSound(hr) && hr != [] && n == GroupSize(hr) && rest == hr[n..] && AllSound(rest)
    requires CutsApart(rest, cuts) && Written(rest, cuts, tokens)
    ensures CutsApart(hr, [0] + Shifted(cuts, n))
    ensures Written(hr, [0] + Shifted(cuts, n), [Token(hr[..n])] + tokens)
  {
    CutsOfRest(hr, n, rest, cuts);
    GroupIsToken(hr, n);
    var later := Shifted(cuts, n);
    ShiftedTokens(hr, n, rest, cuts, tokens, later);
    assert later[0] == n;
    FirstToken(hr, n, later, tokens);
  }

  lemma ShiftedTokens(hr: seq<Range>, n: nat, rest: seq<Range>, cuts: seq<nat>, tokens: seq<string>, later: seq<nat>)
    requires AllSound(hr) && n <= |hr| && rest == hr[n..] && AllSound(rest)
    requires CutsApart(rest, cuts) && Written(rest, cuts, tokens)
    requires |later| == |cuts| && forall m | 0 <= m < |later| :: later[m] == cuts[m] + n
    ensures |tokens| == |later| - 1
    ensures forall m | 0 <= m < |tokens| :: tokens[m] == TokenBetween(hr, later[m], later[m + 1])
  {
    forall m | 0 <= m < |tokens| ensures tokens[m] == TokenBetween(hr, later[m], later[m + 1]) {
      var a, b := cuts[m], cuts[m + 1];
      assert tokens[m] == TokenBetween(rest, a, b);
      TokenOfRest(hr, n, rest, a, b);
      assert later[m] == a + n && later[m + 1] == b + n;
    }
  }

  lemma FirstToken(hr: seq<Range>, n: nat, cuts: seq<nat>, tokens: seq<string>)
    requires AllSound(hr) && 0 < n <= |hr| && cuts != [] && cuts[0] == n && |tokens| == |cuts| - 1
    requires forall m | 0 <= m < |tokens| :: tokens[m] == TokenBetween(hr, cuts[m], cuts[m + 1])
    requires CutsApart(hr, [0] + cuts)
    ensures Written(hr, [0] + cuts, [Token(hr[..n])] + tokens)
  {
    var all, more := [0] + cuts, [Token(hr[..n])] + tokens;
    forall m | 0 <= m < |more| ensures more[m] == TokenBetween(hr, all[m], all[m + 1]) {
      if m == 0 {
        assert hr[0..n] == hr[..n];
      } else {
        assert more[m] == tokens[m - 1] && all[m] == cuts[m - 1] && all[m + 1] == cuts[m];
      }
    }
  }

  lemma TokenOfRest(hr: seq<Range>, n: nat, rest: seq<Range>, a: nat, b: nat)
    requires AllSound(hr) && n <= |hr| && rest == hr[n..] && AllSound(rest) && a < b <= |rest|
    ensures TokenBetween(rest, a, b) == TokenBetween(hr, a + n, b + n)
  {
    assert rest[a..b] == hr[a + n..b + n];
  }

  lemma WithCommasCons(first: string, rest: seq<string>)
    requires rest != []
    ensures WithCommas([first] + rest) == first + ("," + WithCommas(rest))
  {
    assert ([first] + rest)[1..] == rest;
    Associative(first, ",", WithCommas(rest));
  }

  lemma {:induction false} TextIsTokens(hr: seq<Range>) returns (cuts: seq<nat>, tokens: seq<string>)
    requires AllSound(hr)
    ensures CutsApart(hr, cuts) && Written(hr, cuts, tokens) && Text(hr) == WithCommas(tokens)
    decreases |hr|
  {
    if hr == [] {
      cuts, tokens := [0], [];
    } else {
      var n, rest := GroupSize(hr), hr[GroupSize(hr)..];
      var more, after := TextIsTokens(rest);
      TokensOfRest(hr, n, rest, more, after);
      GroupIsToken(hr, n);
      cuts, tokens := [0] + Shifted(more, n), [Token(hr[..n])] + after;
      if n < |hr| {
        WithCommasCons(Token(hr[..n]), after);
      } else {
        assert after == [] && tokens == [Token(hr[..n])];
        assert Token(hr[..n]) + "" == Token(hr[..n]);
      }
    }
  }

  // What hostlist_ranged_string writes: tokens with commas between them, one for each run
  // of ranges that go together. So two neighbours share brackets exactly if they have
  // numbers after the same prefix.
  lemma PrintedIsTokens(hr: seq<Range>) returns (cuts: seq<nat>, tokens: seq<string>)
    requires AllSound(hr) && !StartsEmpty(hr)
    ensures CutsApart(hr, cuts) && Written(hr, cuts, tokens) && TextAfter("", hr) == WithCommas(tokens)
  {
    cuts, tokens := TextIsTokens(hr);
    TextAfterIsText("", hr);
    assert "" + Text(hr) == Text(hr);
  }

  // A range of one number shares the brackets of its neighbour.
  lemma OneNumberIsTogether()
    ensures var hr := [Range("f", 1, 3, 1, false), Range("f", 5, 5, 1, false)];
      AllSound(hr) && TextAfter("", hr) == "f[1-3,5]"
  {
    var hr := [Range("f", 1, 3, 1, false), Range("f", 5, 5, 1, false)];
    WithinIsTogether(hr[1], hr[0]);
    assert hr[1..] == [hr[1]] && GroupSize(hr) == 2 && hr[..2] == hr && hr[2..] == [];
    OneToThreeAndFive(hr);
    TextStep("", hr, 2, "f[1-3,5]", []);
  }

  lemma OneToThreeAndFive(hr: seq<Range>)
    requires hr == [Range("f", 1, 3, 1, false), Range("f", 5, 5, 1, false)]
    ensures GroupText(hr) == "f[1-3,5]"
  {
    OneDigit(1, "1");
    OneDigit(3, "3");
    OneDigit(5, "5");
    assert NumStr(hr[0]) == "1" + ("-" + "3") == "1-3";
    assert NumStr(hr[1]) == "5" + "" == "5";
    assert NumStrs(hr) == ["1-3", "5"];
    assert ["1-3", "5"][1..] == ["5"];
    assert WithCommas(["1-3", "5"]) == "1-3" + "," + "5";
  }

  lemma OneDigit(n: nat, s: string)
    requires n < 10 && s == [DigitChar(n)]
    ensures Pad(n, 1) == s
  {
    assert Zeros(0) + s == s;
  }
}
