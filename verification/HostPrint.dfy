// How hostlist_ranged_string writes a list of hosts, into a buffer that is large enough.

module HostPrint {
  import opened Seqs
  import opened HostNames
  import opened HostRange
  import opened HostSpec

  predicate WithinRange(h1: Range, h2: Range) {
    PrefixCmp(h1, h2) == 0 && !h1.single && !h2.single
  }

  // The numbers of a range: hostrange_numstr.
  function NumStr(r: Range): string {
    if r.single then ""
    else Pad(r.lo, r.width) + if r.lo < r.hi then "-" + Pad(r.hi, r.width) else ""
  }

  function NumStrs(hr: seq<Range>): seq<string> {
    seq(|hr|, k requires 0 <= k < |hr| => NumStr(hr[k]))
  }

  function WithCommas(items: seq<string>): string {
    if items == [] then ""
    else if |items| == 1 then items[0]
    else items[0] + "," + WithCommas(items[1..])
  }

  // The ranges at the start that go between one pair of brackets.
  function GroupSize(hr: seq<Range>): (n: nat)
    requires hr != []
    ensures 1 <= n <= |hr|
  {
    if |hr| > 1 && WithinRange(hr[1], hr[0]) then 1 + GroupSize(hr[1..]) else 1
  }

  predicate BracketNeeded(group: seq<Range>)
    requires group != [] && Sound(group[0])
  {
    Count(group[0]) > 1 || |group| > 1
  }

  function GroupText(group: seq<Range>): string
    requires group != [] && Sound(group[0])
  {
    group[0].prefix + if BracketNeeded(group) then "[" + WithCommas(NumStrs(group)) + "]" else NumStr(group[0])
  }

  // What is written after `out`: there is no comma after nothing.
  function TextAfter(out: string, hr: seq<Range>): string
    requires AllSound(hr)
    decreases |hr|
  {
    if hr == [] then out
    else
      var n := GroupSize(hr);
      var longer := out + GroupText(hr[..n]);
      TextAfter(if longer != "" && n < |hr| then longer + "," else longer, hr[n..])
  }

  // ----- the code -----------------------------------------------------------------------------

  // Items as the loop writes them, each followed by a comma.
  function Listed(items: seq<string>): string {
    if items == [] then "" else Listed(items[..|items| - 1]) + items[|items| - 1] + ","
  }

  lemma ListedAppend(items: seq<string>, item: string)
    ensures Listed(items + [item]) == Listed(items) + item + ","
  {
    assert (items + [item])[..|items|] == items;
  }

  lemma {:induction false} JoinedAppend(items: seq<string>, item: string)
    requires items != []
    ensures WithCommas(items + [item]) == WithCommas(items) + "," + item
  {
    if |items| > 1 {
      assert (items + [item])[1..] == items[1..] + [item];
      JoinedAppend(items[1..], item);
      Associative(items[0] + ",", WithCommas(items[1..]), "," + item);
      Associative(items[0] + "," + WithCommas(items[1..]), ",", item);
      Associative(WithCommas(items[1..]), ",", item);
    } else {
      assert (items + [item])[1..] == [item];
    }
  }

  // The last comma becomes the closing bracket.
  lemma {:induction false} ListedIsJoined(items: seq<string>)
    requires items != []
    ensures Listed(items) == WithCommas(items) + ","
    decreases |items|
  {
    var front, last := items[..|items| - 1], items[|items| - 1];
    assert items == front + [last];
    if front == [] {
      assert Listed(front) == "" && "" + last == last;
    } else {
      ListedIsJoined(front);
      JoinedAppend(front, last);
      assert WithCommas(items) == WithCommas(front) + "," + last;
    }
  }

  lemma GroupIsNeighbours(hr: seq<Range>, i: nat)
    requires hr != [] && 0 < i <= GroupSize(hr)
    ensures forall k | 0 < k < i :: WithinRange(hr[k], hr[k - 1])
    ensures i < GroupSize(hr) <==> i < |hr| && WithinRange(hr[i], hr[i - 1])
    decreases i
  {
    if i == 1 {
    } else {
      GroupIsNeighbours(hr[1..], i - 1);
      forall k | 0 < k < i ensures WithinRange(hr[k], hr[k - 1]) {
        if k > 1 {
          assert hr[1..][k - 1] == hr[k] && hr[1..][k - 2] == hr[k - 1];
        }
      }
      assert i < |hr| ==> hr[1..][i - 1] == hr[i];
      assert hr[1..][i - 2] == hr[i - 1];
    }
  }

  lemma NumStrsAppend(hr: seq<Range>, i: nat)
    requires i < |hr|
    ensures Listed(NumStrs(hr[..i + 1])) == Listed(NumStrs(hr[..i])) + NumStr(hr[i]) + ","
  {
    assert NumStrs(hr[..i + 1]) == NumStrs(hr[..i]) + [NumStr(hr[i])];
    ListedAppend(NumStrs(hr[..i]), NumStr(hr[i]));
  }

  // The loop of _get_bracketed_list: the numbers of the group at the start of `hr`.
  method ListGroup(hr: seq<Range>, bracket: bool) returns (list: string, i: nat)
    requires hr != [] && AllSound(hr)
    ensures i == GroupSize(hr)
    ensures if bracket then list == Listed(NumStrs(hr[..i])) else i == 1 ==> list == NumStr(hr[0])
  {
    list, i := NumStr(hr[0]), 1;
    if bracket {
      list := list + ",";
      NumStrsAppend(hr, 0);
      assert NumStrs(hr[..0]) == [];
    }
    GroupIsNeighbours(hr, 1);
    while i < |hr| && WithinRange(hr[i], hr[i - 1])
      invariant 0 < i <= GroupSize(hr)
      invariant i < GroupSize(hr) <==> i < |hr| && WithinRange(hr[i], hr[i - 1])
      invariant if bracket then list == Listed(NumStrs(hr[..i])) else i == 1 ==> list == NumStr(hr[0])
      decreases |hr| - i
    {
      list := list + NumStr(hr[i]);
      if bracket {
        list := list + ",";
        NumStrsAppend(hr, i);
      }
      i := i + 1;
      GroupIsNeighbours(hr, i);
    }
  }

  // _get_bracketed_list: writes the group of ranges at the start of `hr`.
  method GetBracketedList(buf: string, hr: seq<Range>) returns (buf': string, i: nat)
    requires hr != [] && AllSound(hr)
    ensures i == GroupSize(hr) && buf' == buf + GroupText(hr[..i])
  {
    var bracket := Count(hr[0]) > 1 || (|hr| > 1 && WithinRange(hr[0], hr[1]));
    PrefixCmpIsMutual(hr);
    GroupIsNeighbours(hr, 1);
    var list;
    list, i := ListGroup(hr, bracket);
    if bracket {
      ListedIsJoined(NumStrs(hr[..i]));
      list := "[" + list[..|list| - 1] + "]";
    }
    buf' := buf + (hr[0].prefix + list);
  }

  lemma PrefixCmpIsMutual(hr: seq<Range>)
    ensures |hr| > 1 ==> WithinRange(hr[0], hr[1]) == WithinRange(hr[1], hr[0])
  {
    if |hr| > 1 {
      StrCmpIsEqual(hr[0].prefix, hr[1].prefix);
      StrCmpIsEqual(hr[1].prefix, hr[0].prefix);
    }
  }

  method RangedString(hr: seq<Range>) returns (buf: string)
    requires AllSound(hr)
    ensures buf == TextAfter("", hr)
  {
    buf := "";
    var i := 0;
    assert hr[0..] == hr;
    while i < |hr|
      invariant i <= |hr| && TextAfter(buf, hr[i..]) == TextAfter("", hr)
    {
      var n;
      ghost var was := buf;
      var rest := hr[i..];
      buf, n := GetBracketedList(buf, rest);
      i := i + n;
      if buf != "" && i < |hr| {
        buf := buf + ",";
      }
      TextStep(was, rest, n, buf, hr[i..]);
    }
  }

  lemma TextStep(out: string, hr: seq<Range>, n: nat, more: string, rest: seq<Range>)
    requires AllSound(hr) && hr != [] && n == GroupSize(hr) && rest == hr[n..]
    requires var longer := out + GroupText(hr[..n]);
      more == if longer != "" && n < |hr| then longer + "," else longer
    ensures TextAfter(out, hr) == TextAfter(more, rest)
  {
  }
}
