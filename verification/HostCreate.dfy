// Making a host list from a text with brackets.

module HostCreate {
  import opened Seqs
  import opened HostNames
  import opened HostRange
  import opened HostList
  import P = HostParse

  // ----- _hostlist_create_bracketed ------------------------------------------------------

  lemma NextSpan(prefix: string, suffix: string, spans: seq<P.Span>, k: nat)
    requires P.Bounded(spans) && k < |spans|
    ensures P.AllSpanNames(prefix, suffix, spans[..k + 1]) ==
      P.AllSpanNames(prefix, suffix, spans[..k]) + P.SpanNames(prefix, suffix, spans[k])
  {
    if k == 0 {
      assert spans[..1][1..] == [] && spans[..0] == [];
    } else {
      NextSpan(prefix, suffix, spans[1..], k - 1);
      assert spans[..k + 1][1..] == spans[1..][..k] && spans[..k][1..] == spans[1..][..k - 1];
    }
  }

  lemma SpanIsRange(r: Range, span: P.Span)
    requires span.lo <= span.hi < ULONG_MAX && r == Range(r.prefix, span.lo, span.hi, span.width, false)
    ensures Names(r) == P.SpanNames(r.prefix, "", span)
  {
    assert forall s: string :: s + "" == s;
  }

  method PushSpan(hl: HostList, prefix: string, span: P.Span)
    requires hl.Valid() && span.lo <= span.hi < ULONG_MAX
    modifies hl
    ensures hl.Valid() && hl.Contents() == old(hl.Contents()) + P.SpanNames(prefix, "", span)
  {
    var r := Range(prefix, span.lo, span.hi, span.width, false);
    SpanIsRange(r, span);
    var _ := hl.PushRange(r);
  }

  method PushRangeList(hl: HostList, prefix: string, spans: seq<P.Span>)
    requires hl.Valid() && P.Bounded(spans)
    modifies hl
    ensures hl.Valid() && hl.Contents() == old(hl.Contents()) + P.AllSpanNames(prefix, "", spans)
  {
    assert spans[..0] == [];
    for k := 0 to |spans|
      invariant hl.Valid() && hl.Contents() == old(hl.Contents()) + P.AllSpanNames(prefix, "", spans[..k])
    {
      NextSpan(prefix, "", spans, k);
      PushSpan(hl, prefix, spans[k]);
      Associative(old(hl.Contents()), P.AllSpanNames(prefix, "", spans[..k]), P.SpanNames(prefix, "", spans[k]));
    }
    assert spans[..|spans|] == spans;
  }

  method PushRangeListWithSuffix(hl: HostList, prefix: string, suffix: string, spans: seq<P.Span>)
    requires hl.Valid() && P.Bounded(spans)
    modifies hl
    ensures hl.Valid() && hl.Contents() == old(hl.Contents()) + P.AllSpanNames(prefix, suffix, spans)
  {
    assert spans[..0] == [];
    for k := 0 to |spans|
      invariant hl.Valid() && hl.Contents() == old(hl.Contents()) + P.AllSpanNames(prefix, suffix, spans[..k])
    {
      NextSpan(prefix, suffix, spans, k);
      PushSuffixed(hl, prefix, suffix, spans[k]);
      Associative(old(hl.Contents()), P.AllSpanNames(prefix, suffix, spans[..k]),
        P.SpanNames(prefix, suffix, spans[k]));
    }
    assert spans[..|spans|] == spans;
  }

  method PushSuffixed(hl: HostList, prefix: string, suffix: string, span: P.Span)
    requires hl.Valid() && span.lo <= span.hi < ULONG_MAX
    modifies hl
    ensures hl.Valid() && hl.Contents() == old(hl.Contents()) + P.SpanNames(prefix, suffix, span)
  {
    ghost var names := P.SpanNames(prefix, suffix, span);
    var j := span.lo;
    while j <= span.hi
      invariant span.lo <= j <= span.hi + 1
      invariant hl.Valid() && hl.Contents() == old(hl.Contents()) + names[..j - span.lo]
    {
      var host := prefix + Pad(j, span.width) + suffix;
      assert names[..j + 1 - span.lo] == names[..j - span.lo] + [host];
      var _ := hl.PushRange(Range(host, 0, 0, 0, true));
      j := j + 1;
    }
  }

  // The text between brackets, with what comes before and after them.
  method PushBrackets(hl: HostList, prefix: string, list: string, suffix: string) returns (ok: bool)
    requires hl.Valid() && !P.BracketNames(prefix, list, suffix).Unmodelled?
    modifies hl
    ensures ok == P.BracketNames(prefix, list, suffix).Pushed?
    ensures ok ==> hl.Valid() && hl.Contents() == old(hl.Contents()) + P.BracketNames(prefix, list, suffix).names
  {
    var spans := P.ParseRangeList(list, P.MAX_RANGES);
    if spans.None? {
      return false;
    }
    if suffix != "" {
      PushRangeListWithSuffix(hl, prefix, suffix, spans.value);
    } else {
      PushRangeList(hl, prefix, spans.value);
    }
    return true;
  }

  method PushToken(hl: HostList, tok: string) returns (ok: bool)
    requires hl.Valid() && !P.Meaning(P.SplitToken(tok)).Unmodelled?
    modifies hl
    ensures ok == P.Meaning(P.SplitToken(tok)).Pushed?
    ensures ok ==> hl.Valid() && hl.Contents() == old(hl.Contents()) + P.Meaning(P.SplitToken(tok)).names
  {
    var token := P.SplitToken(tok);
    match token {
      case Plain(name) =>
        hl.PushHost(name);
        ok := true;
      case Bracketed(prefix, list, suffix) =>
        ok := PushBrackets(hl, prefix, list, suffix);
    }
  }

  method CreateBracketed(hostlist: string) returns (hl: Option<HostList>)
    requires !P.ParsedNames(hostlist).Unmodelled?
    ensures hl.Some? <==> P.ParsedNames(hostlist).Pushed?
    ensures hl.Some? ==> hl.value.Valid() && fresh(hl.value) && hl.value.Contents() == P.ParsedNames(hostlist).names
  {
    var list := new HostList();
    ghost var all := P.ParsedNames(hostlist);
    var tok, str := P.NextTok(hostlist);
    ghost var todo := P.SkipSeps(hostlist);
    P.SkipTwice(hostlist);
    while tok.Some?
      invariant list.Valid() && fresh(list)
      invariant P.Follows(todo, tok, str)
      invariant all == P.Append(list.Contents(), P.ParsedNames(todo))
      decreases |todo|
    {
      ghost var n, before := P.TokenLength(todo), list.Contents();
      if P.TokenNames(tok.value).Pushed? {
        P.NamesStep(todo, n, P.TokenNames(tok.value).names, str);
        P.AppendTwice(before, P.TokenNames(tok.value).names, P.ParsedNames(str));
      } else {
        P.NamesFail(todo, n);
      }
      var ok := PushToken(list, tok.value);
      if !ok {
        return None;
      }
      todo := str;
      P.SkipTwice(str);
      tok, str := P.NextTok(str);
    }
    return Some(list);
  }
}
