// What the line scanners of liblsd/cbuf.c find, on the plain byte sequences.

module CbufLines {
  import opened Seqs
  import opened CbufSpec

  function Newlines(s: seq<Byte>): (n: nat)
    ensures n <= |s|
  {
    if s == [] then 0 else (if s[0] == NEWLINE then 1 else 0) + Newlines(s[1..])
  }

  lemma {:induction false} NewlinesAppend(s: seq<Byte>, t: seq<Byte>)
    ensures Newlines(s + t) == Newlines(s) + Newlines(t)
    decreases |s|
  {
    if s == [] {
      assert s + t == t;
    } else {
      assert (s + t)[1..] == s[1..] + t;
      NewlinesAppend(s[1..], t);
    }
  }

  lemma {:induction false} NoNewlines(s: seq<Byte>)
    ensures Newlines(s) == 0 <==> forall k | 0 <= k < |s| :: s[k] != NEWLINE
    decreases |s|
  {
    if s != [] {
      NoNewlines(s[1..]);
      assert forall k | 1 <= k < |s| :: s[k] == s[1..][k - 1];
    }
  }

  // ----- unread data ---------------------------------------------------------

  // The bytes and lines found: with lines > 0, exactly that many newline-terminated
  // lines or nothing; with lines == -1, as many as fit in chars characters.
  ghost predicate UnreadLines(u: seq<Byte>, chars: int, lines: int, m: nat, found: nat) {
    m <= |u| && (m > 0 ==> u[m - 1] == NEWLINE) && found == Newlines(u[..m])
    && (lines == 0 ==> m == 0)
    && (lines > 0 ==> if Newlines(u) >= lines then found == lines else m == 0)
    && (lines < 0 ==>
          var limit := Min(Max(chars, 0), |u|);
          m <= limit && Newlines(u[m..limit]) == 0)
  }

  // The conditions leave no choice.
  lemma UnreadLinesAreUnique(u: seq<Byte>, chars: int, lines: int, m: nat, found: nat, m': nat, found': nat)
    requires UnreadLines(u, chars, lines, m, found) && UnreadLines(u, chars, lines, m', found')
    requires m <= m'
    ensures m == m' && found == found'
  {
    if m < m' {
      assert u[..m'] == u[..m] + u[m..m'];
      NewlinesAppend(u[..m], u[m..m']);
      NoNewlines(u[m..m']);
      assert u[m..m'][m' - m - 1] == NEWLINE;
      if lines < 0 {
        var limit := Min(Max(chars, 0), |u|);
        assert u[m..limit] == u[m..m'] + u[m'..limit];
        NewlinesAppend(u[m..m'], u[m'..limit]);
      }
    }
  }

  // The scanner's l and m after looking at the first n bytes.
  function Ahead(u: seq<Byte>, n: nat): nat
    requires n <= |u|
  {
    if n == 0 then 0 else Ahead(u, n - 1) + if u[n - 1] == NEWLINE then 1 else 0
  }

  function LastEnd(u: seq<Byte>, n: nat): (m: nat)
    requires n <= |u|
    ensures m <= n && (m > 0 ==> u[m - 1] == NEWLINE)
  {
    if n == 0 then 0 else if u[n - 1] == NEWLINE then n else LastEnd(u, n - 1)
  }

  lemma {:induction false} AheadCounts(u: seq<Byte>, n: nat)
    requires n <= |u|
    ensures Ahead(u, n) == Newlines(u[..n])
  {
    if n > 0 {
      AheadCounts(u, n - 1);
      assert u[..n] == u[..n - 1] + [u[n - 1]];
      NewlinesAppend(u[..n - 1], [u[n - 1]]);
    } else {
      assert u[..0] == [];
    }
  }

  lemma {:induction false} LastEndIsLast(u: seq<Byte>, n: nat)
    requires n <= |u|
    ensures Newlines(u[LastEnd(u, n)..n]) == 0 && Newlines(u[..LastEnd(u, n)]) == Ahead(u, n)
  {
    var m := LastEnd(u, n);
    if m < n {
      var k := n - 1;
      LastEndIsLast(u, k);
      assert m <= k && m == LastEnd(u, k);
      assert u[m..n] == u[m..k] + [u[k]];
      NewlinesAppend(u[m..k], [u[k]]);
    } else {
      AheadCounts(u, n);
      assert u[m..n] == [];
    }
  }

  lemma UnreadScanEnds(u: seq<Byte>, chars: int, lines: int, n: nat)
    requires n <= |u| && lines != 0
    requires if lines > 0 then Ahead(u, n) <= lines && (n == |u| || (Ahead(u, n) == lines && u[n - 1] == NEWLINE))
             else chars > 0 && n == Min(chars, |u|)
    ensures if lines > 0 && Ahead(u, n) < lines then UnreadLines(u, chars, lines, 0, 0)
            else UnreadLines(u, chars, lines, LastEnd(u, n), Ahead(u, n))
  {
    var m := LastEnd(u, n);
    LastEndIsLast(u, n);
    assert u == u[..m] + u[m..n] + u[n..];
    NewlinesAppend(u[..m] + u[m..n], u[n..]);
    NewlinesAppend(u[..m], u[m..n]);
    assert u[..0] == [];
  }

  // ----- replay data ---------------------------------------------------------

  // A line starts after a newline, or with the first byte ever written.
  ghost predicate LineStart(r: seq<Byte>, p: nat, gotWrap: bool)
    requires p <= |r|
  {
    if p == 0 then !gotWrap else r[p - 1] == NEWLINE
  }

  // The last line counts whether or not a newline ends it.
  function LinesOf(s: seq<Byte>): nat {
    if s == [] then 0 else Newlines(s) + Unended(s)
  }

  function Unended(s: seq<Byte>): nat {
    if s != [] && s[|s| - 1] != NEWLINE then 1 else 0
  }

  // The bytes and lines found: with lines > 0, the suffix that starts a line and
  // has exactly that many lines, or nothing; with lines == -1, the longest suffix
  // that starts a line and, with the newline it may lack, fits in chars characters.
  ghost predicate ReplayLines(r: seq<Byte>, gotWrap: bool, chars: int, lines: int, m: nat, found: nat) {
    m <= |r| && (m > 0 ==> LineStart(r, |r| - m, gotWrap)) && found == LinesOf(r[|r| - m..])
    && (lines == 0 ==> m == 0)
    && (lines > 0 ==>
          if exists p {:trigger LineStart(r, p, gotWrap)} | 0 <= p < |r| ::
               LineStart(r, p, gotWrap) && LinesOf(r[p..]) == lines
          then found == lines else m == 0)
    && (lines < 0 ==>
          && (m > 0 ==> m + Unended(r) <= chars)
          && forall p {:trigger LineStart(r, p, gotWrap)} |
               0 <= p < |r| && LineStart(r, p, gotWrap) && |r| - p + Unended(r) <= chars :: |r| - p <= m)
  }

  // What cbuf_replay_line shows of the m bytes found in a destination of len
  // characters: the end of them, with the newline they may lack.
  function Shown(r: seq<Byte>, m: nat, len: int): seq<Byte>
    requires m <= |r|
  {
    if m == 0 || len <= 1 then []
    else LastN(r, Min(m, len - 1 - Unended(r))) + if Unended(r) == 1 then [NEWLINE] else []
  }

  // The scanner's m after looking at the last n bytes: it stands after the
  // newline seen last.
  function AfterNewline(r: seq<Byte>, n: nat): (m: nat)
    requires n <= |r|
    ensures m <= n && (m < n || n == 0)
    ensures m > 0 ==> r[|r| - m - 1] == NEWLINE
  {
    if n == 0 then 0 else if r[|r| - n] == NEWLINE then n - 1 else AfterNewline(r, n - 1)
  }

  lemma {:induction false} AfterNewlineIsLast(r: seq<Byte>, n: nat)
    requires n <= |r|
    ensures forall j | |r| - n <= j < |r| - AfterNewline(r, n) - 1 :: r[j] != NEWLINE
    decreases n
  {
    if n > 0 && r[|r| - n] != NEWLINE {
      AfterNewlineIsLast(r, n - 1);
    }
  }

  // The newlines among the last n bytes.
  function Behind(r: seq<Byte>, n: nat): nat
    requires n <= |r|
  {
    Newlines(r[|r| - n..])
  }

  lemma {:induction false} AfterNewlineCounts(r: seq<Byte>, n: nat)
    requires 0 < n <= |r|
    ensures var m := AfterNewline(r, n);
      Behind(r, n) == if m == 0 && Unended(r) == 1 then 0 else Behind(r, m) + 1
    decreases n
  {
    NewlinesBack(r, n, n - 1);
    if r[|r| - n] != NEWLINE && n > 1 {
      AfterNewlineCounts(r, n - 1);
    }
  }

  // The counters of the backward scan after n steps: it stands after m bytes that
  // start after a newline, and has seen l newlines.
  datatype Scan = Scan(n: nat, m: nat, l: int, charsLeft: int, linesLeft: int)
  {
    function Stepped(newline: bool): Scan {
      Scan(n + 1, if newline then n else m, if newline then l + 1 else l,
           if charsLeft > 0 then charsLeft - 1 else charsLeft,
           if newline && linesLeft > 0 then linesLeft - 1 else linesLeft)
    }

    // Nothing stops the scan.
    predicate GoesOn() {
      charsLeft != 0 && linesLeft != 0
    }
  }

  // Where the scan ends that has come to s.
  function ScanFrom(r: seq<Byte>, s: Scan): (e: Scan)
    requires s.n <= |r|
    decreases |r| - s.n
  {
    if s.n == |r| then s
    else
      var t := s.Stepped(r[|r| - s.n - 1] == NEWLINE);
      if t.GoesOn() then ScanFrom(r, t) else t
  }

  // The counters in terms of the bytes, starting from chars, lines and l0.
  ghost predicate Scanned(r: seq<Byte>, chars: int, lines: int, l0: int, s: Scan) {
    && s.n <= |r| && s.m == AfterNewline(r, s.n) && s.l == l0 + Behind(r, s.n)
    && (if lines > 0 then s.charsLeft == chars < 0 && s.linesLeft == lines - (s.l - l0) >= 0
        else s.linesLeft == lines == -1 && s.charsLeft == chars - s.n >= 0)
  }

  lemma AfterNothing(r: seq<Byte>, chars: int, lines: int, l0: int)
    requires if lines > 0 then chars < 0 else lines == -1 && chars > 0
    ensures Scanned(r, chars, lines, l0, Scan(0, 0, l0, chars, lines))
  {
    assert r[|r|..] == [];
  }

  lemma ScannedMore(r: seq<Byte>, chars: int, lines: int, l0: int, s: Scan, t: Scan)
    requires Scanned(r, chars, lines, l0, s) && s.GoesOn() && s.n < |r|
    requires t == s.Stepped(r[|r| - s.n - 1] == NEWLINE)
    ensures Scanned(r, chars, lines, l0, t)
  {
    NewlinesBack(r, t.n, s.n);
  }

  lemma {:induction false} ScanCounts(r: seq<Byte>, chars: int, lines: int, l0: int, s: Scan, e: Scan)
    requires Scanned(r, chars, lines, l0, s) && s.GoesOn() && e == ScanFrom(r, s)
    ensures Scanned(r, chars, lines, l0, e) && e.n >= s.n
    ensures s.n < |r| ==> e.n > s.n
    ensures e.GoesOn() ==> e.n == |r|
    ensures e.linesLeft == 0 ==> e.n > 0 && r[|r| - e.n] == NEWLINE
    decreases |r| - s.n
  {
    if s.n < |r| {
      var t := s.Stepped(r[|r| - s.n - 1] == NEWLINE);
      ScannedMore(r, chars, lines, l0, s, t);
      if t.GoesOn() {
        ScanCounts(r, chars, lines, l0, t, e);
      }
    }
  }

  lemma NewlinesBack(r: seq<Byte>, n: nat, k: nat)
    requires 0 < n <= |r| && k == n - 1
    ensures Behind(r, n) == Behind(r, k) + if r[|r| - n] == NEWLINE then 1 else 0
  {
    assert r[|r| - n..][1..] == r[|r| - (n - 1)..];
  }

  // Every line start among the last n bytes, but the first byte, lies at or
  // behind AfterNewline.
  lemma StartsWithin(r: seq<Byte>, n: nat, p: nat)
    requires 0 < n <= |r| && 0 < p < |r| && r[p - 1] == NEWLINE && |r| - p < n
    ensures |r| - p <= AfterNewline(r, n)
  {
    AfterNewlineIsLast(r, n);
  }

  // A line start splits off whole lines.
  lemma LinesBefore(r: seq<Byte>, p: nat)
    requires 0 < p < |r| && r[p - 1] == NEWLINE
    ensures LinesOf(r[p..]) + 1 <= Newlines(r) + Unended(r)
  {
    assert r == r[..p] + r[p..];
    NewlinesAppend(r[..p], r[p..]);
    NoNewlines(r[..p]);
    assert r[..p][p - 1] == NEWLINE;
  }

  // Of two line starts the later is followed by fewer lines.
  lemma LaterStartsHaveFewer(r: seq<Byte>, p: nat, q: nat)
    requires q < p < |r| && r[p - 1] == NEWLINE
    ensures LinesOf(r[p..]) < LinesOf(r[q..])
  {
    assert r[q..][p - q..] == r[p..];
    LinesBefore(r[q..], p - q);
  }

  // A result is as long as any other.
  lemma ReplayLinesAreLongest(r: seq<Byte>, gotWrap: bool, chars: int, lines: int, m: nat, found: nat,
      m': nat, found': nat)
    requires ReplayLines(r, gotWrap, chars, lines, m, found) && ReplayLines(r, gotWrap, chars, lines, m', found')
    ensures m' <= m
  {
    if m < m' {
      assert LineStart(r, |r| - m', gotWrap);
      if lines > 0 && m > 0 {
        LaterStartsHaveFewer(r, |r| - m, |r| - m');
      }
    }
  }

  // So the conditions leave no choice.
  lemma ReplayLinesAreUnique(r: seq<Byte>, gotWrap: bool, chars: int, lines: int, m: nat, found: nat,
      m': nat, found': nat)
    requires ReplayLines(r, gotWrap, chars, lines, m, found) && ReplayLines(r, gotWrap, chars, lines, m', found')
    ensures m == m' && found == found'
  {
    ReplayLinesAreLongest(r, gotWrap, chars, lines, m, found, m', found');
    ReplayLinesAreLongest(r, gotWrap, chars, lines, m', found', m, found);
  }

  // There is nothing to look for, or nowhere to look.
  lemma FoundNothing(r: seq<Byte>, gotWrap: bool, chars: int, lines: int)
    requires lines == 0 || (lines < 0 && chars <= 0) || r == []
    ensures ReplayLines(r, gotWrap, chars, lines, 0, 0)
  {
    assert r[|r|..] == [];
  }

  // The scan stopped at the newline before the last of the lines asked for.
  lemma FoundLines(r: seq<Byte>, gotWrap: bool, chars: int, lines: nat, n: nat)
    requires 0 < lines && 0 < n <= |r| && r[|r| - n] == NEWLINE
    requires Behind(r, n) + Unended(r) == lines + 1
    ensures ReplayLines(r, gotWrap, chars, lines, n - 1, lines)
  {
    AfterNewlineCounts(r, n);
    assert AfterNewline(r, n) == n - 1;
    if n > 1 {
      assert LineStart(r, |r| - (n - 1), gotWrap) && LinesOf(r[|r| - (n - 1)..]) == lines;
    }
  }

  // The scan ran out of replay data one line short of those asked for.
  lemma FoundAllLines(r: seq<Byte>, chars: int, lines: nat)
    requires 0 < lines && 0 < |r| && Newlines(r) + Unended(r) == lines
    ensures ReplayLines(r, false, chars, lines, |r|, lines)
  {
    assert r[0..] == r;
    assert LineStart(r, 0, false) && LinesOf(r[0..]) == lines;
  }

  // The scan ran out of replay data before.
  lemma FoundTooFew(r: seq<Byte>, gotWrap: bool, chars: int, lines: nat)
    requires 0 < lines && 0 < |r|
    requires Newlines(r) + Unended(r) < if gotWrap then lines + 1 else lines
    ensures ReplayLines(r, gotWrap, chars, lines, 0, 0)
  {
    forall p | 0 <= p < |r| && LineStart(r, p, gotWrap) ensures LinesOf(r[p..]) != lines {
      if p > 0 {
        LinesBefore(r, p);
      } else {
        assert r[0..] == r;
      }
    }
    assert r[|r|..] == [];
  }

  // The scan ran out of characters, or of replay data that does not start a line.
  lemma FoundWithin(r: seq<Byte>, gotWrap: bool, chars: int, n: nat)
    requires 0 < n <= |r| && 0 < chars
    requires n <= chars + 1 - Unended(r)
    requires n == chars + 1 - Unended(r) || (n == |r| && gotWrap)
    ensures var found := Behind(r, n) + Unended(r) - 1;
      found >= 0 && ReplayLines(r, gotWrap, chars, -1, AfterNewline(r, n), found)
  {
    var m := AfterNewline(r, n);
    AfterNewlineCounts(r, n);
    forall p | 0 <= p < |r| && LineStart(r, p, gotWrap) && |r| - p + Unended(r) <= chars ensures |r| - p <= m {
      if p > 0 {
        StartsWithin(r, n, p);
      }
    }
  }

  // All the replay data fits and starts a line.
  lemma FoundEverything(r: seq<Byte>, chars: int)
    requires 0 < |r| < chars + 1 - Unended(r)
    ensures ReplayLines(r, false, chars, -1, |r|, Newlines(r) + Unended(r))
  {
    assert r[0..] == r;
  }

  // What the scanner reports once it has looked at the last n bytes, with
  // l == Behind(r, n) + Unended(r) - 1.
  lemma ReplayScanEnds(r: seq<Byte>, gotWrap: bool, chars: int, lines: int, n: nat, l: int, m: nat, found: int)
    requires 0 < n <= |r| && lines != 0 && lines >= -1
    requires l == Behind(r, n) + Unended(r) - 1
    requires if lines > 0 then l <= lines && (if l == lines then r[|r| - n] == NEWLINE else n == |r|)
             else chars > 0 && n == Min(chars + 1 - Unended(r), |r|)
    requires
      if !gotWrap && (if lines > 0 then l == lines - 1 else n < chars + 1 - Unended(r)) then m == n && found == l + 1
      else if lines > 0 && l < lines then m == found == 0
      else m == AfterNewline(r, n) && found == l
    ensures found >= 0 && ReplayLines(r, gotWrap, chars, lines, m, found)
  {
    assert r[0..] == r;
    if lines > 0 {
      if l == lines {
        FoundLines(r, gotWrap, chars, lines, n);
      } else if !gotWrap && l == lines - 1 {
        FoundAllLines(r, chars, lines);
      } else {
        FoundTooFew(r, gotWrap, chars, lines);
      }
    } else if !gotWrap && n < chars + 1 - Unended(r) {
      FoundEverything(r, chars);
    } else {
      FoundWithin(r, gotWrap, chars, n);
    }
  }

  // The code's last steps: the first line ever written needs no newline before it,
  // and too few lines are none.
  lemma ReplayScanned(r: seq<Byte>, gotWrap: bool, chars: int, lines: int, charsLeft: int, linesLeft: int, l0: int,
      s: Scan, m: nat, found: int)
    requires r != [] && l0 == Unended(r) - 1 && lines != 0 && lines >= -1
    requires if lines > 0 then charsLeft < 0 && linesLeft == lines - l0 && linesLeft > 0
             else linesLeft == -1 && charsLeft == chars - l0 && chars > 0
    requires s == ScanFrom(r, Scan(0, 0, l0, charsLeft, linesLeft))
    requires var first := !gotWrap && (s.charsLeft > 0 || s.linesLeft > 0);
      if s.linesLeft > (if first then 1 else 0) then m == found == 0
      else if first then m == s.n && found == s.l + 1
      else m == s.m && found == s.l
    ensures found >= 0 && ReplayLines(r, gotWrap, chars, lines, m, found)
  {
    AfterNothing(r, charsLeft, linesLeft, l0);
    ScanCounts(r, charsLeft, linesLeft, l0, Scan(0, 0, l0, charsLeft, linesLeft), s);
    ReplayScanEnds(r, gotWrap, chars, lines, s.n, s.l, m, found);
  }
}
