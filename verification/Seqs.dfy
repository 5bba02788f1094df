// Sequences: definitions and facts used by several modules.

module Seqs {

  function Min(a: int, b: int): int {
    if a <= b then a else b
  }

  function Max(a: int, b: int): int {
    if a >= b then a else b
  }

  datatype Option<T> = None | Some(value: T)

  function Elements<T(==)>(s: seq<T>): set<T> {
    set x | x in s
  }

  ghost predicate Distinct<T>(s: seq<T>) {
    forall i, j | 0 <= i < j < |s| :: s[i] != s[j]
  }

  lemma Associative<T>(a: seq<T>, b: seq<T>, c: seq<T>)
    ensures (a + b) + c == a + (b + c)
  {
  }

  // The last n elements of s, or all of s when it is shorter.
  function LastN<T>(s: seq<T>, n: nat): (r: seq<T>)
    ensures |r| == Min(|s|, n)
  {
    if |s| <= n then s else LastN(s[1..], n)
  }

  lemma {:induction false} LastNIsSlice<T>(s: seq<T>, n: nat)
    ensures LastN(s, n) == if |s| <= n then s else s[|s| - n..]
  {
    if |s| > n {
      LastNIsSlice(s[1..], n);
    }
  }

  // Keeping the last n, appending and keeping the last n again forgets
  // nothing that a single cut would have kept.
  lemma LastNAppend<T>(s: seq<T>, t: seq<T>, n: nat, m: nat)
    requires m <= n + |t| || |s| <= n
    ensures LastN(LastN(s, n) + t, m) == LastN(s + t, m)
  {
    LastNIsSlice(s, n);
    LastNIsSlice(s + t, m);
    LastNIsSlice(LastN(s, n) + t, m);
  }

  lemma LastNTwice<T>(s: seq<T>, n: nat, m: nat)
    requires m <= n
    ensures LastN(LastN(s, n), m) == LastN(s, m)
  {
    LastNIsSlice(s, n);
    LastNIsSlice(s, m);
    LastNIsSlice(LastN(s, n), m);
  }

  lemma LastNAll<T>(s: seq<T>, n: nat)
    ensures LastN(s, Min(|s|, n)) == LastN(s, n)
  {
    LastNIsSlice(s, Min(|s|, n));
    LastNIsSlice(s, n);
  }

  lemma LastNOfPrefix<T>(s: seq<T>, a: nat, b: nat, n: nat, from: nat)
    requires b <= a <= |s| && from == Max(0, b - n)
    ensures LastN(s[..a][..b], n) == s[from..b]
  {
    LastNIsSlice(s[..a][..b], n);
  }

  lemma SamePrefix<T>(a: seq<T>, b: seq<T>, c: seq<T>)
    requires a + c == b + c
    ensures a == b
  {
    assert a == (a + c)[..|a|] && b == (b + c)[..|b|];
  }

  lemma SameSuffix<T>(a: seq<T>, b: seq<T>, c: seq<T>)
    requires a + b == a + c
    ensures b == c
  {
    assert b == (a + b)[|a|..] && c == (a + c)[|a|..];
  }

  // Keeping the last n after one element arrives loses nothing later.
  lemma OneThenRest<T>(s: seq<T>, d: seq<T>, n: nat, t: seq<T>)
    requires 0 < n && |s| <= n && d != []
    requires t == if |s| < n then s + [d[0]] else s[1..] + [d[0]]
    ensures LastN(t + d[1..], n) == LastN(s + d, n)
  {
    assert d == [d[0]] + d[1..];
    if |s| < n {
      assert t + d[1..] == s + d;
    } else {
      assert t + d[1..] == (s + d)[1..];
    }
  }
}
