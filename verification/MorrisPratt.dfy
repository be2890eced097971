/** Morris-Pratt string search: the border table, the failure table and the counting
    search. The table builders read their pattern from cells 1..m of the needle, the
    search reads its pattern from cells 0..m-1. */
module MorrisPratt {

  // ------------------------------------------------------------------- borders

  /** The first `k` characters of `p[..n]` are also its last `k`, and `k < n`. */
  ghost predicate IsBorder(p: seq<char>, k: int, n: int) {
    0 <= k < n <= |p| && p[..k] == p[n - k..n]
  }

  ghost function LongestUpTo(p: seq<char>, n: nat, k: nat): (r: nat)
    requires k < n <= |p|
    ensures r <= k && IsBorder(p, r, n)
    ensures forall q :: q <= k && IsBorder(p, q, n) ==> q <= r
  {
    if IsBorder(p, k, n) then k else
      assert k > 0 by { assert p[..0] == p[n..n]; }
      LongestUpTo(p, n, k - 1)
  }

  /** The longest proper border of `p[..n]`, and -1 for the empty prefix. */
  ghost function Border(p: seq<char>, n: nat): (r: int)
    requires n <= |p|
    ensures -1 <= r < n && (n > 0 ==> IsBorder(p, r, n))
    ensures forall q :: IsBorder(p, q, n) ==> q <= r
  {
    if n == 0 then -1 else LongestUpTo(p, n, n - 1)
  }

  /** Two borders of one prefix: the shorter is a border of the longer. */
  lemma BorderOfBorder(p: seq<char>, q: int, k: int, n: int)
    requires IsBorder(p, k, n) && IsBorder(p, q, n) && q < k
    ensures IsBorder(p, q, k)
  {
    forall s | 0 <= s < q
      ensures p[s] == p[k - q + s]
    {
      assert p[s] == p[..q][s] == p[n - q..n][s] == p[n - q + s];
      assert p[k - q + s] == p[..k][k - q + s] == p[n - k..n][k - q + s] == p[n - q + s];
    }
    assert p[..q] == p[k - q..k];
  }

  /** Borders of `p[..n+1]` of length `k+1` are borders of `p[..n]` that extend. */
  lemma BorderExtends(p: seq<char>, k: int, n: int)
    requires 0 <= k && 1 <= n < |p|
    ensures IsBorder(p, k + 1, n + 1) <==> IsBorder(p, k, n) && p[k] == p[n]
  {
    if IsBorder(p, k + 1, n + 1) {
      assert p[..k + 1][..k] == p[..k];
      assert p[n - k..n + 1][..k] == p[n - k..n];
      assert p[..k + 1][k] == p[n - k..n + 1][k];
    }
    if IsBorder(p, k, n) && p[k] == p[n] {
      assert p[..k + 1] == p[..k] + [p[k]];
      assert p[n - k..n + 1] == p[n - k..n] + [p[n]];
    }
  }

  /** While `j` walks down the borders of `p[..n]`, no border of `p[..n+1]` is missed. */
  ghost predicate Candidate(p: seq<char>, n: nat, j: int)
    requires n < |p|
  {
    && (j == -1 || IsBorder(p, j, n))
    && NoLonger(p, n + 1, j + 1)
  }

  ghost predicate NoLonger(p: seq<char>, n: int, j: int) {
    forall k :: IsBorder(p, k, n) ==> k <= j
  }

  lemma CandidateStart(p: seq<char>, n: nat)
    requires n < |p|
    ensures Candidate(p, n, Border(p, n))
  {
    var n' := n + 1;
    forall k | IsBorder(p, k, n')
      ensures k <= Border(p, n) + 1
    {
      if k >= 1 && n >= 1 {
        BorderExtends(p, k - 1, n);
      }
    }
  }

  lemma CandidateStep(p: seq<char>, n: nat, j: int)
    requires n < |p| && j >= 0 && Candidate(p, n, j) && p[j] != p[n]
    ensures -1 <= Border(p, j) < j && Candidate(p, n, Border(p, j))
  {
    var b := Border(p, j);
    if b >= 0 {
      BorderTransitive(p, b, j, n);
    }
    var n' := n + 1;
    forall k | IsBorder(p, k, n')
      ensures k <= b + 1
    {
      if k >= 1 {
        BorderExtends(p, k - 1, n);
        assert k - 1 < j;
        BorderOfBorder(p, k - 1, j, n);
      }
    }
  }

  lemma BorderTransitive(p: seq<char>, b: int, j: int, n: int)
    requires IsBorder(p, b, j) && IsBorder(p, j, n)
    ensures IsBorder(p, b, n)
  {
    forall s | 0 <= s < b
      ensures p[s] == p[n - b + s]
    {
      assert p[s] == p[..b][s] == p[j - b..j][s] == p[j - b + s];
      assert p[j - b + s] == p[..j][j - b + s] == p[n - j..n][j - b + s];
    }
    assert p[..b] == p[n - b..n];
  }

  /** The walk stops at the longest border of the next prefix. */
  lemma CandidateStop(p: seq<char>, n: nat, j: int)
    requires n < |p| && Candidate(p, n, j) && (j == -1 || p[j] == p[n])
    ensures Border(p, n + 1) == j + 1
  {
    if j >= 0 {
      BorderExtends(p, j, n);
    } else {
      assert p[..0] == p[n + 1..n + 1];
      assert IsBorder(p, 0, n + 1);
    }
    assert IsBorder(p, Border(p, n + 1), n + 1);
  }

  // -------------------------------------------------------------------- tables

  /** `compute_borders`: the longest proper border of every prefix of cells 1..m. */
  method ComputeBorders(x: seq<char>, border: array<int>, m: nat)
    requires |x| > m && border.Length > m
    modifies border
    ensures forall i :: 0 <= i <= m ==> border[i] == Border(x[1..m + 1], i)
  {
    hide Border, Candidate, IsBorder;
    ghost var p := x[1..m + 1];
    border[0] := -1;
    BorderZero(p);
    for i := 1 to m + 1
      invariant forall k :: 1 <= k <= m ==> x[k] == p[k - 1]
      invariant forall k :: 0 <= k < i ==> border[k] == Border(p, k)
    {
      var j := border[i - 1];
      CandidateStart(p, i - 1);
      while j >= 0 && x[i] != x[j + 1]
        invariant -1 <= j < i && Candidate(p, i - 1, j)
        invariant forall k :: 0 <= k < i ==> border[k] == Border(p, k)
      {
        CandidateStep(p, i - 1, j);
        j := border[j];
      }
      CandidateStop(p, i - 1, j);
      border[i] := j + 1;
    }
  }

  lemma BorderZero(p: seq<char>)
    ensures Border(p, 0) == -1
  {
  }

  /** The failure table for `p`: where to resume after a mismatch at position i. */
  ghost predicate IsFailureTable(next: seq<int>, p: seq<char>) {
    |next| >= |p| + 2 && forall i :: 1 <= i <= |p| + 1 ==> next[i] == Border(p, i - 1) + 1
  }

  /** `compute_MP_next`: the failure table for cells 1..m, so that
      MP_next[i] = border[i-1] + 1 for every i from 1 to m+1. */
  method ComputeNext(x: seq<char>, next: array<int>, m: nat)
    requires |x| > m && next.Length >= m + 2
    modifies next
    ensures IsFailureTable(next[..], x[1..m + 1])
    ensures next[0] == old(next[0])
  {
    hide Border, Candidate, IsFailureTable, IsBorder;
    ghost var p := x[1..m + 1];
    next[1] := 0;
    var j := 0;
    BorderZero(p);
    for i := 1 to m + 1
      invariant next[0] == old(next[0])
      invariant forall k :: 1 <= k <= m ==> x[k] == p[k - 1]
      invariant forall k :: 1 <= k <= i ==> next[k] == Border(p, k - 1) + 1
      invariant 0 <= j <= i && j == next[i]
    {
      CandidateStart(p, i - 1);
      while j > 0 && x[i] != x[j]
        invariant 0 <= j <= i && Candidate(p, i - 1, j - 1)
        invariant next[0] == old(next[0])
        invariant forall k :: 1 <= k <= i ==> next[k] == Border(p, k - 1) + 1
      {
        CandidateStep(p, i - 1, j - 1);
        j := next[j];
      }
      CandidateStop(p, i - 1, j - 1);
      j := j + 1;
      next[i + 1] := j;
    }
    TableComplete(next[..], p);
  }

  lemma TableComplete(next: seq<int>, p: seq<char>)
    requires |next| >= |p| + 2 && forall k :: 1 <= k <= |p| + 1 ==> next[k] == Border(p, k - 1) + 1
    ensures IsFailureTable(next, p)
  {
  }

  /** Cells of the failure table that a search for `m` characters uses: the one past the
      end only for an empty pattern, because a match starts again from 1. */
  function Reach(m: nat): nat {
    if m == 0 then 1 else m
  }

  /** The cells that a search for `m` characters uses link along the borders of `q`. */
  ghost predicate IsSearchTable(next: seq<int>, q: seq<char>, m: nat) {
    m <= |q| + 1 && |next| > Reach(m) && forall i :: 1 <= i <= Reach(m) ==> next[i] == Border(q, i - 1) + 1
  }

  // -------------------------------------------------------------------- search

  /** `p` occurs in `t` with its last character just before position `e`. */
  ghost predicate EndsAt(p: seq<char>, t: seq<char>, e: int) {
    |p| <= e <= |t| && t[e - |p|..e] == p
  }

  /** Occurrences found from left to right, each starting at or after the end of the one
      before: `start` is that end, `e` the position reached. */
  ghost function Greedy(p: seq<char>, t: seq<char>, start: nat, e: nat): nat
    requires e <= |t|
    decreases |t| - e
  {
    if e == |t| then 0
    else if EndsAt(p, t, e + 1) && e + 1 - |p| >= start then 1 + Greedy(p, t, e + 1, e + 1)
    else Greedy(p, t, start, e + 1)
  }

  /** Ends of occurrences that do not overlap and start at or after `start`. */
  ghost predicate Disjoint(p: seq<char>, t: seq<char>, start: nat, ends: seq<nat>) {
    && (forall i :: 0 <= i < |ends| ==> EndsAt(p, t, ends[i]))
    && (ends != [] ==> ends[0] - |p| >= start)
    && (forall i :: 1 <= i < |ends| ==> ends[i] - |p| >= ends[i - 1])
  }

  /** The greedy count is the most that any choice of disjoint occurrences reaches. */
  lemma {:induction false} GreedyIsMost(p: seq<char>, t: seq<char>, start: nat, e: nat, ends: seq<nat>)
    requires |p| >= 1 && start <= e <= |t| && Disjoint(p, t, start, ends)
    requires ends != [] ==> ends[0] > e
    ensures |ends| <= Greedy(p, t, start, e)
    decreases |t| - e
  {
    if ends != [] {
      assert EndsAt(p, t, ends[0]);
      if EndsAt(p, t, e + 1) && e + 1 - |p| >= start {
        var rest := ends[1..];
        assert forall i :: 0 <= i < |rest| ==> rest[i] == ends[i + 1];
        assert Disjoint(p, t, e + 1, rest);
        GreedyIsMost(p, t, e + 1, e + 1, rest);
      } else {
        GreedyIsMost(p, t, start, e + 1, ends);
      }
    }
  }

  /** Some choice of disjoint occurrences reaches the greedy count. */
  lemma {:induction false} GreedyAttained(p: seq<char>, t: seq<char>, start: nat, e: nat) returns (ends: seq<nat>)
    requires start <= e <= |t|
    ensures Disjoint(p, t, start, ends) && |ends| == Greedy(p, t, start, e)
    ensures forall i :: 0 <= i < |ends| ==> ends[i] > e
    decreases |t| - e
  {
    if e == |t| {
      ends := [];
    } else if EndsAt(p, t, e + 1) && e + 1 - |p| >= start {
      var rest := GreedyAttained(p, t, e + 1, e + 1);
      ends := [e + 1] + rest;
      assert forall i :: 1 <= i < |ends| ==> ends[i] == rest[i - 1];
    } else {
      ends := GreedyAttained(p, t, start, e + 1);
    }
  }

  /** So the greedy count is the largest number of pairwise disjoint occurrences. */
  lemma GreedyIsMaximum(p: seq<char>, t: seq<char>)
    requires |p| >= 1
    ensures exists ends :: Disjoint(p, t, 0, ends) && |ends| == Greedy(p, t, 0, 0)
    ensures forall ends :: Disjoint(p, t, 0, ends) ==> |ends| <= Greedy(p, t, 0, 0)
  {
    var best := GreedyAttained(p, t, 0, 0);
    forall ends | Disjoint(p, t, 0, ends)
      ensures |ends| <= Greedy(p, t, 0, 0)
    {
      GreedyIsMost(p, t, 0, 0, ends);
    }
  }

  /** The first `k` characters of `p` are the last `k` before position `e` of `t`, and
      lie after `start`. */
  ghost predicate Suffix(p: seq<char>, t: seq<char>, start: nat, e: int, k: int) {
    0 <= k <= |p| && start <= e - k && e <= |t| && p[..k] == t[e - k..e]
  }

  lemma SuffixExtends(p: seq<char>, t: seq<char>, start: nat, e: int, k: int)
    requires 0 <= k < |p| && start <= e < |t|
    ensures Suffix(p, t, start, e + 1, k + 1) <==> Suffix(p, t, start, e, k) && p[k] == t[e]
  {
    if Suffix(p, t, start, e + 1, k + 1) {
      assert p[..k + 1][..k] == p[..k];
      assert t[e - k..e + 1][..k] == t[e - k..e];
      assert p[..k + 1][k] == t[e - k..e + 1][k];
    }
    if Suffix(p, t, start, e, k) && p[k] == t[e] {
      assert p[..k + 1] == p[..k] + [p[k]];
      assert t[e - k..e + 1] == t[e - k..e] + [t[e]];
    }
  }

  lemma SuffixBorder(p: seq<char>, t: seq<char>, start: nat, e: int, q: int, k: int)
    requires Suffix(p, t, start, e, k)
    ensures q < k ==> (Suffix(p, t, start, e, q) <==> IsBorder(p, q, k))
  {
    if 0 <= q < k {
      assert t[e - q..e] == t[e - k..e][k - q..];
      assert p[k - q..k] == p[..k][k - q..];
    }
  }

  /** While `k` walks down the borders, no suffix that extends over `t[e]` is missed. */
  ghost predicate Resumable(p: seq<char>, t: seq<char>, start: nat, e: int, k: int) {
    && (k == -1 || Suffix(p, t, start, e, k))
    && NoLongerSuffix(p, t, start, e + 1, k + 1)
  }

  ghost predicate NoLongerSuffix(p: seq<char>, t: seq<char>, start: nat, e: int, k: int) {
    forall q :: Suffix(p, t, start, e, q) ==> q <= k
  }

  /** `k` is the longest prefix of `p` that ends at `e` after `start`. */
  ghost predicate Longest(p: seq<char>, t: seq<char>, start: nat, e: int, k: int) {
    Suffix(p, t, start, e, k) && NoLongerSuffix(p, t, start, e, k)
  }

  lemma ResumeStart(p: seq<char>, t: seq<char>, start: nat, e: int, k: int)
    requires start <= e < |t| && Longest(p, t, start, e, k)
    ensures Resumable(p, t, start, e, k)
  {
    var e' := e + 1;
    forall q | Suffix(p, t, start, e', q)
      ensures q <= k + 1
    {
      if q >= 1 {
        SuffixExtends(p, t, start, e, q - 1);
      }
    }
  }

  lemma ResumeStep(p: seq<char>, t: seq<char>, start: nat, e: int, k: int)
    requires 0 <= k <= |p| && start <= e < |t| && Resumable(p, t, start, e, k)
    requires k == |p| || p[k] != t[e]
    ensures -1 <= Border(p, k) < k && Resumable(p, t, start, e, Border(p, k))
  {
    var b := Border(p, k);
    if b >= 0 {
      SuffixBorder(p, t, start, e, b, k);
    }
    var e' := e + 1;
    forall q | Suffix(p, t, start, e', q)
      ensures q <= b + 1
    {
      if q >= 1 {
        SuffixExtends(p, t, start, e, q - 1);
        assert q - 1 != k;
        SuffixBorder(p, t, start, e, q - 1, k);
      }
    }
  }

  lemma ResumeStop(p: seq<char>, t: seq<char>, start: nat, e: int, k: int)
    requires start <= e < |t| && Resumable(p, t, start, e, k)
    requires k == -1 || (0 <= k < |p| && p[k] == t[e])
    ensures Longest(p, t, start, e + 1, k + 1)
  {
    if k >= 0 {
      SuffixExtends(p, t, start, e, k);
    } else {
      assert p[..0] == t[e + 1..e + 1];
    }
  }

  lemma LongestEmpty(p: seq<char>, t: seq<char>, e: nat)
    requires e <= |t|
    ensures Longest(p, t, e, e, 0)
  {
    assert p[..0] == t[e..e];
  }

  /** A whole occurrence is the longest suffix of all. */
  lemma LongestIsMatch(p: seq<char>, t: seq<char>, start: nat, e: int, k: int)
    requires Longest(p, t, start, e, k)
    ensures k == |p| <==> EndsAt(p, t, e) && e - |p| >= start
  {
    if EndsAt(p, t, e) && e - |p| >= start {
      assert p[..|p|] == p;
      assert Suffix(p, t, start, e, |p|);
    }
    if k == |p| {
      assert p[..k] == p;
    }
  }

  /** Where the inner loop of `MP` stops at the character `c` after `k` characters of `p`
      have matched, when the failure links are the borders of `q`. */
  ghost function Fall(p: seq<char>, q: seq<char>, k: int, c: char): (r: int)
    requires -1 <= k <= |p| && k <= |q|
    ensures -1 <= r <= k && (r == -1 || (r < |p| && p[r] == c))
    decreases k
  {
    if k == |p| || (k >= 0 && p[k] != c) then Fall(p, q, Border(q, k), c) else k
  }

  /** A state between two characters of the text: a whole match starts again from 0. */
  predicate Between(p: seq<char>, q: seq<char>, k: int) {
    0 <= k && (k < |p| || k == 0) && |p| <= |q| + 1
  }

  /** What `MP` counts from position `e` of the text on. */
  ghost function Matches(p: seq<char>, q: seq<char>, t: seq<char>, k: int, e: nat): nat
    requires Between(p, q, k) && e <= |t|
    decreases |t| - e
  {
    if e == |t| then 0
    else
      var n := Fall(p, q, k, t[e]) + 1;
      if n == |p| then 1 + Matches(p, q, t, 0, e + 1) else Matches(p, q, t, n, e + 1)
  }

  /** The pattern's own borders stop at the longest prefix that ends at the character. */
  lemma {:induction false} FallIsLongest(p: seq<char>, t: seq<char>, start: nat, e: int, k: int)
    requires -1 <= k <= |p| && start <= e < |t| && Resumable(p, t, start, e, k)
    ensures Longest(p, t, start, e + 1, Fall(p, p, k, t[e]) + 1)
    decreases k
  {
    hide Border, Longest, Resumable;
    if k == |p| || (k >= 0 && p[k] != t[e]) {
      ResumeStep(p, t, start, e, k);
      FallIsLongest(p, t, start, e, Border(p, k));
    } else {
      ResumeStop(p, t, start, e, k);
    }
  }

  /** With the pattern's own borders, `MP` counts the greedy occurrences. */
  lemma {:induction false} MatchesAreGreedy(p: seq<char>, t: seq<char>, start: nat, e: nat, k: int)
    requires Between(p, p, k) && start <= e <= |t| && Longest(p, t, start, e, k)
    ensures Matches(p, p, t, k, e) == Greedy(p, t, start, e)
    decreases |t| - e
  {
    hide Border, Longest, Resumable, EndsAt, Fall;
    if e < |t| {
      FallRange(p, p, k, t[e]);
      var n := Fall(p, p, k, t[e]) + 1;
      ResumeStart(p, t, start, e, k);
      FallIsLongest(p, t, start, e, k);
      LongestIsMatch(p, t, start, e + 1, n);
      if n == |p| {
        LongestEmpty(p, t, e + 1);
        MatchesAreGreedy(p, t, e + 1, e + 1, 0);
      } else {
        MatchesAreGreedy(p, t, start, e + 1, n);
      }
    }
  }

  lemma FallRange(p: seq<char>, q: seq<char>, k: int, c: char)
    requires Between(p, q, k)
    ensures 0 <= Fall(p, q, k, c) + 1 <= |p| && Fall(p, q, k, c) <= k
  {
  }

  lemma RightCount(p: seq<char>, t: seq<char>)
    ensures Matches(p, p, t, 0, 0) == Greedy(p, t, 0, 0)
  {
    LongestEmpty(p, t, 0);
    MatchesAreGreedy(p, t, 0, 0, 0);
  }

  /** One pass of `MP` over the text, with at most one failure-link step for each character
      of the text. When the links are the pattern's own it finds the greedy count. */
  method Pass(x: seq<char>, t: seq<char>, next: seq<int>, ghost q: seq<char>) returns (found: nat, ghost steps: nat)
    requires IsSearchTable(next, q, |x|)
    ensures found == Matches(x, q, t, 0, 0)
    ensures q == x ==> found == Greedy(x, t, 0, 0)
    ensures steps <= |t|
  {
    hide Border, Greedy, Matches, Fall;
    var m, n := |x|, |t|;
    var i, j := 1, 1;
    found, steps := 0, 0;
    while j <= n
      invariant 1 <= j <= n + 1 && 1 <= i && Between(x, q, i - 1)
      invariant found + Matches(x, q, t, i - 1, j - 1) == Matches(x, q, t, 0, 0)
      invariant steps + i <= j
    {
      ghost var k, c := i - 1, t[j - 1];
      MatchesStep(x, q, t, k, j - 1);
      while i == m + 1 || (i > 0 && x[i - 1] != t[j - 1])
        invariant 0 <= i <= Reach(m)
        invariant Fall(x, q, i - 1, c) == Fall(x, q, k, c)
        invariant steps + i <= j
        decreases i
      {
        FallStep(x, q, i - 1, c);
        i := next[i];
        steps := steps + 1;
      }
      FallStep(x, q, i - 1, c);
      i := i + 1;
      j := j + 1;
      if i == m + 1 {
        i := 1;
        found := found + 1;
      }
    }
    MatchesEnd(x, q, t, i - 1);
    if q == x {
      RightCount(x, t);
    }
  }

  lemma FallStep(p: seq<char>, q: seq<char>, k: int, c: char)
    requires -1 <= k <= |p| && k <= |q|
    ensures if k == |p| || (k >= 0 && p[k] != c) then -1 <= Border(q, k) < k && Fall(p, q, k, c) == Fall(p, q, Border(q, k), c)
            else Fall(p, q, k, c) == k
  {
  }

  lemma MatchesStep(p: seq<char>, q: seq<char>, t: seq<char>, k: int, e: nat)
    requires Between(p, q, k) && e < |t|
    ensures k <= |p| && k <= |q| && Fall(p, q, k, t[e]) <= k
    ensures var n := Fall(p, q, k, t[e]) + 1;
            var hit := n == |p|;
            var k' := if hit then 0 else n;
            k + 1 <= Reach(|p|) && Between(p, q, k') && Matches(p, q, t, k, e) == (if hit then 1 else 0) + Matches(p, q, t, k', e + 1)
  {
  }

  lemma MatchesEnd(p: seq<char>, q: seq<char>, t: seq<char>, k: int)
    requires Between(p, q, k)
    ensures Matches(p, q, t, k, |t|) == 0
  {
  }

  lemma GreedyStep(p: seq<char>, t: seq<char>, start: nat, e: nat)
    requires e <= |t|
    ensures Greedy(p, t, start, e) ==
            if e == |t| then 0
            else if EndsAt(p, t, e + 1) && e + 1 - |p| >= start then 1 + Greedy(p, t, e + 1, e + 1)
            else Greedy(p, t, start, e + 1)
  {
  }

  /** `MP`: every iteration adds what one pass finds to the match counter. */
  method Search(x: seq<char>, t: seq<char>, next: seq<int>, m: nat, n: nat, iter_cnt: nat, match_cnt: int, ghost q: seq<char>)
    returns (count: int)
    requires m <= |x| && n <= |t| && IsSearchTable(next, q, m)
    ensures count == match_cnt + iter_cnt * Matches(x[..m], q, t[..n], 0, 0)
    ensures q == x[..m] ==> count == match_cnt + iter_cnt * Greedy(x[..m], t[..n], 0, 0)
  {
    hide Matches, Greedy;
    ghost var one := Matches(x[..m], q, t[..n], 0, 0);
    count := match_cnt;
    for k := 0 to iter_cnt
      invariant count == match_cnt + k * one
    {
      var found, _ := Pass(x[..m], t[..n], next, q);
      count := count + found;
      assert (k + 1) * one == k * one + one;
    }
    RightCount(x[..m], t[..n]);
  }

  // ------------------------------------------------- builders and search together

  /** Called with one needle pointer, the builders see the needle without its first
      character, and one cell beyond it. */
  predicate Shifted(q: seq<char>, p: seq<char>) {
    |p| <= |q| + 1 && forall i :: 1 <= i < |p| ==> q[i - 1] == p[i]
  }

  /** The first character does not come again before position `d`. */
  predicate Unrepeated(p: seq<char>, d: nat) {
    forall e :: 1 <= e < d && e < |p| ==> p[e] != p[0]
  }

  /** `p` repeats with period `d`, or has hardly more than `d` characters. */
  predicate Periodic(p: seq<char>, d: nat) {
    d + 1 >= |p| || forall k :: d <= k < |p| ==> p[k] == p[k - d]
  }

  /** The first character does not come again before the last position, or where it first
      does the needle starts to repeat. */
  ghost predicate Shareable(p: seq<char>) {
    exists d: nat :: d >= 1 && Unrepeated(p, d) && Periodic(p, d)
  }

  /** On a mismatch start again from the beginning, at the same character. */
  function Restart(p: seq<char>, k: int, c: char): int
    requires 0 <= k < |p|
  {
    if p[k] == c then k else if p[0] == c then 0 else -1
  }

  /** A shifted link leads to a character that has just failed to match. */
  lemma ShiftedLink(p: seq<char>, q: seq<char>, k: int)
    requires Shifted(q, p) && 1 <= k < |p|
    ensures 0 <= Border(q, k) < k && (Border(q, k) >= 1 ==> p[Border(q, k)] == p[k])
  {
    var b := Border(q, k);
    if b >= 1 {
      assert q[..b][b - 1] == q[k - b..k][b - 1];
    }
  }

  /** So shifted links never keep any part of a match. */
  lemma {:induction false} SharedFall(p: seq<char>, q: seq<char>, k: int, c: char)
    requires Shifted(q, p) && 0 <= k < |p|
    ensures Fall(p, q, k, c) == Restart(p, k, c)
    decreases k
  {
    hide Border;
    if k == 0 {
      BorderZero(q);
    } else if p[k] != c {
      ShiftedLink(p, q, k);
      SharedFall(p, q, Border(q, k), c);
    }
  }

  /** A first character that does not come again before `d` keeps borders short. */
  lemma ShortBorder(p: seq<char>, n: nat, d: nat)
    requires 1 <= n <= |p| && d >= 1 && Unrepeated(p, d)
    ensures 0 <= Border(p, n) <= if n <= d then 0 else n - d
  {
    assert IsBorder(p, 0, n);
    var b := Border(p, n);
    if b > 0 {
      BorderStart(p, b, n);
    }
  }

  lemma BorderStart(p: seq<char>, b: int, n: int)
    requires b > 0 && IsBorder(p, b, n)
    ensures p[n - b] == p[0]
  {
    assert p[..b][0] == p[n - b..n][0];
  }

  /** In a shareable needle the right links lead to the same character too. */
  lemma PeriodLink(p: seq<char>, d: nat, k: int)
    requires d >= 1 && Unrepeated(p, d) && Periodic(p, d) && 1 <= k < |p|
    ensures 0 <= Border(p, k) < k && (Border(p, k) >= 1 ==> p[Border(p, k)] == p[k])
  {
    ShortBorder(p, k, d);
    if k > d {
      assert p[..k - d] == p[d..k];
      assert IsBorder(p, k - d, k);
    }
  }

  lemma {:induction false} ShareableFall(p: seq<char>, d: nat, k: int, c: char)
    requires d >= 1 && Unrepeated(p, d) && Periodic(p, d) && 0 <= k < |p|
    ensures Fall(p, p, k, c) == Restart(p, k, c)
    decreases k
  {
    hide Border, Unrepeated, Periodic;
    if k == 0 {
      BorderZero(p);
    } else if p[k] != c {
      PeriodLink(p, d, k);
      ShareableFall(p, d, Border(p, k), c);
    }
  }

  lemma {:induction false} SameMatches(p: seq<char>, q: seq<char>, d: nat, t: seq<char>, k: int, e: nat)
    requires Shifted(q, p) && d >= 1 && Unrepeated(p, d) && Periodic(p, d)
    requires Between(p, p, k) && e <= |t|
    ensures Matches(p, q, t, k, e) == Matches(p, p, t, k, e)
    decreases |t| - e
  {
    hide Border, Fall, Shifted, Unrepeated, Periodic;
    ShiftedLength(p, q);
    if e < |t| {
      FallRange(p, p, k, t[e]);
      FallRange(p, q, k, t[e]);
      if p == [] {
        SameMatches(p, q, d, t, 0, e + 1);
      } else {
        SharedFall(p, q, k, t[e]);
        ShareableFall(p, d, k, t[e]);
        var n := Fall(p, p, k, t[e]) + 1;
        SameMatches(p, q, d, t, if n == |p| then 0 else n, e + 1);
      }
    }
  }

  lemma ShiftedLength(p: seq<char>, q: seq<char>)
    requires Shifted(q, p)
    ensures |p| <= |q| + 1
  {
  }

  /** Too few characters are left for a match. */
  lemma {:induction false} TooShort(p: seq<char>, q: seq<char>, t: seq<char>, k: int, e: nat)
    requires Between(p, q, k) && e <= |t| && k + (|t| - e) < |p|
    ensures Matches(p, q, t, k, e) == 0
    decreases |t| - e
  {
    hide Border, Fall;
    if e < |t| {
      FallRange(p, q, k, t[e]);
      TooShort(p, q, t, Fall(p, q, k, t[e]) + 1, e + 1);
    }
  }

  /** The first characters of the needle are matched one by one. */
  lemma {:induction false} Advance(p: seq<char>, q: seq<char>, t: seq<char>, k: nat)
    requires Between(p, q, 0) && k < |p| && k <= |t| && t[..k] == p[..k]
    ensures Matches(p, q, t, 0, 0) == Matches(p, q, t, k, k)
  {
    hide Border;
    if k > 0 {
      assert t[..k - 1] == t[..k][..k - 1] == p[..k][..k - 1] == p[..k - 1];
      Advance(p, q, t, k - 1);
      assert t[k - 1] == t[..k][k - 1] == p[k - 1];
      assert Fall(p, q, k - 1, t[k - 1]) == k - 1;
    }
  }

  /** The needle holds its own beginning again at `d`, up to `k` and not beyond. */
  predicate Breaks(p: seq<char>, d: nat, k: nat) {
    1 <= d < k < |p| && (forall i :: d <= i < k ==> p[i] == p[i - d]) && p[k] != p[k - d]
  }

  /** A text that holds the needle once and on which the shared table finds nothing. */
  function Missed(p: seq<char>, d: nat, k: nat): (t: seq<char>)
    requires Breaks(p, d, k)
    ensures |t| == |p| + d && t[..k] == p[..k] && t[k] == p[k - d] && t[d..] == p
  {
    assert p[d..k] == p[..k - d];
    assert p[..k - d] + p[k - d..] == p;
    p[..k] + p[k - d..]
  }

  lemma MissedBy(p: seq<char>, q: seq<char>, d: nat, k: nat)
    requires Shifted(q, p) && Breaks(p, d, k)
    ensures Matches(p, q, Missed(p, d, k), 0, 0) == 0 < Greedy(p, Missed(p, d, k), 0, 0)
  {
    var t := Missed(p, d, k);
    hide Border, Greedy, Fall, Missed, Matches, Shifted;
    FindsNothing(p, q, t, k);
    OccursOnce(p, t, d);
  }

  /** After a mismatch at `k` the search starts again, with too little text left. */
  lemma FindsNothing(p: seq<char>, q: seq<char>, t: seq<char>, k: nat)
    requires Shifted(q, p) && 1 <= k < |p| && k < |t| < |p| + k && t[..k] == p[..k] && t[k] != p[k]
    ensures Matches(p, q, t, 0, 0) == 0
  {
    hide Border, Fall, Matches, Shifted;
    ShiftedLength(p, q);
    Advance(p, q, t, k);
    SharedFall(p, q, k, t[k]);
    MatchesStep(p, q, t, k, k);
    TooShort(p, q, t, Restart(p, k, t[k]) + 1, k + 1);
  }

  lemma OccursOnce(p: seq<char>, t: seq<char>, d: nat)
    requires |t| == |p| + d && p != [] && t[d..] == p
    ensures Greedy(p, t, 0, 0) >= 1
  {
    hide Greedy;
    assert EndsAt(p, t, |t|) by { assert t[d..|t|] == t[d..]; }
    GreedyIsMost(p, t, 0, 0, [|t|]);
  }

  /** Either the needle is shareable or its first repetition breaks. */
  lemma ShareableOrBreaks(p: seq<char>) returns (d: nat, k: nat)
    ensures Shareable(p) || Breaks(p, d, k)
  {
    d, k := 1, 0;
    while d < |p| && p[d] != p[0]
      invariant 1 <= d && Unrepeated(p, d)
    {
      d := d + 1;
    }
    if d < |p| {
      k := d + 1;
      while k < |p| && p[k] == p[k - d]
        invariant d < k <= |p| && forall i :: d <= i < k ==> p[i] == p[i - d]
      {
        k := k + 1;
      }
      if k == |p| {
        assert Periodic(p, d);
      }
    }
  }

  /** Building and searching on one pointer counts right on every text exactly for the
      needles whose first character comes again, if at all before the last position, where
      the needle starts to repeat. */
  lemma SharedPointerSafeIff(p: seq<char>, q: seq<char>)
    requires Shifted(q, p)
    ensures (forall t :: Matches(p, q, t, 0, 0) == Greedy(p, t, 0, 0)) <==> Shareable(p)
  {
    hide Border, Fall, Greedy, Matches, Unrepeated, Periodic, Missed;
    if Shareable(p) {
      forall t
        ensures Matches(p, q, t, 0, 0) == Greedy(p, t, 0, 0)
      {
        SharedCount(p, q, t);
      }
    } else {
      var d, k := ShareableOrBreaks(p);
      MissedBy(p, q, d, k);
      assert Matches(p, q, Missed(p, d, k), 0, 0) != Greedy(p, Missed(p, d, k), 0, 0);
    }
  }

  lemma SharedCount(p: seq<char>, q: seq<char>, t: seq<char>)
    requires Shifted(q, p) && Shareable(p)
    ensures Matches(p, q, t, 0, 0) == Greedy(p, t, 0, 0)
  {
    var d: nat :| d >= 1 && Unrepeated(p, d) && Periodic(p, d);
    SameMatches(p, q, d, t, 0, 0);
    RightCount(p, t);
  }

  /** "aab" is in "aaab", and is not found there on one pointer. */
  lemma SharedPointerFails(q: seq<char>)
    requires Shifted(q, "aab")
    ensures Matches("aab", q, "aaab", 0, 0) == 0 && Greedy("aab", "aaab", 0, 0) == 1
  {
    var p := "aab";
    assert Breaks(p, 1, 2);
    assert Missed(p, 1, 2) == "aaab";
    MissedBy(p, q, 1, 2);
    assert !EndsAt(p, "aaab", 3) by { assert "aaab"[0..3][2] != p[2]; }
    GreedyStep(p, "aaab", 0, 0);
    GreedyStep(p, "aaab", 0, 1);
    GreedyStep(p, "aaab", 0, 2);
    GreedyStep(p, "aaab", 0, 3);
    GreedyStep(p, "aaab", 4, 4);
  }

  /** The needle of the benchmark: its first character does not come again. */
  lemma BenchmarkNeedle()
    ensures Shareable("I have control\n")
  {
    assert Unrepeated("I have control\n", 15);
    assert Periodic("I have control\n", 15);
  }

  lemma TableServes(next: seq<int>, q: seq<char>, m: nat)
    requires IsFailureTable(next, q) && m <= |q| + 1
    ensures IsSearchTable(next, q, m)
  {
  }

  /** The calls of the string test: a table built and used on one pointer. */
  method BuildAndSearch(x: seq<char>, t: seq<char>, next: array<int>, m: nat, n: nat, iter_cnt: nat, match_cnt: int)
    returns (count: int)
    requires |x| > m && n <= |t| && next.Length >= m + 2
    modifies next
    ensures Shifted(x[1..m + 1], x[..m])
    ensures count == match_cnt + iter_cnt * Matches(x[..m], x[1..m + 1], t[..n], 0, 0)
    ensures Shareable(x[..m]) ==> count == match_cnt + iter_cnt * Greedy(x[..m], t[..n], 0, 0)
  {
    hide IsFailureTable, IsSearchTable, Matches, Greedy, Shareable;
    ghost var p, q := x[..m], x[1..m + 1];
    ComputeNext(x, next, m);
    TableServes(next[..], q, m);
    count := Search(x, t, next[..], m, n, iter_cnt, match_cnt, q);
    if Shareable(p) {
      SharedCount(p, q, t[..n]);
    }
  }
}
