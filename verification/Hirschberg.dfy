/** Hirschberg's longest common subsequence: the full table (algorithm A), the
    two-row form (algorithm B) and the divide-and-conquer reconstruction
    (algorithm C). */
module Hirschberg {
  import opened Reversal
  import Bits

  // ---------------------------------------------------------------- reference

  /** `c` is obtained from `s` by deleting elements. */
  predicate Subsequence<T(==)>(c: seq<T>, s: seq<T>)
    decreases |s|
  {
    || c == []
    || (s != [] &&
        (|| (Last(c) == Last(s) && Subsequence(Init(c), Init(s)))
         || Subsequence(c, Init(s))))
  }

  predicate Common<T(==)>(c: seq<T>, a: seq<T>, b: seq<T>) {
    Subsequence(c, a) && Subsequence(c, b)
  }

  /** The cell value the tables hold for the prefixes `a` and `b`. */
  function Length<T(==)>(a: seq<T>, b: seq<T>): nat
    decreases |a| + |b|
  {
    if a == [] || b == [] then 0
    else if Last(a) == Last(b) then Length(Init(a), Init(b)) + 1
    else Max(Length(a, Init(b)), Length(Init(a), b))
  }

  function Max(x: nat, y: nat): nat {
    if x < y then y else x
  }

  // An independent reading of Subsequence: strictly increasing positions of `s`.

  ghost predicate Positions<T>(p: seq<nat>, c: seq<T>, s: seq<T>) {
    && |p| == |c|
    && (forall k :: 0 <= k < |p| ==> p[k] < |s| && s[p[k]] == c[k])
    && (forall k, l :: 0 <= k < l < |p| ==> p[k] < p[l])
  }

  lemma PositionsNonEmpty<T>(p: seq<nat>, c: seq<T>, s: seq<T>)
    requires Positions(p, c, s) && c != []
    ensures s != []
  {
    assert p[0] < |s|;
  }

  lemma {:induction false} SubsequenceIffPositions<T>(c: seq<T>, s: seq<T>)
    ensures Subsequence(c, s) <==> exists p: seq<nat> :: Positions(p, c, s)
    decreases |s|
  {
    hide Subsequence;
    SubsequenceOfAny(s);
    if c == [] {
      assert Positions([], c, s);
    } else if s == [] {
      SubsequenceStep(c, s);
      forall p: seq<nat> | Positions(p, c, s) ensures false {
        PositionsNonEmpty(p, c, s);
      }
    } else {
      SubsequenceIffPositions(Init(c), Init(s));
      SubsequenceIffPositions(c, Init(s));
      SubsequenceStep(c, s);
      if Subsequence(c, Init(s)) {
        var p: seq<nat> :| Positions(p, c, Init(s));
        assert Positions(p, c, s);
      } else if Subsequence(c, s) {
        var p: seq<nat> :| Positions(p, Init(c), Init(s));
        assert Positions(p + [|s| - 1], c, s);
      }
      forall p: seq<nat> | Positions(p, c, s)
        ensures Subsequence(c, s)
      {
        PositionsShrink(p, c, s);
      }
    }
  }

  /** Positions in `s` either use its last element or are positions in the rest. */
  lemma PositionsShrink<T>(p: seq<nat>, c: seq<T>, s: seq<T>)
    requires c != [] && s != [] && Positions(p, c, s)
    ensures Positions(p, c, Init(s)) || (Last(c) == Last(s) && Positions(p[..|p| - 1], Init(c), Init(s)))
  {
    if p[|p| - 1] != |s| - 1 {
      forall k | 0 <= k < |p|
        ensures p[k] < |s| - 1
      {
        assert k < |p| - 1 ==> p[k] < p[|p| - 1];
      }
    }
  }

  lemma {:induction false} SubsequencePrefix<T>(c: seq<T>, s: seq<T>)
    requires c != [] && Subsequence(c, s)
    ensures Subsequence(Init(c), Init(s))
    decreases |s|
  {
    if !(Last(c) == Last(s) && Subsequence(Init(c), Init(s))) {
      SubsequencePrefix(c, Init(s));
      SubsequenceWiden(Init(c), Init(s));
    }
  }

  /** A subsequence of all but the last element is a subsequence of the whole. */
  lemma {:induction false} SubsequenceWiden<T>(c: seq<T>, s: seq<T>)
    requires s != [] ==> Subsequence(c, Init(s))
    requires s == [] ==> c == []
    ensures Subsequence(c, s)
  {
  }

  lemma {:induction false} SubsequenceConcat<T>(c: seq<T>, d: seq<T>, s: seq<T>, t: seq<T>)
    requires Subsequence(c, s) && Subsequence(d, t)
    ensures Subsequence(c + d, s + t)
    decreases |t|
  {
    if t == [] {
      assert c + d == c && s + t == s;
    } else {
      assert Init(s + t) == s + Init(t);
      if d == [] {
        SubsequenceConcat(c, d, s, Init(t));
      } else if Subsequence(d, Init(t)) {
        SubsequenceConcat(c, d, s, Init(t));
      } else {
        SubsequenceConcat(c, Init(d), s, Init(t));
        assert Init(c + d) == c + Init(d);
      }
    }
  }

  /** A subsequence of `s + t` splits into a subsequence of each part. */
  lemma {:induction false} SubsequenceSplit<T>(c: seq<T>, s: seq<T>, t: seq<T>) returns (k: nat)
    requires Subsequence(c, s + t)
    ensures k <= |c|
    ensures Subsequence(c[..k], s) && Subsequence(c[k..], t)
    decreases |t|
  {
    if t == [] || c == [] {
      assert t == [] ==> s + t == s;
      k := |c|;
      assert c[..k] == c && c[k..] == [];
    } else {
      assert Init(s + t) == s + Init(t);
      if Subsequence(c, s + Init(t)) {
        k := SubsequenceSplit(c, s, Init(t));
      } else {
        k := SubsequenceSplit(Init(c), s, Init(t));
        assert Init(c)[..k] == c[..k];
        assert Init(c)[k..] == Init(c[k..]);
      }
    }
  }

  /** A concatenation embedded in `b` cuts `b` in two. */
  lemma {:induction false} SubsequenceCut<T>(c: seq<T>, d: seq<T>, b: seq<T>) returns (k: nat)
    requires Subsequence(c + d, b)
    ensures k <= |b|
    ensures Subsequence(c, b[..k]) && Subsequence(d, b[k..])
    decreases |b|
  {
    hide Subsequence;
    if d == [] {
      k := |b|;
      assert c + d == c && b[..k] == b;
      SubsequenceOfAny(b[k..]);
    } else {
      SubsequenceStep(c + d, b);
      assert Init(c + d) == c + Init(d) && Last(c + d) == Last(d);
      if Subsequence(c + d, Init(b)) {
        k := SubsequenceCut(c, d, Init(b));
      } else {
        k := SubsequenceCut(c, Init(d), Init(b));
      }
      assert Init(b)[..k] == b[..k];
      assert Init(b[k..]) == Init(b)[k..] && Last(b[k..]) == Last(b);
      SubsequenceStep(d, b[k..]);
    }
  }

  lemma SubsequenceOfAny<T>(s: seq<T>)
    ensures Subsequence([], s)
  {
  }

  lemma SubsequenceStep<T>(c: seq<T>, s: seq<T>)
    requires c != []
    ensures Subsequence(c, s) <==>
            s != [] && ((Last(c) == Last(s) && Subsequence(Init(c), Init(s))) || Subsequence(c, Init(s)))
  {
  }

  lemma SubsequencePrepend<T>(x: T, c: seq<T>, s: seq<T>)
    requires Subsequence(c, s)
    ensures Subsequence(c, [x] + s)
    ensures Subsequence([x] + c, [x] + s)
  {
    SubsequenceConcat([], c, [x], s);
    assert [] + c == c;
    assert Subsequence([x], [x]) by { assert Init([x]) == []; }
    SubsequenceConcat([x], c, [x], s);
  }

  lemma ReverseSnoc<T>(s: seq<T>)
    requires s != []
    ensures Reverse(s) == [Last(s)] + Reverse(Init(s))
  {
  }

  lemma {:induction false} SubsequenceReverse<T>(c: seq<T>, s: seq<T>)
    requires Subsequence(c, s)
    ensures Subsequence(Reverse(c), Reverse(s))
    decreases |s|
  {
    if c != [] {
      ReverseSnoc(s);
      if Subsequence(c, Init(s)) {
        SubsequenceReverse(c, Init(s));
        SubsequencePrepend(Last(s), Reverse(c), Reverse(Init(s)));
      } else {
        SubsequenceReverse(Init(c), Init(s));
        ReverseSnoc(c);
        SubsequencePrepend(Last(s), Reverse(Init(c)), Reverse(Init(s)));
      }
    }
  }

  // ------------------------------------------------------------- optimality

  /** No common subsequence is longer than `Length`. */
  lemma {:induction false} NoneLonger<T>(c: seq<T>, a: seq<T>, b: seq<T>)
    requires Common(c, a, b)
    ensures |c| <= Length(a, b)
    decreases |a| + |b|
  {
    if c != [] {
      if Last(a) == Last(b) {
        SubsequencePrefix(c, a);
        SubsequencePrefix(c, b);
        NoneLonger(Init(c), Init(a), Init(b));
      } else if Last(c) == Last(a) {
        NoneLonger(c, a, Init(b));
      } else {
        NoneLonger(c, Init(a), b);
      }
    }
  }

  /** Some common subsequence is as long as `Length`. */
  lemma {:induction false} SomeAttains<T>(a: seq<T>, b: seq<T>) returns (c: seq<T>)
    ensures Common(c, a, b) && |c| == Length(a, b)
    decreases |a| + |b|
  {
    if a == [] || b == [] {
      c := [];
    } else if Last(a) == Last(b) {
      var d := SomeAttains(Init(a), Init(b));
      c := d + [Last(a)];
      assert Init(c) == d;
    } else if Length(a, Init(b)) >= Length(Init(a), b) {
      c := SomeAttains(a, Init(b));
    } else {
      c := SomeAttains(Init(a), b);
    }
  }

  lemma LengthReverse<T>(a: seq<T>, b: seq<T>)
    ensures Length(Reverse(a), Reverse(b)) == Length(a, b)
  {
    var c := SomeAttains(a, b);
    SubsequenceReverse(c, a);
    SubsequenceReverse(c, b);
    NoneLonger(Reverse(c), Reverse(a), Reverse(b));
    var d := SomeAttains(Reverse(a), Reverse(b));
    SubsequenceReverse(d, Reverse(a));
    SubsequenceReverse(d, Reverse(b));
    ReverseInvolutive(a);
    ReverseInvolutive(b);
    NoneLonger(Reverse(d), a, b);
  }

  /** What splitting A at `i` and B at `j` can reach. */
  function Score<T(==)>(A: seq<T>, B: seq<T>, i: nat, j: nat): nat
    requires i <= |A| && j <= |B|
  {
    Length(A[..i], B[..j]) + Length(A[i..], B[j..])
  }

  /** Common subsequences of the two halves join into one of the whole. */
  lemma CommonJoin<T>(c: seq<T>, d: seq<T>, A: seq<T>, B: seq<T>, i: nat, j: nat)
    requires i <= |A| && j <= |B|
    requires Common(c, A[..i], B[..j]) && Common(d, A[i..], B[j..])
    ensures Common(c + d, A, B)
  {
    SubsequenceConcat(c, d, A[..i], A[i..]);
    SubsequenceConcat(c, d, B[..j], B[j..]);
    assert A[..i] + A[i..] == A && B[..j] + B[j..] == B;
  }

  lemma ScoreBounded<T>(A: seq<T>, B: seq<T>, i: nat, j: nat)
    requires i <= |A| && j <= |B|
    ensures Score(A, B, i, j) <= Length(A, B)
  {
    var c := SomeAttains(A[..i], B[..j]);
    var d := SomeAttains(A[i..], B[j..]);
    CommonJoin(c, d, A, B, i, j);
    NoneLonger(c + d, A, B);
  }

  /** The split theorem: wherever A is cut, some cut of B loses nothing. */
  lemma SplitTheorem<T>(A: seq<T>, B: seq<T>, i: nat) returns (j: nat)
    requires i <= |A|
    ensures j <= |B| && Score(A, B, i, j) == Length(A, B)
  {
    var c := SomeAttains(A, B);
    assert A[..i] + A[i..] == A;
    var k := SubsequenceSplit(c, A[..i], A[i..]);
    assert c[..k] + c[k..] == c;
    j := SubsequenceCut(c[..k], c[k..], B);
    NoneLonger(c[..k], A[..i], B[..j]);
    NoneLonger(c[k..], A[i..], B[j..]);
    ScoreBounded(A, B, i, j);
  }

  // ------------------------------------------------------- algorithms A and B

  lemma LengthStep<T>(A: seq<T>, B: seq<T>, i: nat, j: nat)
    requires 1 <= i <= |A| && 1 <= j <= |B|
    ensures Length(A[..i], B[..j]) ==
            if A[i - 1] == B[j - 1] then Length(A[..i - 1], B[..j - 1]) + 1
            else Max(Length(A[..i], B[..j - 1]), Length(A[..i - 1], B[..j]))
  {
    assert Init(A[..i]) == A[..i - 1] && Init(B[..j]) == B[..j - 1];
  }

  /** `hirschbergalga`: every cell is the optimum for the two prefixes. */
  method AlgorithmA<T(==)>(A: seq<T>, B: seq<T>) returns (L: array2<nat>)
    ensures L.Length0 == |A| + 1 && L.Length1 == |B| + 1
    ensures forall i, j :: 0 <= i <= |A| && 0 <= j <= |B| ==> L[i, j] == Length(A[..i], B[..j])
  {
    var m, n := |A|, |B|;
    L := new nat[m + 1, n + 1]((_, _) => 0);
    for i := 1 to m + 1
      invariant forall p, q :: 0 <= p < i && 0 <= q <= n ==> L[p, q] == Length(A[..p], B[..q])
      invariant forall p :: 0 <= p <= m ==> L[p, 0] == 0
    {
      for j := 1 to n + 1
        invariant forall p, q :: 0 <= p < i && 0 <= q <= n ==> L[p, q] == Length(A[..p], B[..q])
        invariant forall q :: 0 <= q < j ==> L[i, q] == Length(A[..i], B[..q])
        invariant forall p :: 0 <= p <= m ==> L[p, 0] == 0
      {
        LengthStep(A, B, i, j);
        if A[i - 1] == B[j - 1] {
          L[i, j] := L[i - 1, j - 1] + 1;
        } else {
          L[i, j] := Max(L[i, j - 1], L[i - 1, j]);
        }
      }
    }
  }

  lemma LengthEmpty<T>(A: seq<T>, B: seq<T>)
    ensures forall q :: 0 <= q <= |B| ==> Length(A[..0], B[..q]) == 0
    ensures forall p :: 0 <= p <= |A| ==> Length(A[..p], B[..0]) == 0
  {
  }

  /** `hirschbergalgb`: two rows are enough for the last row of the table. The
      ghost result counts the cells computed. */
  method AlgorithmB<T(==)>(A: seq<T>, B: seq<T>) returns (LL: seq<nat>, ghost cells: nat)
    ensures |LL| == |B| + 1
    ensures forall j :: 0 <= j <= |B| ==> LL[j] == Length(A, B[..j])
    ensures cells == |A| * |B|
  {
    var m, n := |A|, |B|;
    hide Length;
    LengthEmpty(A, B);
    var K := new nat[2, n + 1]((_, _) => 0);
    cells := 0;
    for i := 1 to m + 1
      invariant forall q :: 0 <= q <= n ==> K[1, q] == Length(A[..i - 1], B[..q])
      invariant K[0, 0] == 0 && K[1, 0] == 0
      invariant cells == (i - 1) * n
    {
      for j := 1 to n + 1
        invariant forall q :: 0 <= q <= n ==> K[1, q] == Length(A[..i - 1], B[..q])
        invariant K[0, 0] == 0 && K[1, 0] == 0
        invariant forall q :: 0 <= q < j ==> K[0, q] == Length(A[..i - 1], B[..q])
      {
        K[0, j] := K[1, j];
      }
      for j := 1 to n + 1
        invariant forall q :: 0 <= q <= n ==> K[0, q] == Length(A[..i - 1], B[..q])
        invariant K[0, 0] == 0 && K[1, 0] == 0
        invariant forall q :: 0 <= q < j ==> K[1, q] == Length(A[..i], B[..q])
        invariant cells == (i - 1) * n + (j - 1)
      {
        LengthStep(A, B, i, j);
        if A[i - 1] == B[j - 1] {
          K[1, j] := K[0, j - 1] + 1;
        } else {
          K[1, j] := Max(K[1, j - 1], K[0, j]);
        }
        cells := cells + 1;
      }
      assert (i - 1) * n + n == i * n;
    }
    assert A[..m] == A;
    LL := [];
    for j := 0 to n + 1
      invariant |LL| == j
      invariant forall q :: 0 <= q <= n ==> K[1, q] == Length(A, B[..q])
      invariant forall q :: 0 <= q < j ==> LL[q] == K[1, q]
    {
      LL := LL + [K[1, j]];
    }
  }

  // -------------------------------------------------------------- algorithm C

  /** The first cut among 0..`upto` that reaches the best score. */
  function FirstBest<T(==)>(A: seq<T>, B: seq<T>, i: nat, upto: nat): (k: nat)
    requires i <= |A| && upto <= |B|
    ensures k <= upto
    ensures forall j :: 0 <= j <= upto ==> Score(A, B, i, j) <= Score(A, B, i, k)
    ensures forall j :: 0 <= j < k ==> Score(A, B, i, j) < Score(A, B, i, k)
  {
    if upto == 0 then 0
    else
      var k := FirstBest(A, B, i, upto - 1);
      if Score(A, B, i, upto) > Score(A, B, i, k) then upto else k
  }

  /** The reversed row read backwards is the row of suffix optima. */
  lemma ReversedRow<T>(A: seq<T>, B: seq<T>, i: nat, j: nat)
    requires i <= |A| && j <= |B|
    ensures Length(Reverse(A[i..]), Reverse(B)[..|B| - j]) == Length(A[i..], B[j..])
  {
    assert Reverse(B)[..|B| - j] == Reverse(B[j..]);
    LengthReverse(A[i..], B[j..]);
  }

  /** The midpoint scan of `hirschbergalgc`. */
  method Midpoint<T(==)>(A: seq<T>, B: seq<T>, i: nat) returns (k: nat, ghost cells: nat)
    requires i <= |A|
    ensures k == FirstBest(A, B, i, |B|)
    ensures Score(A, B, i, k) == Length(A, B)
    ensures cells == |A| * |B|
  {
    hide Length;
    var n := |B|;
    var L1, c1 := AlgorithmB(A[..i], B);
    var L2, c2 := AlgorithmB(Reverse(A[i..]), Reverse(B));
    cells := c1 + c2;
    assert cells == |A| * |B| by {
      assert i * |B| + (|A| - i) * |B| == |A| * |B|;
    }
    var m: int := -1;
    k := 0;
    for j := 0 to n + 1
      invariant j == 0 ==> m == -1 && k == 0
      invariant j > 0 ==> k == FirstBest(A, B, i, j - 1) && m == Score(A, B, i, k)
    {
      var t := L1[j] + L2[n - j];
      ReversedRow(A, B, i, j);
      if t > m {
        m := t;
        k := j;
      }
    }
    var best := SplitTheorem(A, B, i);
    ScoreBounded(A, B, i, k);
  }

  /** Recursion levels needed for a first string of length `m`. */
  function Levels(m: nat): nat {
    if m <= 1 then 1 else 1 + Levels((m + 1) / 2)
  }

  lemma {:induction false} LevelsMonotone(m: nat, n: nat)
    requires m <= n
    ensures Levels(m) <= Levels(n)
    decreases n
  {
    if m > 1 {
      LevelsMonotone((m + 1) / 2, (n + 1) / 2);
    }
  }

  /** The recursion depth is logarithmic in the length of the first string. */
  lemma {:induction false} LevelsLogarithmic(m: nat, k: nat)
    requires m <= Bits.Pow2(k)
    ensures Levels(m) <= k + 1
    decreases k
  {
    if m > 1 {
      LevelsLogarithmic((m + 1) / 2, k - 1);
    }
  }

  lemma {:induction false} CommonOfOne<T>(A: seq<T>, B: seq<T>)
    requires |A| == 1
    ensures A[0] in B ==> Common(A, A, B) && Length(A, B) == 1
    ensures A[0] !in B ==> Common([], A, B) && Length(A, B) == 0
    decreases |B|
  {
    assert Init(A) == [];
    if B != [] {
      CommonOfOne(A, Init(B));
      assert B == Init(B) + [Last(B)];
    }
  }

  /** The work of one level and of both its halves. */
  function CellBudget(m: nat, n: nat): nat {
    if m == 0 then 0 else 3 * (m - 1) * n
  }

  lemma CellBudgetSplit(m: nat, n: nat, i: nat, k: nat)
    requires m >= 2 && i == m / 2 && k <= n
    ensures m * n + CellBudget(i, k) + CellBudget(m - i, n - k) <= CellBudget(m, n)
  {
    var p := m - i - 1;
    assert 3 * (i - 1) * k <= 3 * p * k by {
      assert i - 1 <= p;
      assert (p - (i - 1)) * k >= 0;
    }
    assert 3 * p * k + 3 * p * (n - k) == 3 * p * n;
    assert m + 3 * p <= 3 * (m - 1);
    assert (3 * (m - 1) - m - 3 * p) * n >= 0;
  }

  lemma CellBudgetBound(m: nat, n: nat)
    ensures CellBudget(m, n) <= 3 * m * n
  {
    assert m > 0 ==> 3 * m * n == 3 * (m - 1) * n + 3 * n;
  }

  /** `hirschbergalgc` returns a longest common subsequence. `cells` counts the
      table cells all its calls of algorithm B compute, `depth` its levels of
      recursion. */
  method AlgorithmC<T(==)>(A: seq<T>, B: seq<T>)
    returns (C: seq<T>, ghost cells: nat, ghost depth: nat)
    requires |A| >= 1 || |B| == 0
    ensures Common(C, A, B)
    ensures forall c :: Common(c, A, B) ==> |c| <= |C|
    ensures cells <= 3 * |A| * |B|
    ensures depth <= Levels(|A|)
  {
    C, cells, depth := Reconstruct(A, B);
    CellBudgetBound(|A|, |B|);
    forall c | Common(c, A, B)
      ensures |c| <= |C|
    {
      NoneLonger(c, A, B);
    }
  }

  lemma EmptyCommon<T>(A: seq<T>, B: seq<T>)
    requires B == []
    ensures Common([], A, B) && Length(A, B) == 0
  {
  }

  method Reconstruct<T(==)>(A: seq<T>, B: seq<T>)
    returns (C: seq<T>, ghost cells: nat, ghost depth: nat)
    requires |A| >= 1 || |B| == 0
    ensures Common(C, A, B) && |C| == Length(A, B)
    ensures cells <= CellBudget(|A|, |B|)
    ensures depth <= Levels(|A|)
    decreases |A|
  {
    hide Length, Subsequence, FirstBest;
    cells, depth := 0, 1;
    var m, n := |A|, |B|;
    if n == 0 {
      EmptyCommon(A, B);
      return [], 0, 1;
    }
    if m == 1 {
      CommonOfOne(A, B);
      if A[0] in B {
        return A, 0, 1;
      } else {
        return [], 0, 1;
      }
    }
    var i := m / 2;
    var k, c0 := Midpoint(A, B, i);
    var C1, c1, d1 := Reconstruct(A[..i], B[..k]);
    var C2, c2, d2 := Reconstruct(A[i..], B[k..]);
    C := C1 + C2;
    CommonJoin(C1, C2, A, B, i, k);
    cells := c0 + c1 + c2;
    CellBudgetSplit(m, n, i, k);
    depth := 1 + Max(d1, d2);
    LevelsMonotone(i, (m + 1) / 2);
  }

  /** The call tree of `hirschbergalgc` on (A, B) has at most `fuel` levels. */
  predicate Returns<T(==)>(fuel: nat, A: seq<T>, B: seq<T>)
  {
    && fuel > 0
    && (|| |B| == 0
        || |A| == 1
        || (var i := |A| / 2;
            var k := FirstBest(A, B, i, |B|);
            && Returns(fuel - 1, A[..i], B[..k])
            && Returns(fuel - 1, A[i..], B[k..])))
  }

  ghost predicate Terminates<T>(A: seq<T>, B: seq<T>) {
    exists fuel: nat :: Returns(fuel, A, B)
  }

  /** Algorithm C returns exactly when A is non-empty or B is empty: on an empty A
      and a non-empty B its second recursive call repeats its own arguments. */
  lemma {:induction false} ReturnsIff<T>(A: seq<T>, B: seq<T>)
    ensures Terminates(A, B) <==> (|A| >= 1 || |B| == 0)
  {
    if |A| >= 1 || |B| == 0 {
      ReturnsInLevels(A, B, Levels(|A|));
      assert Returns(Levels(|A|), A, B);
    } else {
      forall fuel: nat
        ensures !Returns(fuel, A, B)
      {
        EmptyNeverReturns(fuel, A, B);
      }
    }
  }

  lemma {:induction false} ReturnsInLevels<T>(A: seq<T>, B: seq<T>, fuel: nat)
    requires |A| >= 1 || |B| == 0
    requires fuel >= Levels(|A|)
    ensures Returns(fuel, A, B)
    decreases |A|
  {
    if |B| != 0 && |A| != 1 {
      var i := |A| / 2;
      var k := FirstBest(A, B, i, |B|);
      LevelsMonotone(i, (|A| + 1) / 2);
      ReturnsInLevels(A[..i], B[..k], fuel - 1);
      ReturnsInLevels(A[i..], B[k..], fuel - 1);
    }
  }

  lemma {:induction false} EmptyNeverReturns<T>(fuel: nat, A: seq<T>, B: seq<T>)
    requires |A| == 0 && |B| > 0
    ensures !Returns(fuel, A, B)
  {
    if fuel > 0 {
      var k := FirstBest(A, B, 0, |B|);
      assert Score(A, B, 0, 0) == Score(A, B, 0, k) == 0;
      assert k == 0 && A[0..] == A && B[k..] == B;
      EmptyNeverReturns(fuel - 1, A, B);
    }
  }
}
