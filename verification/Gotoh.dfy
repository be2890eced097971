/** Gotoh's affine-gap alignment: the three-matrix form, the two linear-space
    forms and the Myers-Miller midpoint scan.

    Costs are counted in half units, so g = 2.0 is 4, h = 0.5 is 1 and a
    substitution of 1.0 is 2; every value the source computes is a multiple of
    one half, so nothing is lost. */
module Gotoh {
  import opened Reversal

  const G := 4
  const H := 1

  function Weight(a: char, b: char): int {
    if a == b then 0 else 2
  }

  function Gap(k: nat): int {
    G + k * H
  }

  function Min(x: int, y: int): int {
    if x <= y then x else y
  }

  // -------------------------------------------------------------- edit scripts

  datatype Op = Convert(a: char, b: char) | Delete(a: char) | Insert(b: char)

  /** The string a script reads. */
  function From(s: seq<Op>): seq<char> {
    if s == [] then []
    else From(Init(s)) + if Last(s).Insert? then [] else [Last(s).a]
  }

  /** The string a script writes. */
  function To(s: seq<Op>): seq<char> {
    if s == [] then []
    else To(Init(s)) + if Last(s).Delete? then [] else [Last(s).b]
  }

  predicate Turns(s: seq<Op>, A: seq<char>, B: seq<char>) {
    From(s) == A && To(s) == B
  }

  predicate SameGap(x: Op, y: Op) {
    (x.Delete? && y.Delete?) || (x.Insert? && y.Insert?)
  }

  /** Length of the maximal run of one kind of gap that ends the script. */
  function Run(s: seq<Op>): (r: nat)
    requires s != []
    ensures 1 <= r <= |s|
    ensures forall k :: |s| - r <= k < |s| - 1 ==> SameGap(s[k], Last(s))
    ensures r < |s| ==> !SameGap(s[|s| - r - 1], Last(s))
  {
    if |s| == 1 || !SameGap(s[|s| - 2], Last(s)) then 1 else 1 + Run(Init(s))
  }

  /** Substitution costs plus g + h*k for every maximal run of k insertions or
      of k deletions. */
  function Cost(s: seq<Op>): int
    decreases |s|
  {
    if s == [] then 0
    else if Last(s).Convert? then Cost(Init(s)) + Weight(Last(s).a, Last(s).b)
    else Cost(s[..|s| - Run(s)]) + Gap(Run(s))
  }

  // -------------------------------------------------------- algebra of scripts

  /** What appending `x` to `s` adds. */
  function Charge(s: seq<Op>, x: Op): int {
    if x.Convert? then Weight(x.a, x.b)
    else H + if s != [] && SameGap(Last(s), x) then 0 else G
  }

  lemma CostSnoc(s: seq<Op>, x: Op)
    ensures Cost(s + [x]) == Cost(s) + Charge(s, x)
  {
    var t := s + [x];
    assert Init(t) == s;
    if !x.Convert? {
      if s != [] && SameGap(Last(s), x) {
        assert Run(t) == 1 + Run(s);
        assert t[..|t| - Run(t)] == s[..|s| - Run(s)];
      } else {
        assert Run(t) == 1;
      }
    }
  }

  /** Joining two scripts merges the two runs that meet, and saves one g. */
  function Merge(s: seq<Op>, t: seq<Op>): int {
    if s != [] && t != [] && SameGap(Last(s), t[0]) then G else 0
  }

  lemma {:induction false} CostConcat(s: seq<Op>, t: seq<Op>)
    ensures Cost(s + t) == Cost(s) + Cost(t) - Merge(s, t)
    decreases |t|
  {
    if t == [] {
      assert s + t == s;
    } else {
      var u, x := Init(t), Last(t);
      assert t == u + [x];
      assert s + t == (s + u) + [x];
      CostConcat(s, u);
      CostSnoc(s + u, x);
      CostSnoc(u, x);
    }
  }

  lemma {:induction false} CostReverse(s: seq<Op>)
    ensures Cost(Reverse(s)) == Cost(s)
    decreases |s|
  {
    if s != [] {
      var u, x := Init(s), Last(s);
      assert s == u + [x];
      assert Reverse(s) == [x] + Reverse(u);
      CostReverse(u);
      CostConcat([x], Reverse(u));
      CostConcat(u, [x]);
    }
  }

  lemma FromToSnoc(s: seq<Op>, x: Op)
    ensures From(s + [x]) == From(s) + if x.Insert? then [] else [x.a]
    ensures To(s + [x]) == To(s) + if x.Delete? then [] else [x.b]
  {
    assert Init(s + [x]) == s;
  }

  lemma {:induction false} FromToConcat(s: seq<Op>, t: seq<Op>)
    ensures From(s + t) == From(s) + From(t)
    ensures To(s + t) == To(s) + To(t)
    decreases |t|
  {
    if t == [] {
      assert s + t == s;
    } else {
      assert s + t == (s + Init(t)) + [Last(t)];
      FromToConcat(s, Init(t));
      FromToSnoc(s + Init(t), Last(t));
    }
  }

  lemma {:induction false} FromToReverse(s: seq<Op>)
    ensures From(Reverse(s)) == Reverse(From(s))
    ensures To(Reverse(s)) == Reverse(To(s))
    decreases |s|
  {
    hide From, To;
    EmptyScript();
    if s != [] {
      var u, x := Init(s), Last(s);
      assert s == u + [x];
      FromToSnoc(u, x);
      assert Reverse(s) == [x] + Reverse(u);
      FromToReverse(u);
      FromToConcat([x], Reverse(u));
      FromToSnoc([], x);
      assert [] + [x] == [x];
      ReverseConcat(From(u), From([x]));
      ReverseConcat(To(u), To([x]));
    }
  }

  lemma {:induction false} FromToEmpty(s: seq<Op>)
    ensures From(s) == [] ==> forall k :: 0 <= k < |s| ==> s[k].Insert?
    ensures To(s) == [] ==> forall k :: 0 <= k < |s| ==> s[k].Delete?
    decreases |s|
  {
    hide From, To;
    if s != [] {
      FromToEmpty(Init(s));
      assert s == Init(s) + [Last(s)];
      FromToSnoc(Init(s), Last(s));
    }
  }

  // --------------------------------------------------- the cost in plain numbers

  /** Characters converted to a different one. */
  function Changed(s: seq<Op>): nat {
    if s == [] then 0
    else Changed(Init(s)) + if Last(s).Convert? && Last(s).a != Last(s).b then 1 else 0
  }

  /** Characters deleted or inserted. */
  function InGaps(s: seq<Op>): nat {
    if s == [] then 0 else InGaps(Init(s)) + if Last(s).Convert? then 0 else 1
  }

  /** Steps that delete or insert after a step of another kind. */
  function Opened(s: seq<Op>): nat {
    if s == [] then 0
    else
      var u, x := Init(s), Last(s);
      Opened(u) + if (x.Delete? && !(u != [] && Last(u).Delete?)) || (x.Insert? && !(u != [] && Last(u).Insert?)) then 1 else 0
  }

  /** In half units: a changed character costs 2, opening a gap 4 and each character in a
      gap 1. */
  function PlainCost(s: seq<Op>): nat {
    2 * Changed(s) + 4 * Opened(s) + InGaps(s)
  }

  lemma {:induction false} CostCounts(s: seq<Op>)
    ensures Cost(s) == PlainCost(s)
    decreases |s|
  {
    if s != [] {
      assert s == Init(s) + [Last(s)];
      CostSnoc(Init(s), Last(s));
      CostCounts(Init(s));
    }
  }

  lemma {:induction false} FreeIsEqual(s: seq<Op>)
    requires Changed(s) == 0 && InGaps(s) == 0
    ensures From(s) == To(s)
    decreases |s|
  {
    if s != [] {
      FreeIsEqual(Init(s));
    }
  }

  function Keeps(A: seq<char>): (s: seq<Op>)
    ensures |s| == |A|
  {
    seq(|A|, k requires 0 <= k < |A| => Convert(A[k], A[k]))
  }

  lemma {:induction false} KeepsIsFree(A: seq<char>)
    ensures Turns(Keeps(A), A, A) && Cost(Keeps(A)) == 0
    decreases |A|
  {
    if A != [] {
      KeepsIsFree(Init(A));
      assert Keeps(A) == Keeps(Init(A)) + [Convert(Last(A), Last(A))];
      FromToSnoc(Keeps(Init(A)), Convert(Last(A), Last(A)));
      CostSnoc(Keeps(Init(A)), Convert(Last(A), Last(A)));
    }
  }

  /** The least plain cost of a script. */
  ghost predicate Least(v: int, A: seq<char>, B: seq<char>) {
    && (exists s :: Turns(s, A, B) && PlainCost(s) == v)
    && (forall s :: Turns(s, A, B) ==> v <= PlainCost(s))
  }

  lemma CheapestIsLeast(v: int, A: seq<char>, B: seq<char>)
    ensures Cheapest(v, A, B, 4, 4) <==> Least(v, A, B)
  {
    hide Cost, From, To, PlainCost;
    forall s
      ensures PlainCost(s) == Cost(s) + Lead(s, 4) + Trail(s, 4)
    {
      CostCounts(s);
    }
  }

  /** An alignment is free exactly for equal strings, and never less than free. */
  lemma FreeIffEqual(A: seq<char>, B: seq<char>)
    ensures Cheapest(0, A, B, 4, 4) <==> A == B
    ensures forall v :: Cheapest(v, A, B, 4, 4) ==> v >= 0
  {
    hide Cost, From, To;
    forall s
      ensures Cost(s) >= 0 && Lead(s, 4) == 0 && Trail(s, 4) == 0
    {
      CostCounts(s);
    }
    if A == B {
      KeepsIsFree(A);
      assert Turns(Keeps(A), A, B) && Cost(Keeps(A)) + Lead(Keeps(A), 4) + Trail(Keeps(A), 4) == 0;
    }
    if Cheapest(0, A, B, 4, 4) {
      var s :| Turns(s, A, B) && Cost(s) + Lead(s, 4) + Trail(s, 4) == 0;
      CostCounts(s);
      FreeIsEqual(s);
    }
  }

  // ------------------------------------------------------------- recurrences

  /** A boundary cell. `t` replaces g for a run of deletions that starts the script. */
  function Edge(i: nat, j: nat, t: int): int
    requires i == 0 || j == 0
  {
    if i == 0 && j == 0 then 0
    else if i == 0 then Gap(j)
    else t + i * H
  }

  /** C: the cheapest way to turn the first i characters of A into the first j of B. */
  function Best(A: seq<char>, B: seq<char>, t: int, i: nat, j: nat): int
    requires i <= |A| && j <= |B|
    decreases i + j, 1
  {
    if i == 0 || j == 0 then Edge(i, j, t)
    else Min(Min(BestDelete(A, B, t, i, j), BestInsert(A, B, t, i, j)),
             Best(A, B, t, i - 1, j - 1) + Weight(A[i - 1], B[j - 1]))
  }

  /** D: the same, when the last of those characters of A is deleted. */
  function BestDelete(A: seq<char>, B: seq<char>, t: int, i: nat, j: nat): int
    requires i <= |A| && j <= |B|
    decreases i + j, 0
  {
    if i == 0 then Edge(i, j, t) + G
    else if j == 0 then Edge(i, j, t)
    else Min(BestDelete(A, B, t, i - 1, j), Best(A, B, t, i - 1, j) + G) + H
  }

  /** I: the same, when the last of those characters of B is inserted. */
  function BestInsert(A: seq<char>, B: seq<char>, t: int, i: nat, j: nat): int
    requires i <= |A| && j <= |B|
    decreases i + j, 0
  {
    if j == 0 then Edge(i, j, t) + G
    else Min(BestInsert(A, B, t, i, j - 1), Best(A, B, t, i, j - 1) + G) + H
  }

  // ---------------------------------------------------------------- optimality

  /** Correction for a leading run of deletions, opened at `t` instead of g. */
  function Lead(s: seq<Op>, t: int): int {
    if s != [] && s[0].Delete? then t - G else 0
  }

  /** Correction for a trailing run of deletions, opened at `t` instead of g. */
  function Trail(s: seq<Op>, t: int): int {
    if s != [] && Last(s).Delete? then t - G else 0
  }

  lemma {:induction false} OneRun(s: seq<Op>)
    requires s != []
    requires (forall k :: 0 <= k < |s| ==> s[k].Delete?) || (forall k :: 0 <= k < |s| ==> s[k].Insert?)
    ensures Cost(s) == Gap(|s|)
    ensures s[0].Delete? ==> |From(s)| == |s| && To(s) == []
    ensures s[0].Insert? ==> |To(s)| == |s| && From(s) == []
    decreases |s|
  {
    assert s == Init(s) + [Last(s)];
    CostSnoc(Init(s), Last(s));
    if |s| > 1 {
      OneRun(Init(s));
    }
  }

  lemma CostEmpty()
    ensures Cost([]) == 0
  {
  }

  lemma EmptyScript()
    ensures Turns([], [], [])
  {
  }

  lemma LowerBoundEdge(s: seq<Op>, A: seq<char>, B: seq<char>, t: int, i: nat, j: nat)
    requires i <= |A| && j <= |B| && Turns(s, A[..i], B[..j]) && (i == 0 || j == 0)
    ensures Best(A, B, t, i, j) <= Cost(s) + Lead(s, t)
    ensures s != [] && Last(s).Delete? ==> BestDelete(A, B, t, i, j) <= Cost(s) + Lead(s, t)
    ensures s != [] && Last(s).Insert? && i > 0 ==> BestInsert(A, B, t, i, j) <= Cost(s) + Lead(s, t)
  {
    hide Cost, Run;
    FromToEmpty(s);
    assert i == 0 ==> From(s) == [];
    assert j == 0 ==> To(s) == [];
    assert |From(s)| == i && |To(s)| == j;
    if s == [] {
      CostEmpty();
    } else {
      OneRun(s);
    }
  }

  /** No script is cheaper than the recurrences say. */
  lemma {:induction false} LowerBound(s: seq<Op>, A: seq<char>, B: seq<char>, t: int, i: nat, j: nat)
    requires i <= |A| && j <= |B| && Turns(s, A[..i], B[..j])
    ensures Best(A, B, t, i, j) <= Cost(s) + Lead(s, t)
    ensures s != [] && Last(s).Delete? ==> BestDelete(A, B, t, i, j) <= Cost(s) + Lead(s, t)
    ensures s != [] && Last(s).Insert? && i > 0 ==> BestInsert(A, B, t, i, j) <= Cost(s) + Lead(s, t)
    decreases |s|
  {
    hide Cost, Run, From, To;
    if i == 0 || j == 0 {
      LowerBoundEdge(s, A, B, t, i, j);
    } else {
      EmptyScript();
      var u, x := Init(s), Last(s);
      assert s == u + [x];
      CostSnoc(u, x);
      FromToSnoc(u, x);
      if x.Convert? {
        assert From(u) == A[..i - 1] && To(u) == B[..j - 1];
        LowerBound(u, A, B, t, i - 1, j - 1);
      } else if x.Delete? {
        assert From(u) == A[..i - 1] && To(u) == B[..j];
        LowerBound(u, A, B, t, i - 1, j);
      } else {
        assert From(u) == A[..i] && To(u) == B[..j - 1];
        LowerBound(u, A, B, t, i, j - 1);
      }
    }
  }

  /** A run that deletes all of A. */
  function Deletes(A: seq<char>): (s: seq<Op>)
    ensures |s| == |A| && forall k :: 0 <= k < |s| ==> s[k] == Delete(A[k])
  {
    seq(|A|, k requires 0 <= k < |A| => Delete(A[k]))
  }

  /** A run that inserts all of B. */
  function Inserts(B: seq<char>): (s: seq<Op>)
    ensures |s| == |B| && forall k :: 0 <= k < |s| ==> s[k] == Insert(B[k])
  {
    seq(|B|, k requires 0 <= k < |B| => Insert(B[k]))
  }

  lemma {:induction false} RunsTurn(X: seq<char>)
    ensures Turns(Deletes(X), X, []) && Turns(Inserts(X), [], X)
  {
    if X != [] {
      RunsTurn(Init(X));
      assert Deletes(X) == Deletes(Init(X)) + [Delete(Last(X))];
      assert Inserts(X) == Inserts(Init(X)) + [Insert(Last(X))];
      FromToSnoc(Deletes(Init(X)), Delete(Last(X)));
      FromToSnoc(Inserts(Init(X)), Insert(Last(X)));
    }
  }

  lemma Snoc(u: seq<Op>, x: Op, t: int)
    requires u != []
    ensures Cost(u + [x]) == Cost(u) + Charge(u, x)
    ensures Lead(u + [x], t) == Lead(u, t)
    ensures From(u + [x]) == From(u) + if x.Insert? then [] else [x.a]
    ensures To(u + [x]) == To(u) + if x.Delete? then [] else [x.b]
  {
    CostSnoc(u, x);
    FromToSnoc(u, x);
  }

  lemma {:induction false} EdgeAttained(A: seq<char>, B: seq<char>, t: int, i: nat, j: nat) returns (s: seq<Op>)
    requires i <= |A| && j <= |B| && (i == 0 || j == 0)
    ensures Turns(s, A[..i], B[..j]) && Cost(s) + Lead(s, t) == Edge(i, j, t)
    ensures i > 0 ==> s != [] && Last(s).Delete?
  {
    RunsTurn(A[..i]);
    RunsTurn(B[..j]);
    s := if i == 0 then Inserts(B[..j]) else Deletes(A[..i]);
    if s != [] {
      OneRun(s);
    }
  }

  /** Some script attains each recurrence. */
  lemma {:induction false} BestAttained(A: seq<char>, B: seq<char>, t: int, i: nat, j: nat) returns (s: seq<Op>)
    requires i <= |A| && j <= |B|
    ensures Turns(s, A[..i], B[..j]) && Cost(s) + Lead(s, t) <= Best(A, B, t, i, j)
    decreases i + j, 1
  {
    if i == 0 || j == 0 {
      s := EdgeAttained(A, B, t, i, j);
    } else if Best(A, B, t, i, j) == BestDelete(A, B, t, i, j) {
      s := BestDeleteAttained(A, B, t, i, j);
    } else if Best(A, B, t, i, j) == BestInsert(A, B, t, i, j) {
      s := BestInsertAttained(A, B, t, i, j);
    } else {
      var u := BestAttained(A, B, t, i - 1, j - 1);
      var x := Convert(A[i - 1], B[j - 1]);
      s := u + [x];
      CostSnoc(u, x);
      FromToSnoc(u, x);
    }
  }

  lemma {:induction false} BestDeleteAttained(A: seq<char>, B: seq<char>, t: int, i: nat, j: nat) returns (s: seq<Op>)
    requires 0 < i <= |A| && j <= |B|
    ensures Turns(s, A[..i], B[..j]) && Cost(s) + Lead(s, t) <= BestDelete(A, B, t, i, j)
    ensures s != [] && Last(s).Delete?
    decreases i + j, 0
  {
    hide Cost, Run, From, To;
    EmptyScript();
    if j == 0 {
      s := EdgeAttained(A, B, t, i, j);
    } else {
      var u;
      if i > 1 && BestDelete(A, B, t, i - 1, j) <= Best(A, B, t, i - 1, j) + G {
        u := BestDeleteAttained(A, B, t, i - 1, j);
      } else {
        u := BestAttained(A, B, t, i - 1, j);
      }
      assert To(u) == B[..j] != [];
      s := u + [Delete(A[i - 1])];
      Snoc(u, Delete(A[i - 1]), t);
    }
  }

  lemma {:induction false} BestInsertAttained(A: seq<char>, B: seq<char>, t: int, i: nat, j: nat) returns (s: seq<Op>)
    requires 0 < i <= |A| && 0 < j <= |B|
    ensures Turns(s, A[..i], B[..j]) && Cost(s) + Lead(s, t) <= BestInsert(A, B, t, i, j)
    ensures s != [] && Last(s).Insert?
    decreases i + j, 0
  {
    hide Cost, Run, From, To;
    EmptyScript();
    var u;
    if j > 1 && BestInsert(A, B, t, i, j - 1) <= Best(A, B, t, i, j - 1) + G {
      u := BestInsertAttained(A, B, t, i, j - 1);
    } else {
      u := BestAttained(A, B, t, i, j - 1);
    }
    assert From(u) == A[..i] != [];
    s := u + [Insert(B[j - 1])];
    Snoc(u, Insert(B[j - 1]), t);
  }

  /** `v` is the least cost over all scripts that turn A into B, when a leading run
      of deletions is opened at `tb` and a trailing one at `te`. */
  ghost predicate Cheapest(v: int, A: seq<char>, B: seq<char>, tb: int, te: int) {
    && (exists s :: Turns(s, A, B) && Cost(s) + Lead(s, tb) + Trail(s, te) == v)
    && (forall s :: Turns(s, A, B) ==> v <= Cost(s) + Lead(s, tb) + Trail(s, te))
  }

  /** The recurrence value is the optimum over all scripts. */
  lemma BestIsCheapest(A: seq<char>, B: seq<char>, t: int)
    ensures Cheapest(Best(A, B, t, |A|, |B|), A, B, t, G)
  {
    assert A[..|A|] == A && B[..|B|] == B;
    var s := BestAttained(A, B, t, |A|, |B|);
    LowerBound(s, A, B, t, |A|, |B|);
    assert Turns(s, A, B) && Cost(s) + Lead(s, t) + Trail(s, G) == Best(A, B, t, |A|, |B|);
    forall u | Turns(u, A, B)
      ensures Best(A, B, t, |A|, |B|) <= Cost(u) + Lead(u, t) + Trail(u, G)
    {
      LowerBound(u, A, B, t, |A|, |B|);
    }
  }

  // --------------------------------------------------------- midpoint theorem

  /** Type 1: the two halves meet at a vertex. */
  function Meet(A: seq<char>, B: seq<char>, i: nat, j: nat, tb: int, te: int): int
    requires i <= |A| && j <= |B|
  {
    Best(A[..i], B, tb, i, j) + Best(Reverse(A[i..]), Reverse(B), te, |A| - i, |B| - j)
  }

  /** Type 2: a run of deletions crosses the middle, and is opened only once. */
  function Cross(A: seq<char>, B: seq<char>, i: nat, j: nat, tb: int, te: int): int
    requires i <= |A| && j <= |B|
  {
    BestDelete(A[..i], B, tb, i, j) + BestDelete(Reverse(A[i..]), Reverse(B), te, |A| - i, |B| - j) - G
  }

  /** The shortest prefix of `s` that reads `i` characters; it ends in a reading step. */
  lemma {:induction false} CutAfter(s: seq<Op>, i: nat) returns (k: nat)
    requires 1 <= i <= |From(s)|
    ensures 1 <= k <= |s|
    ensures From(s[..k]) == From(s)[..i] && From(s[k..]) == From(s)[i..]
    ensures To(s[..k]) + To(s[k..]) == To(s)
    ensures !s[k - 1].Insert?
    ensures i < |From(s)| ==> k < |s|
    decreases |s|
  {
    var u, x := Init(s), Last(s);
    if i <= |From(u)| {
      k := CutAfter(u, i);
      assert u[..k] == s[..k];
    } else {
      k := |s|;
    }
    assert s[..k] + s[k..] == s;
    FromToConcat(s[..k], s[k..]);
  }

  /** Ends of a script cut in two, the right part reversed. */
  lemma JoinCost(s: seq<Op>, u: seq<Op>, tb: int, te: int)
    requires s != [] && u != []
    ensures Cost(s + Reverse(u)) == Cost(s) + Cost(u) - (if SameGap(Last(s), Last(u)) then G else 0)
    ensures Lead(s + Reverse(u), tb) == Lead(s, tb)
    ensures Trail(s + Reverse(u), te) == Lead(u, te)
  {
    CostConcat(s, Reverse(u));
    CostReverse(u);
  }

  /** What the two scans read: a prefix problem and a reversed suffix problem. */
  lemma Halves(A: seq<char>, B: seq<char>, i: nat, j: nat)
    requires i <= |A| && j <= |B|
    ensures A[..i][..i] == A[..i]
    ensures Reverse(A[i..])[..|A| - i] == Reverse(A[i..])
    ensures Reverse(B)[..|B| - j] == Reverse(B[j..])
    ensures A[..i] + A[i..] == A && B[..j] + B[j..] == B
    ensures Reverse(Reverse(A[i..])) == A[i..] && Reverse(Reverse(B[j..])) == B[j..]
  {
    ReverseInvolutive(A[i..]);
    ReverseInvolutive(B[j..]);
  }

  lemma JoinTurns(s: seq<Op>, u: seq<Op>, A: seq<char>, B: seq<char>, i: nat, j: nat)
    requires i <= |A| && j <= |B|
    requires Turns(s, A[..i], B[..j]) && Turns(u, Reverse(A[i..]), Reverse(B[j..]))
    ensures Turns(s + Reverse(u), A, B)
  {
    FromToConcat(s, Reverse(u));
    FromToReverse(u);
    Halves(A, B, i, j);
  }

  /** Both kinds of midpoint value belong to some script. */
  lemma MidpointAttained(A: seq<char>, B: seq<char>, i: nat, j: nat, tb: int, te: int, cross: bool)
    returns (s: seq<Op>)
    requires 1 <= i < |A| && j <= |B|
    ensures Turns(s, A, B)
    ensures Cost(s) + Lead(s, tb) + Trail(s, te) <=
            if cross then Cross(A, B, i, j, tb, te) else Meet(A, B, i, j, tb, te)
  {
    hide Best, BestDelete, BestInsert, Cost;
    var p, q;
    Halves(A, B, i, j);
    if cross {
      p := BestDeleteAttained(A[..i], B, tb, i, j);
      q := BestDeleteAttained(Reverse(A[i..]), Reverse(B), te, |A| - i, |B| - j);
    } else {
      p := BestAttained(A[..i], B, tb, i, j);
      q := BestAttained(Reverse(A[i..]), Reverse(B), te, |A| - i, |B| - j);
    }
    assert p != [] && q != [];
    s := p + Reverse(q);
    JoinTurns(p, q, A, B, i, j);
    JoinCost(p, q, tb, te);
  }

  /** A script cut in two where it has read `i` characters, the right part reversed. */
  lemma CutScript(s: seq<Op>, A: seq<char>, B: seq<char>, i: nat) returns (p: seq<Op>, q: seq<Op>, j: nat)
    requires Turns(s, A, B) && 1 <= i < |A|
    ensures j <= |B| && p != [] && q != [] && !Last(p).Insert?
    ensures Turns(p, A[..i], B[..j]) && Turns(q, Reverse(A[i..]), Reverse(B[j..]))
    ensures s == p + Reverse(q)
  {
    hide From, To;
    var k := CutAfter(s, i);
    p, q := s[..k], Reverse(s[k..]);
    j := |To(p)|;
    assert B[..j] == To(p) && B[j..] == To(s[k..]);
    FromToReverse(s[k..]);
    ReverseInvolutive(s[k..]);
  }

  lemma HalfBounds(p: seq<Op>, q: seq<Op>, A: seq<char>, B: seq<char>, i: nat, j: nat, tb: int, te: int)
    requires 1 <= i < |A| && j <= |B| && p != [] && q != []
    requires Turns(p, A[..i], B[..j]) && Turns(q, Reverse(A[i..]), Reverse(B[j..]))
    ensures Meet(A, B, i, j, tb, te) <= Cost(p) + Lead(p, tb) + Cost(q) + Lead(q, te)
    ensures Last(p).Delete? && Last(q).Delete? ==>
              Cross(A, B, i, j, tb, te) <= Cost(p) + Lead(p, tb) + Cost(q) + Lead(q, te) - G
  {
    hide Best, BestDelete, BestInsert, Cost, From, To;
    Halves(A, B, i, j);
    LowerBound(p, A[..i], B, tb, i, j);
    LowerBound(q, Reverse(A[i..]), Reverse(B), te, |A| - i, |B| - j);
  }

  /** Every script passes some midpoint that costs no more. */
  lemma MidpointBelow(s: seq<Op>, A: seq<char>, B: seq<char>, i: nat, tb: int, te: int) returns (j: nat)
    requires Turns(s, A, B) && 1 <= i < |A|
    ensures j <= |B|
    ensures Min(Meet(A, B, i, j, tb, te), Cross(A, B, i, j, tb, te)) <= Cost(s) + Lead(s, tb) + Trail(s, te)
  {
    hide Meet, Cross, Cost, Turns;
    var p, q;
    p, q, j := CutScript(s, A, B, i);
    JoinCost(p, q, tb, te);
    HalfBounds(p, q, A, B, i, j, tb, te);
  }

  /** A value that is least among all midpoints is the cost of the best script. */
  lemma MidpointTheorem(v: int, A: seq<char>, B: seq<char>, i: nat, tb: int, te: int)
    requires 1 <= i < |A|
    requires forall j :: 0 <= j <= |B| ==> v <= Meet(A, B, i, j, tb, te) && v <= Cross(A, B, i, j, tb, te)
    requires exists j :: 0 <= j <= |B| && (v == Meet(A, B, i, j, tb, te) || v == Cross(A, B, i, j, tb, te))
    ensures Cheapest(v, A, B, tb, te)
    ensures tb == G && te == G ==> v == Best(A, B, G, |A|, |B|)
  {
    forall u | Turns(u, A, B)
      ensures v <= Cost(u) + Lead(u, tb) + Trail(u, te)
    {
      var j := MidpointBelow(u, A, B, i, tb, te);
    }
    var j :| 0 <= j <= |B| && (v == Meet(A, B, i, j, tb, te) || v == Cross(A, B, i, j, tb, te));
    var s := MidpointAttained(A, B, i, j, tb, te, v == Cross(A, B, i, j, tb, te));
    assert Turns(s, A, B) && Cost(s) + Lead(s, tb) + Trail(s, te) == v;
    if tb == G && te == G {
      assert A[..|A|] == A && B[..|B|] == B;
      LowerBound(s, A, B, G, |A|, |B|);
      var b := BestAttained(A, B, G, |A|, |B|);
    }
  }

  // ----------------------------------------------------------------- algorithms

  /** The recurrences of one inner cell and of the boundary, as the loops use them. */
  lemma CellStep(A: seq<char>, B: seq<char>, t: int, i: nat, j: nat)
    requires i <= |A| && j <= |B|
    ensures i == 0 || j == 0 ==> Best(A, B, t, i, j) == Edge(i, j, t)
    ensures i == 0 ==> BestDelete(A, B, t, i, j) == Edge(i, j, t) + G
    ensures j == 0 ==> BestInsert(A, B, t, i, j) == Edge(i, j, t) + G
    ensures i > 0 && j == 0 ==> BestDelete(A, B, t, i, j) == Edge(i, j, t)
    ensures i > 0 && j > 0 ==>
      && BestInsert(A, B, t, i, j) == Min(BestInsert(A, B, t, i, j - 1), Best(A, B, t, i, j - 1) + G) + H
      && BestDelete(A, B, t, i, j) == Min(BestDelete(A, B, t, i - 1, j), Best(A, B, t, i - 1, j) + G) + H
      && Best(A, B, t, i, j) ==
         Min(Min(BestDelete(A, B, t, i, j), BestInsert(A, B, t, i, j)),
             Best(A, B, t, i - 1, j - 1) + Weight(A[i - 1], B[j - 1]))
  {
  }

  /** The cells of the three matrices up to row `i` hold their optima. Column 0 of D
      and row 0 of I are never read. */
  ghost predicate Filled(A: seq<char>, B: seq<char>, i: nat, C: array2<int>, D: array2<int>, I: array2<int>)
    requires i <= |A| + 1
    requires C.Length0 == D.Length0 == I.Length0 == |A| + 1
    requires C.Length1 == D.Length1 == I.Length1 == |B| + 1
    reads C, D, I
  {
    && (forall p, q :: 0 <= p < i && 0 <= q <= |B| ==> C[p, q] == Best(A, B, G, p, q))
    && (forall p, q :: 0 <= p < i && 1 <= q <= |B| ==> D[p, q] == BestDelete(A, B, G, p, q))
    && (forall p, q :: 1 <= p < i && 0 <= q <= |B| ==> I[p, q] == BestInsert(A, B, G, p, q))
  }

  /** Row 0 of the three matrices. */
  method FillFirstRow(A: seq<char>, B: seq<char>, C: array2<int>, D: array2<int>, I: array2<int>)
    requires C.Length0 == D.Length0 == I.Length0 == |A| + 1
    requires C.Length1 == D.Length1 == I.Length1 == |B| + 1
    requires C != D && C != I && D != I && C[0, 0] == 0
    modifies C, D
    ensures Filled(A, B, 1, C, D, I)
  {
    hide Best, BestDelete, BestInsert;
    CellStep(A, B, G, 0, 0);
    for j := 1 to |B| + 1
      invariant forall q :: 0 <= q < j ==> C[0, q] == Best(A, B, G, 0, q)
      invariant forall q :: 1 <= q < j ==> D[0, q] == BestDelete(A, B, G, 0, q)
    {
      CellStep(A, B, G, 0, j);
      C[0, j] := Gap(j);
      D[0, j] := C[0, j] + G;
    }
  }

  /** Row `i` of the three matrices. */
  method FillRow(A: seq<char>, B: seq<char>, i: nat, C: array2<int>, D: array2<int>, I: array2<int>)
    requires 1 <= i <= |A|
    requires C.Length0 == D.Length0 == I.Length0 == |A| + 1
    requires C.Length1 == D.Length1 == I.Length1 == |B| + 1
    requires C != D && C != I && D != I
    requires Filled(A, B, i, C, D, I)
    modifies C, D, I
    ensures Filled(A, B, i + 1, C, D, I)
  {
    hide Best, BestDelete, BestInsert;
    CellStep(A, B, G, i, 0);
    C[i, 0] := Gap(i);
    I[i, 0] := C[i, 0] + G;
    for j := 1 to |B| + 1
      invariant Filled(A, B, i, C, D, I)
      invariant forall q :: 0 <= q < j ==> C[i, q] == Best(A, B, G, i, q)
      invariant forall q :: 1 <= q < j ==> D[i, q] == BestDelete(A, B, G, i, q)
      invariant forall q :: 0 <= q < j ==> I[i, q] == BestInsert(A, B, G, i, q)
    {
      CellStep(A, B, G, i, j);
      I[i, j] := Min(I[i, j - 1], C[i, j - 1] + G) + H;
      D[i, j] := Min(D[i - 1, j], C[i - 1, j] + G) + H;
      C[i, j] := Min(Min(D[i, j], I[i, j]), C[i - 1, j - 1] + Weight(A[i - 1], B[j - 1]));
    }
  }

  /** `gotoh`: the three matrices and the optimal cost. */
  method ThreeMatrices(A: seq<char>, B: seq<char>)
    returns (cost: int, C: array2<int>, D: array2<int>, I: array2<int>)
    ensures Least(cost, A, B)
    ensures C.Length0 == D.Length0 == I.Length0 == |A| + 1
    ensures C.Length1 == D.Length1 == I.Length1 == |B| + 1
    ensures Filled(A, B, |A| + 1, C, D, I)
    ensures cost == C[|A|, |B|]
  {
    hide Best, BestDelete, BestInsert, Cheapest, Least;
    var m, n := |A|, |B|;
    C := new int[m + 1, n + 1]((_, _) => 0);
    D := new int[m + 1, n + 1]((_, _) => 0);
    I := new int[m + 1, n + 1]((_, _) => 0);
    FillFirstRow(A, B, C, D, I);
    for i := 1 to m + 1
      invariant Filled(A, B, i, C, D, I)
    {
      FillRow(A, B, i, C, D, I);
    }
    cost := C[m, n];
    BestIsCheapest(A, B, G);
    CheapestIsLeast(cost, A, B);
  }

  /** One row of the linear-space forms, shared by `gotohb` and `gotohb2`: the inner
      loop turns row i-1 of C and D into row i. `start` is the new CC[0]. */
  method AdvanceRow(A: seq<char>, B: seq<char>, i: nat, t: int, start: int, CC: array<int>, DD: array<int>)
    requires 1 <= i <= |A| && CC.Length == DD.Length == |B| + 1 && CC != DD
    requires start == Best(A, B, t, i, 0)
    requires forall q :: 0 <= q <= |B| ==> CC[q] == Best(A, B, t, i - 1, q)
    requires forall q :: 1 <= q <= |B| ==> DD[q] == BestDelete(A, B, t, i - 1, q)
    modifies CC, DD
    ensures forall q :: 0 <= q <= |B| ==> CC[q] == Best(A, B, t, i, q)
    ensures forall q :: 1 <= q <= |B| ==> DD[q] == BestDelete(A, B, t, i, q)
    ensures DD[0] == old(DD[0])
  {
    var n := |B|;
    hide Best, BestDelete, BestInsert;
    CellStep(A, B, t, i, 0);
    var s := CC[0];
    var c := start;
    CC[0] := c;
    var e := c + G;
    for j := 1 to n + 1
      invariant forall q :: 0 <= q < j ==> CC[q] == Best(A, B, t, i, q)
      invariant forall q :: j <= q <= n ==> CC[q] == Best(A, B, t, i - 1, q)
      invariant forall q :: 1 <= q < j ==> DD[q] == BestDelete(A, B, t, i, q)
      invariant forall q :: j <= q <= n ==> DD[q] == BestDelete(A, B, t, i - 1, q)
      invariant DD[0] == old(DD[0])
      invariant c == Best(A, B, t, i, j - 1)
      invariant e == BestInsert(A, B, t, i, j - 1)
      invariant s == Best(A, B, t, i - 1, j - 1)
    {
      CellStep(A, B, t, i, j);
      e := Min(e, c + G) + H;
      DD[j] := Min(DD[j], CC[j] + G) + H;
      c := Min(Min(DD[j], e), s + Weight(A[i - 1], B[j - 1]));
      s := CC[j];
      CC[j] := c;
    }
  }

  /** Row 0 of the linear-space forms. */
  method FirstRow(A: seq<char>, B: seq<char>, t: int) returns (CC: array<int>, DD: array<int>)
    ensures fresh(CC) && fresh(DD) && CC != DD
    ensures CC.Length == DD.Length == |B| + 1 && DD[0] == 0
    ensures forall q :: 0 <= q <= |B| ==> CC[q] == Best(A, B, t, 0, q)
    ensures forall q :: 1 <= q <= |B| ==> DD[q] == BestDelete(A, B, t, 0, q)
  {
    var n := |B|;
    CC := new int[n + 1](_ => 0);
    DD := new int[n + 1](_ => 0);
    for j := 1 to n + 1
      invariant DD[0] == 0
      invariant forall q :: 0 <= q < j ==> CC[q] == Best(A, B, t, 0, q)
      invariant forall q :: 1 <= q < j ==> DD[q] == BestDelete(A, B, t, 0, q)
    {
      CC[j] := Gap(j);
      DD[j] := CC[j] + G;
    }
  }

  /** `gotohb`: the last rows of C and D; DD[0] keeps its initial 0. */
  method LinearSpace(A: seq<char>, B: seq<char>) returns (CC: array<int>, DD: array<int>)
    ensures CC.Length == DD.Length == |B| + 1
    ensures forall j :: 0 <= j <= |B| ==> CC[j] == Best(A, B, G, |A|, j)
    ensures forall j :: 1 <= j <= |B| ==> DD[j] == BestDelete(A, B, G, |A|, j)
    ensures DD[0] == 0
  {
    CC, DD := FirstRow(A, B, G);
    for i := 1 to |A| + 1
      invariant fresh(CC) && fresh(DD)
      invariant DD[0] == 0
      invariant forall q :: 0 <= q <= |B| ==> CC[q] == Best(A, B, G, i - 1, q)
      invariant forall q :: 1 <= q <= |B| ==> DD[q] == BestDelete(A, B, G, i - 1, q)
    {
      AdvanceRow(A, B, i, G, Gap(i), CC, DD);
    }
  }

  /** `gotohb2`: the same rows when a leading run of deletions is opened at `t`;
      DD[0] becomes CC[0], the cost of deleting all of A. */
  method LinearSpaceFrom(A: seq<char>, B: seq<char>, t: int) returns (CC: array<int>, DD: array<int>)
    ensures CC.Length == DD.Length == |B| + 1
    ensures forall j :: 0 <= j <= |B| ==> CC[j] == Best(A, B, t, |A|, j)
    ensures forall j :: 1 <= j <= |B| ==> DD[j] == BestDelete(A, B, t, |A|, j)
    ensures DD[0] == CC[0]
    ensures A != [] ==> DD[0] == BestDelete(A, B, t, |A|, 0)
  {
    CC, DD := FirstRow(A, B, t);
    for i := 1 to |A| + 1
      invariant fresh(CC) && fresh(DD)
      invariant forall q :: 0 <= q <= |B| ==> CC[q] == Best(A, B, t, i - 1, q)
      invariant forall q :: 1 <= q <= |B| ==> DD[q] == BestDelete(A, B, t, i - 1, q)
    {
      AdvanceRow(A, B, i, t, t + i * H, CC, DD);
    }
    DD[0] := CC[0];
  }

  /** The midpoint scan of `gotohc`: the value it settles on is the optimum for the
      whole problem, whatever the two end charges. */
  method MidpointScan(A: seq<char>, B: seq<char>, tb: int, te: int)
    returns (mintype: int, minj: nat, minsofar: int)
    requires |A| >= 2
    ensures mintype == 1 || mintype == 2
    ensures minj <= |B|
    ensures minsofar == if mintype == 1 then Meet(A, B, |A| / 2, minj, tb, te)
                        else Cross(A, B, |A| / 2, minj, tb, te)
    ensures Cheapest(minsofar, A, B, tb, te)
    ensures tb == G && te == G ==> Least(minsofar, A, B) && minsofar == Best(A, B, G, |A|, |B|)
    ensures mintype == 2 ==> minsofar < Meet(A, B, |A| / 2, minj, tb, te)
    ensures forall j :: 0 <= j < minj ==>
      minsofar < Meet(A, B, |A| / 2, j, tb, te) && minsofar < Cross(A, B, |A| / 2, j, tb, te)
  {
    var n, i := |B|, |A| / 2;
    var CC, DD := LinearSpaceFrom(A[..i], B, tb);
    var RR, SS := LinearSpaceFrom(Reverse(A[i..]), Reverse(B), te);
    mintype, minj, minsofar := 1, 0, 0;
    for j := 0 to n + 1
      invariant mintype == 1 || mintype == 2
      invariant j > 0 ==> minj < j
      invariant j > 0 ==> minsofar == if mintype == 1 then Meet(A, B, i, minj, tb, te)
                                      else Cross(A, B, i, minj, tb, te)
      invariant forall q :: 0 <= q < j ==>
        minsofar <= Meet(A, B, i, q, tb, te) && minsofar <= Cross(A, B, i, q, tb, te)
      invariant j > 0 && mintype == 2 ==> minsofar < Meet(A, B, i, minj, tb, te)
      invariant forall q :: 0 <= q < j && q < minj ==>
        minsofar < Meet(A, B, i, q, tb, te) && minsofar < Cross(A, B, i, q, tb, te)
    {
      var t1 := CC[j] + RR[n - j];
      var t2 := DD[j] + SS[n - j] - G;
      assert t1 == Meet(A, B, i, j, tb, te);
      assert t2 == Cross(A, B, i, j, tb, te);
      if j == 0 || t1 < minsofar {
        mintype, minsofar, minj := 1, t1, j;
      }
      if t2 < minsofar {
        mintype, minsofar, minj := 2, t2, j;
      }
    }
    MidpointTheorem(minsofar, A, B, i, tb, te);
    CheapestIsLeast(minsofar, A, B);
  }
}
