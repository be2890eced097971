/** Unsigned bit strings as natural numbers: shifts are products and quotients by
    powers of two, truncation is a remainder, and a message is a number written in
    base 2^n. */
module Bits {

  function Pow2(k: nat): (r: nat)
    ensures r >= 1
  {
    if k == 0 then 1 else 2 * Pow2(k - 1)
  }

  function Quotient(x: nat, d: nat): nat
    requires d > 0
  {
    x / d
  }

  /** `x >> k`. */
  function Shr(x: nat, k: nat): nat {
    Quotient(x, Pow2(k))
  }

  /** `x << k`. */
  function Shl(x: nat, k: nat): nat {
    Pow2(k) * x
  }

  /** `x` truncated to its `k` low bits. */
  function Low(x: nat, k: nat): nat {
    x % Pow2(k)
  }

  lemma MulMonotone(a: nat, b: nat, c: nat)
    requires a <= b
    ensures a * c <= b * c
  {
    assert b * c - a * c == (b - a) * c;
  }

  lemma MulAssociative(a: int, b: int, c: int)
    ensures a * (b * c) == (a * b) * c
  {
  }

  lemma {:induction false} Pow2Add(a: nat, b: nat)
    ensures Pow2(a + b) == Pow2(a) * Pow2(b)
    decreases a
  {
    if a > 0 {
      Pow2Add(a - 1, b);
      MulAssociative(2, Pow2(a - 1), Pow2(b));
    }
  }

  lemma {:induction false} Pow2Monotone(a: nat, b: nat)
    requires a <= b
    ensures Pow2(a) <= Pow2(b)
    decreases b
  {
    if a < b {
      Pow2Monotone(a, b - 1);
    }
  }

  // ------------------------------------------------------ cutting and joining

  lemma MultipleIsLarge(d: int, z: int)
    requires d > 0 && z != 0
    ensures z * d >= d || z * d <= -d
  {
    if z >= 1 {
      MulMonotone(1, z, d);
    } else {
      MulMonotone(1, -z, d);
      assert -z * d == -(z * d);
    }
  }

  lemma QuotientUnique(x: nat, d: nat, q: nat, r: nat)
    requires d > 0 && r < d && x == d * q + r
    ensures x / d == q && x % d == r
  {
    var q', r' := x / d, x % d;
    assert x == d * q' + r';
    assert (q - q') * d == r' - r;
    if q != q' {
      MultipleIsLarge(d, q - q');
    }
  }

  lemma Cut(x: nat, k: nat)
    ensures x == Shl(Shr(x, k), k) + Low(x, k) && Low(x, k) < Pow2(k)
  {
  }

  lemma CutUnique(x: nat, k: nat, q: nat, r: nat)
    requires r < Pow2(k) && x == Shl(q, k) + r
    ensures Shr(x, k) == q && Low(x, k) == r
  {
    hide Pow2;
    QuotientUnique(x, Pow2(k), q, r);
  }

  lemma ShlZero(x: nat, k: nat)
    ensures Shl(0, k) == 0 && Shl(x, 0) == x && Pow2(0) == 1
  {
  }

  lemma ShlAdd(x: nat, y: nat, k: nat)
    ensures Shl(x + y, k) == Shl(x, k) + Shl(y, k)
  {
    hide Pow2;
  }

  lemma ShlShl(x: nat, a: nat, b: nat)
    ensures Shl(Shl(x, b), a) == Shl(x, a + b)
  {
    hide Pow2;
    Pow2Add(a, b);
    MulAssociative(Pow2(a), Pow2(b), x);
  }

  lemma JoinBound(lo: nat, hi: nat, a: nat, b: nat)
    requires lo < Pow2(a) && hi < Pow2(b)
    ensures lo + Shl(hi, a) < Pow2(a + b)
  {
    hide Pow2;
    Pow2Add(a, b);
    MulMonotone(hi, Pow2(b) - 1, Pow2(a));
    assert Pow2(a) * (Pow2(b) - 1) == Pow2(a) * Pow2(b) - Pow2(a);
  }

  /** Cutting at bit `a` and then at bit `b` is cutting at bit `a + b`. */
  lemma CutTwice(x: nat, a: nat, b: nat)
    ensures Shr(Shr(x, a), b) == Shr(x, a + b)
    ensures Low(x, a + b) == Low(x, a) + Shl(Low(Shr(x, a), b), a)
  {
    hide Pow2, Shr, Low, Shl;
    var y := Shr(x, a);
    Cut(x, a);
    Cut(y, b);
    ShlAdd(Shl(Shr(y, b), b), Low(y, b), a);
    ShlShl(Shr(y, b), a, b);
    JoinBound(Low(x, a), Low(y, b), a, b);
    CutUnique(x, a + b, Shr(y, b), Low(x, a) + Shl(Low(y, b), a));
  }

  /** A number below 2^(a+b) has a quotient below 2^b at bit `a`. */
  lemma ShrBound(x: nat, a: nat, b: nat)
    requires x < Pow2(a + b)
    ensures Shr(x, a) < Pow2(b)
  {
    hide Pow2, Shr, Low;
    Pow2Add(a, b);
    Cut(x, a);
    if Shr(x, a) >= Pow2(b) {
      MulMonotone(Pow2(b), Shr(x, a), Pow2(a));
    }
  }

  lemma LowSmall(x: nat, k: nat)
    requires x < Pow2(k)
    ensures Low(x, k) == x && Shr(x, k) == 0
  {
    hide Pow2, Shr, Low, Shl;
    ShlZero(0, k);
    CutUnique(x, k, 0, x);
  }

  lemma LowTwice(x: nat, a: nat, b: nat)
    requires a <= b
    ensures Low(Low(x, b), a) == Low(x, a)
  {
    hide Pow2, Shr, Low, Shl;
    CutTwice(x, a, b - a);
    Cut(x, a);
    CutUnique(Low(x, b), a, Low(Shr(x, a), b - a), Low(x, a));
  }

  /** Shifting left drops the bits above the register. */
  lemma ShlLow(v: nat, b: nat, m: nat)
    ensures Low(Shl(v, b), b + m) == Shl(Low(v, m), b)
  {
    hide Pow2, Shr, Low, Shl;
    Cut(v, m);
    ShlAdd(Shl(Shr(v, m), m), Low(v, m), b);
    ShlShl(Shr(v, m), b, m);
    ShlZero(0, b);
    assert 0 < Pow2(b);
    JoinBound(0, Low(v, m), b, m);
    CutUnique(Shl(v, b), b + m, Shr(v, m), Shl(Low(v, m), b));
  }

  // ------------------------------------------------------------------ bitwise or

  function Or(a: nat, b: nat): nat
    decreases a + b
  {
    if a == 0 && b == 0 then 0
    else 2 * Or(a / 2, b / 2) + if a % 2 == 1 || b % 2 == 1 then 1 else 0
  }

  lemma {:induction false} OrZero(a: nat)
    ensures Or(a, 0) == a
  {
    if a > 0 {
      OrZero(a / 2);
    }
  }

  lemma {:induction false} OrCommutes(a: nat, b: nat)
    ensures Or(a, b) == Or(b, a)
    decreases a + b
  {
    if a > 0 || b > 0 {
      OrCommutes(a / 2, b / 2);
    }
  }

  /** Or-ing numbers whose bits do not overlap adds them. */
  lemma {:induction false} OrDisjoint(hi: nat, lo: nat, k: nat)
    requires lo < Pow2(k)
    ensures Or(Shl(hi, k), lo) == Shl(hi, k) + lo
    ensures Or(lo, Shl(hi, k)) == Shl(hi, k) + lo
    decreases k
  {
    if k == 0 {
      OrZero(hi);
    } else {
      var x := Pow2(k - 1) * hi;
      MulAssociative(2, Pow2(k - 1), hi);
      OrDisjoint(hi, lo / 2, k - 1);
      assert 2 * x != 0 || lo != 0 ==>
          Or(2 * x, lo) == 2 * Or(2 * x / 2, lo / 2) + if lo % 2 == 1 then 1 else 0;
    }
    OrCommutes(Shl(hi, k), lo);
  }

  // ----------------------------------------------------------------- base 2^n

  /** The `k` low digits of `v`, highest first. */
  function Digits(v: nat, n: nat, k: nat): (r: seq<nat>)
    ensures |r| == k
    decreases k
  {
    if k == 0 then [] else Digits(Shr(v, n), n, k - 1) + [Low(v, n)]
  }

  lemma DigitsLength(v: nat, n: nat, k: nat)
    ensures |Digits(v, n, k)| == k
  {
  }

  lemma {:induction false} DigitsBound(v: nat, n: nat, k: nat)
    ensures forall i :: 0 <= i < k ==> Digits(v, n, k)[i] < Pow2(n)
    decreases k
  {
    if k > 0 {
      hide Pow2, Shr, Low, Shl;
      DigitsBound(Shr(v, n), n, k - 1);
      Cut(v, n);
    }
  }

  /** The number written by the digits `ws`, highest first. */
  function Number(ws: seq<nat>, n: nat): nat {
    if ws == [] then 0 else Shl(Number(ws[..|ws| - 1], n), n) + ws[|ws| - 1]
  }

  lemma {:induction false} NumberBound(ws: seq<nat>, n: nat)
    requires forall i :: 0 <= i < |ws| ==> ws[i] < Pow2(n)
    ensures Number(ws, n) < Pow2(n * |ws|)
  {
    if ws != [] {
      hide Pow2, Shl;
      var k := |ws| - 1;
      NumberBound(ws[..k], n);
      JoinBound(ws[k], Number(ws[..k], n), n, n * k);
      assert n + n * k == n * |ws|;
    }
  }

  lemma MulPred(n: nat, k: nat)
    requires k > 0
    ensures n * k == n + n * (k - 1)
  {
  }

  lemma {:induction false} NumberOfDigits(v: nat, n: nat, k: nat)
    requires v < Pow2(n * k)
    ensures Number(Digits(v, n, k), n) == v
    decreases k
  {
    if k > 0 {
      hide Pow2, Shr, Low, Shl;
      MulPred(n, k);
      ShrBound(v, n, n * (k - 1));
      var d := Digits(v, n, k);
      assert d[..k - 1] == Digits(Shr(v, n), n, k - 1);
      NumberOfDigits(Shr(v, n), n, k - 1);
      Cut(v, n);
    }
  }

  lemma {:induction false} DigitAt(v: nat, n: nat, k: nat, i: nat)
    requires i < k
    ensures 0 <= n * (k - 1 - i) && Digits(v, n, k)[i] == Low(Shr(v, n * (k - 1 - i)), n)
    decreases k
  {
    hide Low;
    if i < k - 1 {
      hide Shr, Pow2;
      DigitAt(Shr(v, n), n, k - 1, i);
      CutTwice(v, n, n * (k - 2 - i));
      assert n + n * (k - 2 - i) == n * (k - 1 - i);
    } else {
      assert n * (k - 1 - i) == 0;
    }
  }
}
