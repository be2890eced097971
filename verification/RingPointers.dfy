/** Arithmetic of ring pointers: a ring has 4*Q slots of 64 bytes, a pointer is the byte
    offset of a slot, and a slot is a running count modulo the number of slots. */
module RingPointers {
  import opened Bits

  const ITEM: nat := 64

  // ------------------------------------------------------------- pointer arithmetic

  /** Adding one to a count moves its slot to the next, around the ring. */
  lemma SlotNext(n: nat, S: nat)
    requires S >= 1
    ensures (n + 1) % S == if n % S + 1 == S then 0 else n % S + 1
  {
    var q, r := n / S, n % S;
    assert n == S * q + r;
    if r + 1 == S {
      assert n + 1 == S * (q + 1) + 0;
      QuotientUnique(n + 1, S, q + 1, 0);
    } else {
      QuotientUnique(n + 1, S, q, r + 1);
    }
  }

  /** Counts less than a ring apart have different slots. */
  lemma SlotsDiffer(a: nat, b: nat, S: nat)
    requires S >= 1 && a < b < a + S
    ensures a % S != b % S
  {
    var q, r := a / S, a % S;
    assert a == S * q + r;
    if r + (b - a) < S {
      QuotientUnique(b, S, q, r + (b - a));
    } else {
      assert b == S * (q + 1) + (r + (b - a) - S);
      QuotientUnique(b, S, q + 1, r + (b - a) - S);
    }
  }

  lemma SlotSame(a: nat, S: nat)
    requires S >= 1
    ensures (a + S) % S == a % S
  {
    assert a + S == S * (a / S + 1) + a % S by { assert a == S * (a / S) + a % S; }
    QuotientUnique(a + S, S, a / S + 1, a % S);
  }

  /** The distance from `b` back to `a`, computed from their slots. */
  lemma SlotDistance(a: nat, b: nat, S: nat)
    requires S >= 1 && a <= b < a + S
    ensures 0 <= S + a % S - b % S - 1
    ensures (S + a % S - b % S - 1) % S == S - 1 - (b - a)
  {
    var q, r, d := a / S, a % S, b - a;
    assert a == S * q + r;
    if r + d < S {
      QuotientUnique(b, S, q, r + d);
      QuotientUnique(S - 1 - d, S, 0, S - 1 - d);
    } else {
      var w := r + d - S;
      NextMultiple(S, q);
      QuotientUnique(b, S, q + 1, w);
      QuotientUnique(S + r - w - 1, S, 1, S - 1 - d);
    }
  }

  lemma NextMultiple(S: nat, q: nat)
    ensures S * (q + 1) == S * q + S
  {
  }

  lemma ScaledMod(y: nat, Q: nat)
    requires Q >= 1
    ensures ITEM * y % (ITEM * Q) == ITEM * (y % Q)
  {
    var q, r := y / Q, y % Q;
    assert y == Q * q + r;
    assert ITEM * y == (ITEM * Q) * q + ITEM * r;
    QuotientUnique(ITEM * y, ITEM * Q, q, ITEM * r);
  }

  lemma FourTimes(Q: nat, q: nat, b: nat)
    ensures Q * (4 * q + b) == 4 * Q * q + Q * b
  {
    assert Q * (4 * q) == 4 * Q * q;
  }

  lemma DivisionOf(x: nat, d: nat)
    requires d > 0
    ensures x == d * (x / d) + x % d && 0 <= x % d < d && x / d >= 0
  {
  }

  lemma ModOfMod(n: nat, Q: nat)
    requires Q >= 1
    ensures n % (4 * Q) % Q == n % Q
  {
    var q, r := n / (4 * Q), n % (4 * Q);
    DivisionOf(n, 4 * Q);
    DivisionOf(r, Q);
    FourTimes(Q, q, r / Q);
    QuotientUnique(n, Q, 4 * q + r / Q, r % Q);
  }

  /** A pointer is at a quarter of the ring exactly when its count is a multiple of Q. */
  lemma QuarterPointer(n: nat, Q: nat)
    requires Q >= 1
    ensures ITEM * (n % (4 * Q)) % (ITEM * Q) == 0 <==> n % Q == 0
  {
    ScaledMod(n % (4 * Q), Q);
    ModOfMod(n, Q);
  }

  /** The free space the driver computes from two pointers. */
  lemma SpaceFromPointers(a: nat, b: nat, S: nat)
    requires S >= 1 && a <= b < a + S
    ensures (ITEM * S + ITEM * (a % S) - ITEM * (b % S) - ITEM) % (ITEM * S) == ITEM * (S - 1 - (b - a))
  {
    SlotDistance(a, b, S);
    var z := S + a % S - b % S - 1;
    assert a % S < S && b % S < S;
    ScaledMod(z, S);
  }
}
