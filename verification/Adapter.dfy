/** The hardware serialiser `mkToBit` and deserialiser `mkFromBit`: messages of `asz`
    bits travel as words of `n` bits, highest word first, zero padded on top. */
module Adapter {
  import opened Bits

  /** Words per message. */
  function Words(asz: nat, n: nat): (k: nat)
    requires asz >= 1 && n >= 1
    ensures k >= 1 && asz <= n * k < asz + n
  {
    var k := (asz + n - 1) / n;
    assert asz + n - 1 == n * k + (asz + n - 1) % n;
    k
  }

  // ------------------------------------------------------------ word streams

  function Flatten<T>(cs: seq<seq<T>>): seq<T> {
    if cs == [] then [] else cs[0] + Flatten(cs[1..])
  }

  lemma {:induction false} FlattenSnoc<T>(cs: seq<seq<T>>, c: seq<T>)
    ensures Flatten(cs + [c]) == Flatten(cs) + c
    decreases |cs|
  {
    if cs == [] {
      assert Flatten([c]) == c + Flatten([]);
    } else {
      assert (cs + [c])[1..] == cs[1..] + [c];
      FlattenSnoc(cs[1..], c);
    }
  }

  /** Streams cut into chunks of one length: a prefix of the stream holds a prefix of
      the chunks. */
  lemma {:induction false} ChunksPrefix<T>(cs: seq<seq<T>>, p: seq<T>, ds: seq<seq<T>>, r: seq<T>, k: nat)
    requires forall i :: 0 <= i < |cs| ==> |cs[i]| == k
    requires forall i :: 0 <= i < |ds| ==> |ds[i]| == k
    requires |r| < k && Flatten(cs) + p <= Flatten(ds) + r
    ensures cs <= ds
    decreases |cs|
  {
    if cs != [] {
      assert |Flatten(cs)| >= |cs[0]| == k;
      var s, t := Flatten(cs) + p, Flatten(ds) + r;
      assert cs[0] == s[..k] == t[..k] == ds[0];
      assert Flatten(cs[1..]) + p == s[k..];
      assert Flatten(ds[1..]) + r == t[k..];
      ChunksPrefix(cs[1..], p, ds[1..], r, k);
      assert cs == [cs[0]] + cs[1..] && ds == [ds[0]] + ds[1..];
    }
  }

  /** The words that carry each value. */
  function Chunks(values: seq<nat>, n: nat, k: nat): seq<seq<nat>> {
    seq(|values|, i requires 0 <= i < |values| => Digits(values[i], n, k))
  }

  // --------------------------------------------------------------- serialiser

  /** What the serialiser's registers say about its past: every word handed out so far,
      in order, given the values entered so far. */
  predicate Serialised(n: nat, asz: nat, fifo: seq<nat>, count: nat, entered: seq<nat>, emitted: seq<nat>)
    requires n >= 1 && asz >= 1
  {
    var k := Words(asz, n);
    && |fifo| <= 1 && |fifo| <= |entered|
    && count < k && (fifo == [] ==> count == 0)
    && entered[|entered| - |fifo|..] == fifo
    && (forall i :: 0 <= i < |entered| ==> entered[i] < Pow2(asz))
    && emitted == Flatten(Chunks(entered[..|entered| - |fifo|], n, k))
                  + (if fifo == [] then [] else Digits(fifo[0], n, k)[..count])
  }

  lemma TopSlice(v: nat, a: nat, b: nat, n: nat)
    ensures Shr(Low(Shl(v, b), b + (a + n)), b + a) == Low(Shr(v, a), n)
  {
    hide Pow2, Shr, Low, Shl;
    ShlLow(v, b, a + n);
    var y := Low(v, a + n);
    assert 0 < Pow2(b);
    CutUnique(Shl(y, b), b, y, 0);
    CutTwice(Shl(y, b), b, a);
    CutTwice(v, a, n);
    Cut(v, a);
    CutUnique(y, a, Low(Shr(v, a), n), Low(v, a));
  }

  /** Shifting the register left and taking its top word picks the next digit. */
  lemma TopWord(v: nat, n: nat, k: nat, c: nat)
    requires c < k && n * k >= n
    ensures Shr(Low(Shl(v, c * n), n * k), n * k - n) == Digits(v, n, k)[c]
  {
    hide Pow2, Shr, Low, Shl, Digits;
    var a, b := n * (k - 1 - c), c * n;
    DigitAt(v, n, k, c);
    assert n * k == b + (a + n);
    TopSlice(v, a, b, n);
  }

  class ToBit {
    const n: nat
    const asz: nat
    var fifo: seq<nat>
    var count: nat
    ghost var entered: seq<nat>
    ghost var emitted: seq<nat>

    ghost predicate Valid()
      reads this
    {
      n >= 1 && asz >= 1 && Serialised(n, asz, fifo, count, entered, emitted)
    }

    constructor (n: nat, asz: nat)
      requires n >= 1 && asz >= 1
      ensures Valid() && this.n == n && this.asz == asz && entered == [] && emitted == [] && fifo == []
    {
      this.n, this.asz := n, asz;
      fifo, count, entered, emitted := [], 0, [], [];
    }

    /** Ready when the one-place FIFO is empty. */
    method Enq(val: nat)
      requires Valid() && fifo == [] && val < Pow2(asz)
      modifies this
      ensures Valid() && fifo == [val] && count == 0
      ensures entered == old(entered) + [val] && emitted == old(emitted)
    {
      fifo := [val];
      entered := entered + [val];
      assert entered[..|entered| - 1] == old(entered);
      assert old(entered)[..|old(entered)|] == old(entered);
      assert entered[|entered| - 1..] == fifo;
    }

    /** The word at the head: the next digit of the stored value. */
    method First() returns (w: nat)
      requires Valid() && fifo != []
      ensures w == Digits(fifo[0], n, Words(asz, n))[count]
    {
      var aszn := n * Words(asz, n);
      assert aszn >= n by { MulMonotone(1, Words(asz, n), n); }
      TopWord(fifo[0], n, Words(asz, n), count);
      w := Shr(Low(Shl(fifo[0], count * n), aszn), aszn - n);
    }

    method Deq()
      requires Valid() && fifo != []
      modifies this
      ensures Valid() && entered == old(entered)
      ensures emitted == old(emitted) + [Digits(old(fifo)[0], n, Words(asz, n))[old(count)]]
      ensures fifo == if old(count) == Words(asz, n) - 1 then [] else old(fifo)
      ensures count == if old(count) == Words(asz, n) - 1 then 0 else old(count) + 1
    {
      ghost var k := Words(asz, n);
      ghost var d := Digits(fifo[0], n, k);
      emitted := emitted + [d[count]];
      assert d[..count] + [d[count]] == d[..count + 1];
      if count == Words(asz, n) - 1 {
        ghost var e := entered[..|entered| - 1];
        assert entered == e + fifo;
        assert Chunks(entered, n, k) == Chunks(e, n, k) + [d];
        FlattenSnoc(Chunks(e, n, k), d);
        assert d[..k] == d;
        count := 0;
        fifo := [];
        assert entered[..|entered|] == entered;
      } else {
        count := count + 1;
      }
    }
  }

  // ------------------------------------------------------------- deserialiser

  /** What the deserialiser's registers say about its past: the messages completed so
      far, given the words received so far. Nothing else in the buffer matters. */
  predicate Deserialised(n: nat, asz: nat, buff: nat, count: nat, fifo: seq<nat>,
                         chunks: seq<seq<nat>>, part: seq<nat>, left: seq<nat>)
    requires n >= 1 && asz >= 1
  {
    var k := Words(asz, n);
    && |fifo| <= 1 && count == |part| < k
    && (forall i :: 0 <= i < |chunks| ==> |chunks[i]| == k)
    && left + fifo == seq(|chunks|, i requires 0 <= i < |chunks| => Low(Number(chunks[i], n), asz))
    && Low(buff, n * count) == Number(part, n)
  }

  /** Shifting a word in keeps the words already counted, whatever the rest holds. */
  lemma ShiftIn(buff: nat, x: nat, n: nat, c: nat)
    requires x < Pow2(n)
    ensures Low(Shl(buff, n) + x, n * (c + 1)) == Shl(Low(buff, n * c), n) + x
  {
    hide Pow2, Shr, Low, Shl;
    CutUnique(Shl(buff, n) + x, n, buff, x);
    CutTwice(Shl(buff, n) + x, n, n * c);
    assert n + n * c == n * (c + 1);
  }

  class FromBit {
    const n: nat
    const asz: nat
    var fbnbuff: nat
    var count: nat
    var fifo: seq<nat>
    ghost var chunks: seq<seq<nat>>
    ghost var part: seq<nat>
    ghost var left: seq<nat>

    ghost predicate Valid()
      reads this
    {
      n >= 1 && asz >= 1 && Deserialised(n, asz, fbnbuff, count, fifo, chunks, part, left)
    }

    /** The buffer register may hold anything: only its counted words are ever used. */
    constructor (n: nat, asz: nat, stale: nat)
      requires n >= 1 && asz >= 1
      ensures Valid() && this.n == n && this.asz == asz
      ensures chunks == [] && part == [] && left == [] && fifo == [] && fbnbuff == stale
    {
      this.n, this.asz := n, asz;
      fbnbuff, count, fifo := stale, 0, [];
      chunks, part, left := [], [], [];
    }

    /** Ready unless the word would complete a message while the FIFO is full. */
    method Enq(x: nat)
      requires Valid() && x < Pow2(n)
      requires count < Words(asz, n) - 1 || fifo == []
      modifies this
      ensures Valid() && left == old(left)
      ensures old(count) == Words(asz, n) - 1 ==>
                chunks == old(chunks) + [old(part) + [x]] && part == [] && |fifo| == 1
      ensures old(count) < Words(asz, n) - 1 ==>
                chunks == old(chunks) && part == old(part) + [x] && fifo == old(fifo)
    {
      hide Pow2, Shr, Low, Shl;
      ghost var k := Words(asz, n);
      ghost var full := part + [x];
      assert full[..|part|] == part;
      ghost var wide := Shl(fbnbuff, n) + x;
      ShiftIn(fbnbuff, x, n, count);
      assert Low(wide, n * (count + 1)) == Number(full, n);
      var newbuff := Low(Shl(fbnbuff, n) + x, n * Words(asz, n));
      fbnbuff := newbuff;
      if count == Words(asz, n) - 1 {
        count := 0;
        fifo := [Low(newbuff, asz)];
        chunks, part := chunks + [full], [];
        assert Low(newbuff, n * 0) == 0 by { LowZero(newbuff, n); }
        assert newbuff == Number(full, n);
        assert left + fifo == old(left + fifo) + [Low(Number(full, n), asz)];
      } else {
        assert n * (count + 1) <= n * k by { MulMonotone(count + 1, k, n); }
        LowTwice(wide, n * (count + 1), n * k);
        count := count + 1;
        part := full;
      }
    }

    method Deq() returns (v: nat)
      requires Valid() && fifo != []
      modifies this
      ensures Valid() && v == old(fifo)[0] && fifo == []
      ensures left == old(left) + [v] && chunks == old(chunks) && part == old(part)
    {
      v := fifo[0];
      fifo := [];
      left := left + [v];
    }
  }

  lemma LowZero(x: nat, n: nat)
    ensures Low(x, n * 0) == 0
  {
  }

  // ------------------------------------------------------------- the whole link

  /** Values leave the deserialiser in the order they entered the serialiser, and
      unchanged, however their operations interleave and whatever the buffer held. */
  lemma DeliveredInOrder(n: nat, asz: nat,
                         tfifo: seq<nat>, tcount: nat, entered: seq<nat>, emitted: seq<nat>,
                         buff: nat, fcount: nat, ffifo: seq<nat>,
                         chunks: seq<seq<nat>>, part: seq<nat>, left: seq<nat>)
    requires n >= 1 && asz >= 1
    requires Serialised(n, asz, tfifo, tcount, entered, emitted)
    requires Deserialised(n, asz, buff, fcount, ffifo, chunks, part, left)
    requires Flatten(chunks) + part <= emitted
    ensures left + ffifo <= entered
  {
    hide Pow2, Shr, Low, Shl, Flatten;
    var k := Words(asz, n);
    var sent := entered[..|entered| - |tfifo|];
    var r := if tfifo == [] then [] else Digits(tfifo[0], n, k)[..tcount];
    ChunksPrefix(chunks, part, Chunks(sent, n, k), r, k);
    forall i | 0 <= i < |chunks|
      ensures (left + ffifo)[i] == entered[i]
    {
      var v := entered[i];
      assert chunks[i] == Chunks(sent, n, k)[i] == Digits(v, n, k);
      Pow2Monotone(asz, n * k);
      NumberOfDigits(v, n, k);
      LowSmall(v, asz);
    }
  }

  /** One hop of the link, as the testbench drives it: the head word moves from the
      serialiser to the deserialiser. */
  method Transfer(tb: ToBit, fb: FromBit)
    requires tb.Valid() && fb.Valid() && tb.n == fb.n && tb.asz == fb.asz
    requires tb.fifo != [] && (fb.count < Words(fb.asz, fb.n) - 1 || fb.fifo == [])
    requires Flatten(fb.chunks) + fb.part == tb.emitted
    modifies tb, fb
    ensures tb.Valid() && fb.Valid() && tb.entered == old(tb.entered) && fb.left == old(fb.left)
    ensures Flatten(fb.chunks) + fb.part == tb.emitted
    ensures |tb.emitted| == old(|tb.emitted|) + 1
    ensures fb.left + fb.fifo <= tb.entered
  {
    assert tb.count < Words(tb.asz, tb.n);
    hide Pow2, Shr, Low, Shl, Flatten, Serialised, Deserialised, Digits;
    var w := tb.First();
    DigitsLength(tb.fifo[0], tb.n, Words(tb.asz, tb.n));
    DigitsBound(tb.fifo[0], tb.n, Words(tb.asz, tb.n));
    ghost var part, chunks := fb.part, fb.chunks;
    fb.Enq(w);
    FlattenSnoc(chunks, part + [w]);
    assert Flatten(chunks) + (part + [w]) == (Flatten(chunks) + part) + [w];
    tb.Deq();
    DeliveredInOrder(tb.n, tb.asz, tb.fifo, tb.count, tb.entered, tb.emitted,
                     fb.fbnbuff, fb.count, fb.fifo, fb.chunks, fb.part, fb.left);
  }
}
