/** The compressed page table of a DMA buffer: the software that builds it from the
    scatterlist, and the hardware that translates a buffer offset with it. */
module SgTable {
  import opened PortalMem

  const SHIFTED: seq<nat> := [0x10_0000, 0x1_0000, 0x1000]  // 1 << 20, 1 << 16, 1 << 12

  // ----------------------------------------------------------------- software

  function PageNumber(e: Entry): nat {
    e.page * PAGE / (PagesOf(e.order) * PAGE)
  }

  /** First half of `send_fd_to_portal`: the page number written for each entry, in units
      of the entry's own size, and the number of entries of each size. */
  method SendEntries(es: seq<Entry>) returns (list: seq<nat>, regions: seq<nat>)
    requires forall i :: 0 <= i < |es| ==> IsOrder(es[i].order)
    ensures |list| == |es| && forall i :: 0 <= i < |es| ==> list[i] == PageNumber(es[i])
    ensures regions == [Count(es, 8), Count(es, 4), Count(es, 0)]
  {
    list, regions := [], [0, 0, 0];
    assert es[..0] == [];
    for i := 0 to |es|
      invariant |list| == i && forall k :: 0 <= k < i ==> list[k] == PageNumber(es[k])
      invariant regions == [Count(es[..i], 8), Count(es[..i], 4), Count(es[..i], 0)]
    {
      var addr := es[i].page * PAGE;
      var len := PagesOf(es[i].order) * PAGE;
      assert IsOrder(es[i].order);
      assert es[..i + 1] == es[..i] + [es[i]];
      TotalSnoc(es[..i], es[i]);
      var j := 0;
      while j < 3 && len != SHIFTED[j]
        invariant 0 <= j <= 3
        invariant forall k :: 0 <= k < j ==> len != SHIFTED[k]
      {
        j := j + 1;
      }
      assert SHIFTED[if es[i].order == 8 then 0 else if es[i].order == 4 then 1 else 2] == len;
      regions := regions[j := regions[j] + 1];
      addr := addr / SHIFTED[j];
      list := list + [addr];
    }
    assert es[..|es|] == es;
  }

  /** Second half: the three border words. `entryCount` and `idxOffset` are 8-bit, `border`
      is 64-bit; the or of `border << 8` and `idxOffset` is a sum. */
  method BorderWords(regions: seq<nat>) returns (borderVal: seq<nat>)
    requires |regions| == 3
    requires forall i :: 0 <= i < 3 ==> regions[i] < 0x1_0000_0000  // uint32_t
    ensures borderVal == Borders(regions[0], regions[1], regions[2])
  {
    hide Byte, Wrap64;
    var border: nat, entryCount: nat := 0, 0;
    borderVal := [];
    ghost var n8, n4, n0 := regions[0], regions[1], regions[2];
    for i := 0 to 3
      invariant i == 0 ==> border == 0 && entryCount == 0 && borderVal == []
      invariant i == 1 ==> border == 16 * n8 && entryCount == Byte(n8) && borderVal == [n8 * 256]
      invariant i == 2 ==> border == 256 * n8 + 16 * n4 && entryCount == Byte(n8 + n4)
                           && borderVal == [n8 * 256, (16 * n8 + n4) * 256 + Byte(n8 - 16 * n8)]
      invariant i == 3 ==> borderVal == Borders(n8, n4, n0)
    {
      WrapSmall(border + regions[i]);
      WrapSmall((border + regions[i]) * 256);
      WrapSmall((border + regions[i]) * 16);
      ByteZero();
      ByteAdd(n8, -16 * n8);
      ByteAdd(n8 + n4, -256 * n8 - 16 * n4);
      ByteAdd(n8, n4);
      var idxOffset := Byte(entryCount - border);
      entryCount := Byte(entryCount + regions[i]);
      border := Wrap64(border + regions[i]);
      borderVal := borderVal + [Wrap64(border * 256) + idxOffset];
      border := Wrap64(border * if i < 2 then 16 else 0x1000);  // << (shifts[i] - shifts[i+1])
    }
  }

  /** Arithmetic on `unsigned char`. */
  function Byte(x: int): nat {
    x % 256
  }

  lemma ByteZero()
    ensures Byte(0) == 0
  {
  }

  lemma ByteAdd(a: int, b: int)
    ensures Byte(Byte(a) + b) == Byte(a + b)
  {
  }

  function Wrap64(x: nat): nat {
    x % 0x1_0000_0000_0000_0000
  }

  lemma WrapSmall(x: nat)
    requires x < 0x1_0000_0000_0000_0000
    ensures Wrap64(x) == x
  {
  }

  /** Each border word: where its size ends, in units of that size, above the 8-bit
      difference between a list index and a unit number. */
  function Borders(n8: nat, n4: nat, n0: nat): (b: seq<nat>)
    ensures |b| == 3
  {
    [n8 * 256,
     (16 * n8 + n4) * 256 + Byte(n8 - 16 * n8),
     (256 * n8 + 16 * n4 + n0) * 256 + Byte(n8 + n4 - 256 * n8 - 16 * n4)]
  }

  // ----------------------------------------------------------------- hardware

  datatype Region = Region(barrier: nat, idxOffset: nat)

  /** A border word as the region memory keeps it: 36 bits, of which 28 are the barrier. */
  function Unpack(borderVal: nat): Region {
    Region(borderVal / 256 % 0x1000_0000, borderVal % 256)
  }

  /** Stages 2 to 4: page size code (3, 2 or 1) and the index into the list's pages, or an
      error when no region covers the offset. */
  function Lookup(r8: Region, r4: Region, r0: Region, off: nat): Option<(int, int)> {
    Select(r8, r4, r0, off / 0x10_0000 % 0x100_0000, off / 0x1_0000 % 0x100_0000, off / 0x1000 % 0x1000_0000)
  }

  /** The comparisons on the offset in units of each size, and the 8-bit index sum. */
  function Select(r8: Region, r4: Region, r0: Region, off8: nat, off4: nat, off0: nat): Option<(int, int)> {
    if off8 < r8.barrier % 0x100_0000 then Some((3, Byte(Byte(off8) + r8.idxOffset)))
    else if off4 < r4.barrier % 0x100_0000 then Some((2, Byte(Byte(off4) + r4.idxOffset)))
    else if off0 < r0.barrier then Some((1, Byte(Byte(off0) + r0.idxOffset)))
    else None
  }

  /** Stage 5: the page number over the offset inside the page, in 40 bits. */
  function Concat(pageSize: int, page: nat, off: nat): nat {
    var value := off % 0x10_0000;
    if pageSize == 3 then page % 0x10_0000 * 0x10_0000 + value
    else if pageSize == 2 then page % 0x100_0000 * 0x1_0000 + value % 0x1_0000
    else page % 0x1000_0000 * 0x1000 + value % 0x1000
  }

  /** The whole pipeline for one list: its border words and its 256 slots of page memory.
      Beyond the last border an error is reported, and the address that still comes out is
      undefined. */
  function Translate(borderVal: seq<nat>, list: seq<nat>, off: nat): Option<nat>
    requires |borderVal| == 3 && |list| == 256
  {
    match Lookup(Unpack(borderVal[0]), Unpack(borderVal[1]), Unpack(borderVal[2]), off)
    case None => None
    case Some((size, p)) => Some(Concat(size, list[p], off))
  }

  // ---------------------------------------------------------------- list walk

  /** The entry that a linear walk finds for buffer page `p`. */
  function WalkIndex(es: seq<Entry>, p: nat): (i: nat)
    requires p < TotalPages(es)
    ensures i < |es|
  {
    if p < PagesOf(es[0].order) then 0 else 1 + WalkIndex(es[1..], p - PagesOf(es[0].order))
  }

  /** The same index in closed form for a list of n8, n4 and then smaller entries. */
  function IndexOf(n8: nat, n4: nat, p: nat): int {
    if p / 256 < n8 then p / 256
    else if p / 16 < 16 * n8 + n4 then n8 + p / 16 - 16 * n8
    else n8 + n4 + p - 256 * n8 - 16 * n4
  }

  function OrderOf(n8: nat, n4: nat, p: nat): nat {
    if p / 256 < n8 then 8 else if p / 16 < 16 * n8 + n4 then 4 else 0
  }

  lemma OrderedTail(es: seq<Entry>)
    requires es != [] && Ordered(es)
    ensures Ordered(es[1..]) && IsOrder(es[0].order)
    ensures forall o :: o > es[0].order ==> Count(es[1..], o) == 0
  {
    forall o | o > es[0].order
      ensures Count(es[1..], o) == 0
    {
      CountAbsent(es[1..], o);
    }
  }

  lemma {:induction false} CountAbsent(es: seq<Entry>, o: nat)
    requires forall i :: 0 <= i < |es| ==> es[i].order != o
    ensures Count(es, o) == 0
    decreases |es|
  {
    if es != [] {
      CountAbsent(es[1..], o);
    }
  }

  /** The closed form follows the walk past the first entry. */
  lemma IndexStep(o: nat, n8: nat, n4: nat, p: nat)
    requires IsOrder(o)
    requires (o == 8 ==> n8 >= 1) && (o == 4 ==> n8 == 0 && n4 >= 1) && (o == 0 ==> n8 == 0 && n4 == 0)
    ensures p < PagesOf(o) ==> IndexOf(n8, n4, p) == 0 && OrderOf(n8, n4, p) == o
    ensures p >= PagesOf(o) ==>
      var m8, m4, q := if o == 8 then n8 - 1 else n8, if o == 4 then n4 - 1 else n4, p - PagesOf(o);
      IndexOf(n8, n4, p) == 1 + IndexOf(m8, m4, q) && OrderOf(n8, n4, p) == OrderOf(m8, m4, q)
  {
    if o == 8 {
      assert p >= 256 ==> (p - 256) / 256 == p / 256 - 1 && (p - 256) / 16 == p / 16 - 16;
      assert p < 256 ==> p / 256 == 0;
    } else if o == 4 {
      assert p >= 16 ==> (p - 16) / 16 == p / 16 - 1;
      assert p < 16 ==> p / 16 == 0;
    }
  }

  lemma {:induction false} WalkClosedForm(es: seq<Entry>, p: nat)
    requires Ordered(es) && p < TotalPages(es)
    ensures WalkIndex(es, p) == IndexOf(Count(es, 8), Count(es, 4), p)
    ensures es[WalkIndex(es, p)].order == OrderOf(Count(es, 8), Count(es, 4), p)
    decreases |es|
  {
    hide IndexOf, OrderOf, PagesOf;
    OrderedTail(es);
    IndexStep(es[0].order, Count(es, 8), Count(es, 4), p);
    if p >= PagesOf(es[0].order) {
      WalkClosedForm(es[1..], p - PagesOf(es[0].order));
    }
  }

  // -------------------------------------------------------- index correctness

  function SizeCode(order: nat): nat {
    if order == 8 then 3 else if order == 4 then 2 else 1
  }

  lemma UnpackBorders(n8: nat, n4: nat, n0: nat)
    requires 256 * n8 + 16 * n4 + n0 < 0x1000_0000
    ensures Unpack(Borders(n8, n4, n0)[0]) == Region(n8, 0)
    ensures Unpack(Borders(n8, n4, n0)[1]) == Region(16 * n8 + n4, Byte(n8 - 16 * n8))
    ensures Unpack(Borders(n8, n4, n0)[2]) == Region(256 * n8 + 16 * n4 + n0, Byte(n8 + n4 - 256 * n8 - 16 * n4))
    ensures n8 < 0x100_0000 && 16 * n8 + n4 < 0x100_0000
  {
    hide Unpack, Byte;
    UnpackWord(n8, 0);
    ByteRange(n8 - 16 * n8);
    UnpackWord(16 * n8 + n4, Byte(n8 - 16 * n8));
    ByteRange(n8 + n4 - 256 * n8 - 16 * n4);
    UnpackWord(256 * n8 + 16 * n4 + n0, Byte(n8 + n4 - 256 * n8 - 16 * n4));
  }

  lemma UnpackWord(barrier: nat, idxOffset: nat)
    requires barrier < 0x1000_0000 && idxOffset < 256
    ensures Unpack(barrier * 256 + idxOffset) == Region(barrier, idxOffset)
  {
  }

  lemma ByteRange(x: int)
    ensures 0 <= Byte(x) < 256
  {
  }

  lemma ByteSum(a: int, b: int)
    ensures Byte(Byte(a) + Byte(b)) == Byte(a + b)
  {
  }

  lemma OffsetParts(off: nat)
    requires off < 0x100_0000_0000
    ensures off / 0x10_0000 % 0x100_0000 == off / 0x1000 / 256
    ensures off / 0x1_0000 % 0x100_0000 == off / 0x1000 / 16
    ensures off / 0x1000 % 0x1000_0000 == off / 0x1000
  {
  }

  /** No truncation in the lookup loses anything of a 40-bit offset. */
  lemma LookupPlain(r8: Region, r4: Region, r0: Region, off: nat)
    requires off < 0x100_0000_0000 && r8.barrier < 0x100_0000 && r4.barrier < 0x100_0000
    ensures Lookup(r8, r4, r0, off) ==
            (var p := off / 0x1000;
             if p / 256 < r8.barrier then Some((3, Byte(Byte(p / 256) + r8.idxOffset)))
             else if p / 16 < r4.barrier then Some((2, Byte(Byte(p / 16) + r4.idxOffset)))
             else if p < r0.barrier then Some((1, Byte(Byte(p) + r0.idxOffset)))
             else None)
  {
    hide Byte;
    OffsetParts(off);
    var p := off / 0x1000;
    assert Lookup(r8, r4, r0, off) == Select(r8, r4, r0, p / 256, p / 16, p);
  }

  /** The hardware lookup against the closed form, for every 40-bit offset. */
  lemma LookupClosedForm(n8: nat, n4: nat, n0: nat, off: nat)
    requires 256 * n8 + 16 * n4 + n0 < 0x1000_0000 && off < 0x100_0000_0000
    ensures var b := Borders(n8, n4, n0);
            var r := Lookup(Unpack(b[0]), Unpack(b[1]), Unpack(b[2]), off);
            var p := off / 0x1000;
            if p < 256 * n8 + 16 * n4 + n0
            then r == Some((SizeCode(OrderOf(n8, n4, p)), Byte(IndexOf(n8, n4, p))))
            else r == None
  {
    hide Unpack, Borders, Lookup, Byte;
    var p := off / 0x1000;
    UnpackBorders(n8, n4, n0);
    var b := Borders(n8, n4, n0);
    LookupPlain(Unpack(b[0]), Unpack(b[1]), Unpack(b[2]), off);
    ByteAdd(p / 256, 0);
    ByteSum(p / 16, n8 - 16 * n8);
    ByteSum(p, n8 + n4 - 256 * n8 - 16 * n4);
  }

  /** For every buffer the hardware can address, the lookup names the entry that a linear
      walk finds, modulo 256, and fails exactly beyond the end of the buffer. */
  lemma LookupIsWalk(es: seq<Entry>, off: nat)
    requires Ordered(es) && TotalPages(es) < 0x1000_0000 && off < 0x100_0000_0000
    ensures var b := Borders(Count(es, 8), Count(es, 4), Count(es, 0));
            var r := Lookup(Unpack(b[0]), Unpack(b[1]), Unpack(b[2]), off);
            if off / PAGE < TotalPages(es)
            then r == Some((SizeCode(es[WalkIndex(es, off / PAGE)].order), Byte(WalkIndex(es, off / PAGE))))
            else r == None
  {
    hide Lookup, Unpack, Borders, Byte;
    TotalByOrder(es);
    LookupClosedForm(Count(es, 8), Count(es, 4), Count(es, 0), off);
    if off / PAGE < TotalPages(es) {
      WalkClosedForm(es, off / PAGE);
    }
  }

  // ------------------------------------------------------ address translation

  lemma {:induction false} WalkAt(es: seq<Entry>, p: nat)
    requires p < TotalPages(es)
    ensures var i := WalkIndex(es, p);
            TotalPages(es[..i]) <= p < TotalPages(es[..i]) + PagesOf(es[i].order)
    decreases |es|
  {
    if p < PagesOf(es[0].order) {
      assert es[..0] == [];
    } else {
      WalkAt(es[1..], p - PagesOf(es[0].order));
      var i := WalkIndex(es, p);
      assert es[..i][1..] == es[1..][..i - 1];
    }
  }

  lemma {:induction false} StartAligned(es: seq<Entry>, i: nat)
    requires Ordered(es) && i < |es|
    ensures TotalPages(es[..i]) % PagesOf(es[i].order) == 0
    decreases i
  {
    if i == 0 {
      assert es[..0] == [];
    } else {
      OrderedTail(es);
      StartAligned(es[1..], i - 1);
      assert es[..i][1..] == es[1..][..i - 1];
      assert es[0].order >= es[i].order && IsOrder(es[i].order);
    }
  }

  /** Blocks of the page allocator start at a multiple of their size, inside 40 bits. */
  predicate Aligned(es: seq<Entry>) {
    forall i :: 0 <= i < |es| ==> AlignedEntry(es[i])
  }

  lemma Concat8(page: nat, off: nat)
    requires page % 256 == 0 && page < 0x1000_0000
    ensures page * PAGE / 0x10_0000 % 0x10_0000 * 0x10_0000 + off % 0x10_0000
            == (page + off / PAGE % 256) * PAGE + off % PAGE
  {
    assert page * PAGE / 0x10_0000 == page / 256;
    assert off % 0x10_0000 == off / PAGE % 256 * PAGE + off % PAGE;
  }

  lemma Concat4(page: nat, off: nat)
    requires page % 16 == 0 && page < 0x1000_0000
    ensures page * PAGE / 0x1_0000 % 0x100_0000 * 0x1_0000 + off % 0x10_0000 % 0x1_0000
            == (page + off / PAGE % 16) * PAGE + off % PAGE
  {
    assert page * PAGE / 0x1_0000 == page / 16;
    assert off % 0x10_0000 % 0x1_0000 == off % 0x1_0000;
    assert off % 0x1_0000 == off / PAGE % 16 * PAGE + off % PAGE;
  }

  lemma ConcatExact(e: Entry, off: nat)
    requires IsOrder(e.order) && e.page % PagesOf(e.order) == 0 && e.page < 0x1000_0000
    ensures Concat(SizeCode(e.order), PageNumber(e), off) ==
            (e.page + off / PAGE % PagesOf(e.order)) * PAGE + off % PAGE
  {
    if e.order == 8 {
      Concat8(e.page, off);
    } else if e.order == 4 {
      Concat4(e.page, off);
    } else {
      Concat0(e.page, off);
    }
  }

  lemma Concat0(page: nat, off: nat)
    requires page < 0x1000_0000
    ensures page * PAGE / PAGE % 0x1000_0000 * 0x1000 + off % 0x10_0000 % 0x1000
            == (page + off / PAGE % 1) * PAGE + off % PAGE
  {
    assert off % 0x10_0000 % 0x1000 == off % PAGE by { PageOffset(off); }
    assert page * PAGE / PAGE == page;
    assert page % 0x1000_0000 == page;
    assert off / PAGE % 1 == 0;
  }

  lemma PageOffset(off: nat)
    ensures off % 0x10_0000 % 0x1000 == off % 0x1000
  {
  }

  /** Inside an aligned entry, the page offset is the remainder. */
  lemma InsideEntry(o: nat, start: nat, p: nat)
    requires IsOrder(o) && start % PagesOf(o) == 0 && start <= p < start + PagesOf(o)
    ensures p % PagesOf(o) == p - start
  {
  }

  predicate AlignedEntry(e: Entry) {
    IsOrder(e.order) && e.page % PagesOf(e.order) == 0 && e.page < 0x1000_0000
  }

  /** An entry that covers buffer pages from `start`, aligned to its own size. */
  lemma EntryByte(e: Entry, start: nat, off: nat)
    requires AlignedEntry(e) && start % PagesOf(e.order) == 0
    requires start <= off / PAGE < start + PagesOf(e.order)
    ensures Concat(SizeCode(e.order), PageNumber(e), off) == (e.page + (off / PAGE - start)) * PAGE + off % PAGE
  {
    hide Concat, PageNumber;
    InsideEntry(e.order, start, off / PAGE);
    ConcatExact(e, off);
  }

  lemma {:induction false} TotalBound(es: seq<Entry>)
    ensures TotalPages(es) <= 256 * |es|
    decreases |es|
  {
    if es != [] {
      TotalBound(es[1..]);
    }
  }

  lemma ByteSmall(x: nat)
    requires x < 256
    ensures Byte(x) == x
  {
  }

  /** The slots of a list hold its entries' page numbers. */
  predicate Holds(list: seq<nat>, es: seq<Entry>) {
    |es| <= |list| == 256 && forall i :: 0 <= i < |es| ==> list[i] == PageNumber(es[i])
  }

  /** A byte inside the buffer: the entry found is the one that holds it. */
  lemma ByteOfEntry(es: seq<Entry>, off: nat)
    requires Ordered(es) && Aligned(es) && off / PAGE < TotalPages(es)
    ensures var e := es[WalkIndex(es, off / PAGE)];
            Concat(SizeCode(e.order), PageNumber(e), off) == Flat(es)[off / PAGE] * PAGE + off % PAGE
  {
    hide Concat, Flat, PageNumber, WalkIndex, TotalPages, PagesOf, SizeCode, AlignedEntry, Ordered;
    var p := off / PAGE;
    var i := WalkIndex(es, p);
    WalkAt(es, p);
    FlatAt(es, i);
    StartAligned(es, i);
    EntryByte(es[i], TotalPages(es[..i]), off);
  }

  /** The table that the software builds makes the hardware translate every byte of a
      buffer of at most 256 entries to its byte of the flat view, and report an error for
      every other offset. */
  lemma TranslateIsFlat(es: seq<Entry>, list: seq<nat>, off: nat)
    requires Ordered(es) && Aligned(es) && Holds(list, es) && off < 0x100_0000_0000
    ensures Translate(Borders(Count(es, 8), Count(es, 4), Count(es, 0)), list, off) ==
            if off / PAGE < TotalPages(es) then Some(Flat(es)[off / PAGE] * PAGE + off % PAGE) else None
  {
    hide Lookup, Unpack, Borders, Concat, Flat, PageNumber, Count, WalkIndex, TotalPages, PagesOf, SizeCode,
         AlignedEntry, Ordered, Byte;
    TotalBound(es);
    LookupIsWalk(es, off);
    if off / PAGE < TotalPages(es) {
      WalkInside(es, off / PAGE);
      ByteSmall(WalkIndex(es, off / PAGE));
      ByteOfEntry(es, off);
    }
  }

  lemma WalkInside(es: seq<Entry>, p: nat)
    requires p < TotalPages(es)
    ensures WalkIndex(es, p) < |es|
  {
  }

  /** The hardware and the walk name the same entry for byte `off`. */
  predicate SameEntry(es: seq<Entry>, off: nat)
    requires off / PAGE < TotalPages(es)
  {
    var b, i := Borders(Count(es, 8), Count(es, 4), Count(es, 0)), WalkIndex(es, off / PAGE);
    Lookup(Unpack(b[0]), Unpack(b[1]), Unpack(b[2]), off) == Some((SizeCode(es[i].order), i))
  }

  lemma {:induction false} WalkToStart(es: seq<Entry>, i: nat)
    requires i < |es|
    ensures TotalPages(es[..i]) < TotalPages(es) && WalkIndex(es, TotalPages(es[..i])) == i
    decreases |es|
  {
    if i == 0 {
      assert es[..0] == [];
    } else {
      assert es[..i][0] == es[0] && es[..i][1..] == es[1..][..i - 1];
      WalkToStart(es[1..], i - 1);
    }
  }

  /** The 8-bit index is right for every byte of the buffer exactly when the list has no
      more than 256 entries. */
  lemma IndexRightIff(es: seq<Entry>)
    requires Ordered(es) && TotalPages(es) < 0x1000_0000
    ensures (forall off: nat :: off / PAGE < TotalPages(es) ==> SameEntry(es, off)) <==> |es| <= 256
  {
    hide Lookup, Unpack, Borders, Count, WalkIndex, TotalPages, SizeCode, Ordered, Byte;
    if |es| <= 256 {
      forall off: nat | off / PAGE < TotalPages(es)
        ensures SameEntry(es, off)
      {
        LookupIsWalk(es, off);
        WalkInside(es, off / PAGE);
        ByteSmall(WalkIndex(es, off / PAGE));
      }
    } else {
      WalkToStart(es, 256);
      var off := TotalPages(es[..256]) * PAGE;
      assert off / PAGE == TotalPages(es[..256]);
      LookupIsWalk(es, off);
      ByteWraps();
      assert !SameEntry(es, off);
    }
  }

  lemma ByteWraps()
    ensures Byte(256) == 0
  {
  }

  // ------------------------------------------------------------- the two together

  const LISTS: nat := 32
  const SLOTS: nat := 8192  // 256 for each list

  /** The memories of `mkSGListMMU`. */
  class Mmu {
    const pages: array<nat>
    const borders: array<seq<nat>>

    ghost predicate Valid()
      reads borders
    {
      pages.Length == SLOTS && borders.Length == LISTS && forall i :: 0 <= i < LISTS ==> |borders[i]| == 3
    }

    constructor ()
      ensures Valid() && fresh(pages) && fresh(borders)
    {
      pages := new nat[SLOTS];
      borders := new seq<nat>[LISTS](_ => [0, 0, 0]);
    }

    /** `sglist`: slot and page number are truncated to 13 and 28 bits. */
    method Sglist(ptr: nat, paddr: nat)
      requires Valid()
      modifies pages
      ensures pages[..] == old(pages[..])[ptr % SLOTS := paddr % 0x1000_0000]
    {
      pages[ptr % SLOTS] := paddr % 0x1000_0000;
    }

    method SetRegion(id: nat, borderVal: seq<nat>)
      requires Valid() && |borderVal| == 3
      modifies borders
      ensures Valid() && borders[..] == old(borders[..])[id % LISTS := borderVal]
    {
      borders[id % LISTS] := borderVal;
    }
  }

  lemma PageNumberSmall(e: Entry)
    requires AlignedEntry(e)
    ensures PageNumber(e) % 0x1000_0000 == PageNumber(e)
  {
  }

  /** Writing a list's page numbers and the zero that ends it, slot after slot. */
  method WriteList(mmu: Mmu, list: seq<nat>, id: nat)
    requires mmu.Valid() && id < LISTS && |list| <= 256
    requires forall i :: 0 <= i < |list| ==> list[i] % 0x1000_0000 == list[i]
    modifies mmu.pages
    ensures mmu.Valid()
    ensures forall i :: 0 <= i < |list| ==> mmu.pages[id * 256 + i] == list[i]
    ensures mmu.pages[(id * 256 + |list|) % SLOTS] == 0
    ensures forall a :: 0 <= a < SLOTS && !(id * 256 <= a < id * 256 + |list|) && a != (id * 256 + |list|) % SLOTS ==>
              mmu.pages[a] == old(mmu.pages[a])
  {
    for i := 0 to |list|
      invariant mmu.Valid()
      invariant forall k :: 0 <= k < i ==> mmu.pages[id * 256 + k] == list[k]
      invariant forall a :: 0 <= a < SLOTS && !(id * 256 <= a < id * 256 + i) ==> mmu.pages[a] == old(mmu.pages[a])
    {
      mmu.Sglist(id * 256 + i, list[i]);
    }
    mmu.Sglist(id * 256 + |list|, 0);
  }

  /** `send_fd_to_portal` as a whole, for a list the hardware can index: its translation is
      the flat view, no other list's borders change, and no other list's slots change, except
      that the zero after 256 entries falls on the first slot of the next list. */
  method SendBuffer(mmu: Mmu, es: seq<Entry>, id: nat)
    requires mmu.Valid() && id < LISTS && Ordered(es) && Aligned(es) && |es| <= 256
    modifies mmu.pages, mmu.borders
    ensures mmu.Valid()
    ensures Translates(mmu.borders[id], mmu.pages[id * 256..id * 256 + 256], es)
    ensures forall j :: 0 <= j < LISTS && j != id ==> mmu.borders[j] == old(mmu.borders[j])
    ensures forall a :: 0 <= a < SLOTS && !(id * 256 <= a < id * 256 + 256) ==>
      mmu.pages[a] == if |es| == 256 && a == (id + 1) % LISTS * 256 then 0 else old(mmu.pages[a])
  {
    hide Translates, Borders, Count, Aligned, AlignedEntry, PageNumber, Ordered;
    OrderedOrders(es);
    var list, regions := SendEntries(es);
    TotalByOrder(es);
    var borderVal := BorderWords(regions);
    PageNumbersSmall(es);
    WriteList(mmu, list, id);
    mmu.SetRegion(id, borderVal);
    Terminator(id, |list|);
    BordersLength(regions[0], regions[1], regions[2]);
    TranslatesAll(es, mmu.pages[id * 256..id * 256 + 256]);
  }

  /** The zero that ends a list falls outside its slots only after 256 entries. */
  lemma Terminator(id: nat, n: nat)
    requires id < LISTS && n <= 256
    ensures n < 256 ==> (id * 256 + n) % SLOTS == id * 256 + n
    ensures n == 256 ==> (id * 256 + n) % SLOTS == (id + 1) % LISTS * 256
  {
  }

  lemma BordersLength(n8: nat, n4: nat, n0: nat)
    ensures |Borders(n8, n4, n0)| == 3
  {
  }

  /** Every byte of the buffer has its place in the flat view, and nothing else has one. */
  ghost predicate Translates(borderVal: seq<nat>, list: seq<nat>, es: seq<Entry>)
    requires |borderVal| == 3 && |list| == 256
  {
    forall off: nat :: off < 0x100_0000_0000 ==>
      Translate(borderVal, list, off) ==
      if off / PAGE < TotalPages(es) then Some(Flat(es)[off / PAGE] * PAGE + off % PAGE) else None
  }

  lemma TranslatesAll(es: seq<Entry>, list: seq<nat>)
    requires Ordered(es) && Aligned(es) && Holds(list, es)
    ensures Translates(Borders(Count(es, 8), Count(es, 4), Count(es, 0)), list, es)
  {
    hide Translate, Borders, Flat, Count, TotalPages, Aligned, PageNumber, Ordered;
    BordersLength(Count(es, 8), Count(es, 4), Count(es, 0));
    forall off: nat | off < 0x100_0000_0000
      ensures Translate(Borders(Count(es, 8), Count(es, 4), Count(es, 0)), list, off) ==
              if off / PAGE < TotalPages(es) then Some(Flat(es)[off / PAGE] * PAGE + off % PAGE) else None
    {
      TranslateIsFlat(es, list, off);
    }
  }

  lemma OrderedOrders(es: seq<Entry>)
    requires Ordered(es)
    ensures forall i :: 0 <= i < |es| ==> IsOrder(es[i].order)
  {
  }

  lemma PageNumbersSmall(es: seq<Entry>)
    requires Aligned(es)
    ensures forall i :: 0 <= i < |es| ==> PageNumber(es[i]) % 0x1000_0000 == PageNumber(es[i])
  {
    hide PageNumber, AlignedEntry;
    forall i | 0 <= i < |es|
      ensures PageNumber(es[i]) % 0x1000_0000 == PageNumber(es[i])
    {
      PageNumberSmall(es[i]);
    }
  }

  // --------------------------------------------------------- simulator addresses

  /** In simulation an entry's address is its offset in the buffer, under the buffer's id
      in bits 39 to 32: `base` is the page number reached so far. */
  function SimulatedFrom(es: seq<Entry>, base: nat): (r: seq<Entry>)
    ensures |r| == |es| && forall i :: 0 <= i < |es| ==> r[i].order == es[i].order
  {
    if es == [] then []
    else [Entry(base, es[0].order)] + SimulatedFrom(es[1..], base + PagesOf(es[0].order))
  }

  lemma {:induction false} SimulatedShape(es: seq<Entry>, base: nat)
    ensures var r := SimulatedFrom(es, base);
            && TotalPages(r) == TotalPages(es)
            && (forall o :: Count(r, o) == Count(es, o))
            && (forall p :: 0 <= p < TotalPages(es) ==> Flat(r)[p] == base + p)
            && (forall i :: 0 <= i < |es| ==> r[i].page == base + TotalPages(es[..i]))
    decreases |es|
  {
    if es != [] {
      var r, n := SimulatedFrom(es, base), PagesOf(es[0].order);
      assert r[1..] == SimulatedFrom(es[1..], base + n);
      SimulatedShape(es[1..], base + n);
      forall p | 0 <= p < TotalPages(es)
        ensures Flat(r)[p] == base + p
      {
        assert p >= n ==> Flat(r)[p] == Flat(r[1..])[p - n];
      }
      assert es[..0] == [];
      forall i | 1 <= i < |es|
        ensures r[i].page == base + TotalPages(es[..i])
      {
        var j := i - 1;
        assert es[..i][0] == es[0] && es[..i][1..] == es[1..][..j];
        assert r[i] == r[1..][j];
        assert TotalPages(es[..i]) == n + TotalPages(es[1..][..j]);
      }
    }
  }

  lemma ShiftAligned(o: nat, id: nat, start: nat)
    requires IsOrder(o) && id < 256 && start < 0x1_0000 && start % PagesOf(o) == 0
    ensures AlignedEntry(Entry(id * 0x10_0000 + start, o))
  {
  }

  lemma SimulatedAligned(es: seq<Entry>, id: nat)
    requires Ordered(es) && |es| <= 256 && id < 256
    ensures Ordered(SimulatedFrom(es, id * 0x10_0000)) && Aligned(SimulatedFrom(es, id * 0x10_0000))
  {
    hide TotalPages, Flat, Count, PagesOf, AlignedEntry, IsOrder, SimulatedFrom;
    var sim := SimulatedFrom(es, id * 0x10_0000);
    SimulatedShape(es, id * 0x10_0000);
    TotalBound(es);
    forall i | 0 <= i < |sim|
      ensures AlignedEntry(sim[i])
    {
      StartAligned(es, i);
      FlatAt(es, i);
      PagesPositive(es[i].order);
      ShiftAligned(es[i].order, id, TotalPages(es[..i]));
    }
  }

  lemma PagesPositive(o: nat)
    ensures PagesOf(o) >= 1
  {
  }

  /** Under simulation the translation is the identity below the buffer's id. */
  lemma SimulatedTranslate(es: seq<Entry>, id: nat, list: seq<nat>, off: nat)
    requires Ordered(es) && |es| <= 256 && id < 256 && off / PAGE < TotalPages(es) && off < 0x100_0000_0000
    requires Holds(list, SimulatedFrom(es, id * 0x10_0000))
    ensures var sim := SimulatedFrom(es, id * 0x10_0000);
            Translate(Borders(Count(sim, 8), Count(sim, 4), Count(sim, 0)), list, off) ==
            Some(id * 0x1_0000_0000 + off)
  {
    hide Translate, Borders, Flat, Count, TotalPages, Ordered, Aligned, SimulatedFrom;
    SimulatedShape(es, id * 0x10_0000);
    SimulatedAligned(es, id);
    TranslateIsFlat(SimulatedFrom(es, id * 0x10_0000), list, off);
  }
}
