/** The portal memory driver: the greedy three-size page allocator and the list walks
    that must agree with one flat view of a buffer. */
module PortalMem {

  const PAGE: nat := 4096

  datatype Option<T> = None | Some(value: T)

  predicate IsOrder(o: nat) {
    o == 8 || o == 4 || o == 0
  }

  /** Pages in a block of the given order, 1 << order. */
  function PagesOf(o: nat): nat {
    if o == 8 then 256 else if o == 4 then 16 else 1
  }

  /** One scatterlist entry: `PagesOf(order)` consecutive pages from `page`. */
  datatype Entry = Entry(page: nat, order: nat)

  function TotalPages(es: seq<Entry>): nat {
    if es == [] then 0 else PagesOf(es[0].order) + TotalPages(es[1..])
  }

  function Count(es: seq<Entry>, o: nat): nat {
    if es == [] then 0 else (if es[0].order == o then 1 else 0) + Count(es[1..], o)
  }

  /** The flat view: the page that holds each page of the buffer. */
  function Flat(es: seq<Entry>): (r: seq<nat>)
    ensures |r| == TotalPages(es)
  {
    if es == [] then []
    else seq(PagesOf(es[0].order), k requires 0 <= k => es[0].page + k) + Flat(es[1..])
  }

  /** What the allocator builds: known orders that never increase along the list. */
  predicate Ordered(es: seq<Entry>) {
    && (forall i :: 0 <= i < |es| ==> IsOrder(es[i].order))
    && (forall i, j :: 0 <= i < j < |es| ==> es[i].order >= es[j].order)
  }

  lemma {:induction false} TotalSnoc(es: seq<Entry>, e: Entry)
    ensures TotalPages(es + [e]) == TotalPages(es) + PagesOf(e.order)
    ensures forall o :: Count(es + [e], o) == Count(es, o) + if e.order == o then 1 else 0
    decreases |es|
  {
    if es == [] {
      assert (es + [e])[1..] == [];
    } else {
      assert (es + [e])[1..] == es[1..] + [e];
      TotalSnoc(es[1..], e);
    }
  }

  lemma {:induction false} TotalByOrder(es: seq<Entry>)
    requires forall i :: 0 <= i < |es| ==> IsOrder(es[i].order)
    ensures TotalPages(es) == 256 * Count(es, 8) + 16 * Count(es, 4) + Count(es, 0)
    ensures |es| == Count(es, 8) + Count(es, 4) + Count(es, 0)
    decreases |es|
  {
    if es != [] {
      assert IsOrder(es[0].order);
      TotalByOrder(es[1..]);
    }
  }

  // -------------------------------------------------------------- allocation

  const ORDERS: seq<nat> := [8, 4, 0]
  const TWO63: int := 0x8000_0000_0000_0000

  function RoundUp(len: nat): nat {
    (len + PAGE - 1) / PAGE * PAGE
  }

  /** The page allocator as an oracle: what it answers to its n-th request, for 1 << order
      pages. It may refuse any request. */
  type Oracle = (nat, nat) -> Option<nat>

  /** Each entry is the block that the oracle handed out to a request of its own, in the
      order of the requests. */
  ghost predicate Granted(alloc: Oracle, es: seq<Entry>, requests: seq<nat>) {
    && |requests| == |es|
    && (forall i, j :: 0 <= i < j < |requests| ==> requests[i] < requests[j])
    && (forall i :: 0 <= i < |es| ==> alloc(requests[i], es[i].order) == Some(es[i].page))
  }

  /** One request round of the inner loop: the largest order that still fits, is not above
      `maxOrder` and is not refused. Its last request is the one granted. */
  method RequestBlock(alloc: Oracle, remaining: int, maxOrder: nat, calls: nat)
    returns (info: Option<Entry>, calls': nat)
    requires remaining > 0 && remaining % PAGE == 0 && IsOrder(maxOrder)
    ensures calls' > calls
    ensures info.Some? ==>
      && IsOrder(info.value.order) && info.value.order <= maxOrder
      && PagesOf(info.value.order) * PAGE <= remaining
      && alloc(calls' - 1, info.value.order) == Some(info.value.page)
    ensures info.Some? ==> forall o: nat :: IsOrder(o) && info.value.order < o <= maxOrder && PagesOf(o) * PAGE <= remaining
                                       ==> exists c: nat :: calls <= c < calls' && alloc(c, o).None?
    ensures info.None? ==> alloc(calls' - 1, 0).None?
  {
    info, calls' := None, calls;
    var ordindex := 0;
    while ordindex < 3
      invariant 0 <= ordindex <= 3 && calls' >= calls
      invariant forall k :: 0 <= k < ordindex && ORDERS[k] <= maxOrder && PagesOf(ORDERS[k]) * PAGE <= remaining
                            ==> exists c: nat :: calls <= c < calls' && alloc(c, ORDERS[k]).None?
      invariant ordindex == 3 ==> calls' > calls && alloc(calls' - 1, 0).None?
    {
      var o := ORDERS[ordindex];
      if remaining >= PagesOf(o) * PAGE && maxOrder >= o {
        var page := alloc(calls', o);
        calls' := calls' + 1;
        if page.Some? {
          info := Some(Entry(page.value, o));
          forall q: nat | IsOrder(q) && o < q <= maxOrder && PagesOf(q) * PAGE <= remaining
            ensures exists c: nat :: calls <= c < calls' && alloc(c, q).None?
          {
            var k := if q == 8 then 0 else 1;
            assert ORDERS[k] == q;
          }
          return;
        }
        assert alloc(calls' - 1, o).None?;
      }
      ordindex := ordindex + 1;
    }
  }

  ghost predicate NeverRefuses(alloc: Oracle) {
    forall c: nat, o: nat :: alloc(c, o).Some?
  }

  /** The progress of a run that is never refused: each size is exhausted before the next. */
  predicate Greedy(es: seq<Entry>, maxOrder: nat, pages: nat) {
    var (c4, c0) := (Count(es, 4), Count(es, 0));
    && (maxOrder == 8 ==> c4 == 0 && c0 == 0)
    && (maxOrder == 4 ==> c0 == 0 && 16 * c4 + pages < 256)
    && (maxOrder == 0 ==> 16 * c4 + c0 + pages < 256 && c0 + pages < 16)
  }

  lemma GreedyStep(es: seq<Entry>, e: Entry, maxOrder: nat, pages: nat)
    requires IsOrder(maxOrder) && IsOrder(e.order) && e.order <= maxOrder && PagesOf(e.order) <= pages
    requires forall o: nat :: IsOrder(o) && e.order < o <= maxOrder ==> PagesOf(o) > pages
    requires Greedy(es, maxOrder, pages)
    ensures Greedy(es + [e], e.order, pages - PagesOf(e.order))
  {
    TotalSnoc(es, e);
    assert e.order < 8 <= maxOrder ==> PagesOf(8) > pages;
    assert e.order < 4 <= maxOrder ==> PagesOf(4) > pages;
  }

  lemma GreedyDone(es: seq<Entry>, maxOrder: nat)
    requires IsOrder(maxOrder) && Greedy(es, maxOrder, 0)
    requires Ordered(es)
    ensures Count(es, 8) == TotalPages(es) / 256
    ensures Count(es, 4) == TotalPages(es) % 256 / 16
    ensures Count(es, 0) == TotalPages(es) % 16
  {
    TotalByOrder(es);
  }

  /** The allocation loop of `portalmem_dmabuffer_create`, for a size in bytes that is a
      whole number of pages; a negative size never enters the loop. `requests` are the
      numbers of the requests that were granted. */
  method AllocateBlocks(size: int, alloc: Oracle) returns (entries: seq<Entry>, ok: bool, ghost requests: seq<nat>)
    requires size % PAGE == 0
    ensures ok ==> size > 0 && TotalPages(entries) * PAGE == size && Ordered(entries)
    ensures Granted(alloc, entries, requests)
    ensures !ok ==> size <= 0 || exists c: nat :: alloc(c, 0).None?
    ensures size > 0 && NeverRefuses(alloc) ==>
      && ok
      && Count(entries, 8) == size / PAGE / 256
      && Count(entries, 4) == size / PAGE % 256 / 16
      && Count(entries, 0) == size / PAGE % 16
  {
    hide Greedy, Granted, TotalPages, Count, Ordered, NeverRefuses;
    EmptyList();
    NothingGranted(alloc);
    var size_remaining := size;
    ghost var never := size > 0 && NeverRefuses(alloc);
    var max_order: nat, calls: nat := 8, 0;
    entries, ok, requests := [], false, [];
    GreedyStart(size / PAGE);
    while size_remaining > 0
      invariant size_remaining % PAGE == 0
      invariant size > 0 ==> size_remaining >= 0
      invariant TotalPages(entries) * PAGE + size_remaining == size
      invariant IsOrder(max_order) && Ordered(entries)
      invariant forall i :: 0 <= i < |entries| ==> entries[i].order >= max_order
      invariant Granted(alloc, entries, requests) && forall i :: 0 <= i < |requests| ==> requests[i] < calls
      invariant if ok then size > 0 else size_remaining == size
      invariant never ==> Greedy(entries, max_order, size_remaining / PAGE)
      decreases size_remaining
    {
      var info;
      info, calls := RequestBlock(alloc, size_remaining, max_order, calls);
      ok := info.Some?;
      if !ok {
        RefusalShows(alloc);
        break;
      }
      var e := info.value;
      TotalSnoc(entries, e);
      OrderedSnoc(entries, e);
      GrantedSnoc(alloc, entries, requests, e, calls - 1);
      if never {
        NotRefused(alloc, size_remaining, max_order, e.order);
        GreedyStep(entries, e, max_order, size_remaining / PAGE);
      }
      entries, requests := entries + [e], requests + [calls - 1];
      size_remaining := size_remaining - PagesOf(e.order) * PAGE;
      max_order := e.order;
    }
    if never {
      GreedyDone(entries, max_order);
    }
  }

  lemma NothingGranted(alloc: Oracle)
    ensures Granted(alloc, [], [])
  {
  }

  lemma GrantedSnoc(alloc: Oracle, es: seq<Entry>, requests: seq<nat>, e: Entry, c: nat)
    requires Granted(alloc, es, requests) && alloc(c, e.order) == Some(e.page)
    requires forall i :: 0 <= i < |requests| ==> requests[i] < c
    ensures Granted(alloc, es + [e], requests + [c])
  {
  }

  lemma RefusalShows(alloc: Oracle)
    requires exists c: nat :: alloc(c, 0).None?
    ensures !NeverRefuses(alloc)
  {
  }

  lemma EmptyList()
    ensures TotalPages([]) == 0 && Ordered([])
  {
  }

  lemma OrderedSnoc(es: seq<Entry>, e: Entry)
    requires Ordered(es) && IsOrder(e.order) && forall i :: 0 <= i < |es| ==> es[i].order >= e.order
    ensures Ordered(es + [e])
  {
  }

  /** Without refusals, a block smaller than allowed is chosen only when no larger fits. */
  lemma NotRefused(alloc: Oracle, remaining: int, maxOrder: nat, order: nat)
    requires NeverRefuses(alloc)
    requires forall o: nat :: IsOrder(o) && order < o <= maxOrder && PagesOf(o) * PAGE <= remaining
                              ==> exists c: nat :: alloc(c, o).None?
    ensures forall o: nat :: IsOrder(o) && order < o <= maxOrder ==> PagesOf(o) > remaining / PAGE
  {
  }

  /** Blocks that the allocator has handed out do not overlap. */
  ghost predicate NeverOverlaps(alloc: Oracle) {
    forall c: nat, o: nat, d: nat, r: nat :: c < d && alloc(c, o).Some? && alloc(d, r).Some? ==>
      ApartBlocks(Entry(alloc(c, o).value, o), Entry(alloc(d, r).value, r))
  }

  predicate ApartBlocks(e: Entry, f: Entry) {
    e.page + PagesOf(e.order) <= f.page || f.page + PagesOf(f.order) <= e.page
  }

  /** Each page of the flat view is in one of the entries. */
  lemma {:induction false} PageOfSome(es: seq<Entry>, p: nat) returns (i: nat)
    requires p < TotalPages(es)
    ensures i < |es| && es[i].page <= Flat(es)[p] < es[i].page + PagesOf(es[i].order)
    decreases |es|
  {
    var n := PagesOf(es[0].order);
    if p < n {
      i := 0;
    } else {
      i := PageOfSome(es[1..], p - n);
      i := i + 1;
    }
  }

  lemma {:induction false} ApartIsDistinct(es: seq<Entry>)
    requires forall i, j :: 0 <= i < j < |es| ==> ApartBlocks(es[i], es[j])
    ensures DistinctPages(es)
    decreases |es|
  {
    if es != [] {
      var n := PagesOf(es[0].order);
      ApartIsDistinct(es[1..]);
      FlatHead(es);
      forall p, q | 0 <= p < q < TotalPages(es)
        ensures Flat(es)[p] != Flat(es)[q]
      {
        if p >= n {
          assert Flat(es)[p] == Flat(es[1..])[p - n] && Flat(es)[q] == Flat(es[1..])[q - n];
        } else if q >= n {
          assert Flat(es)[q] == Flat(es[1..])[q - n];
          var i := PageOfSome(es[1..], q - n);
          assert ApartBlocks(es[0], es[i + 1]);
        }
      }
    }
  }

  lemma GrantedIsDistinct(alloc: Oracle, es: seq<Entry>, requests: seq<nat>)
    requires NeverOverlaps(alloc) && Granted(alloc, es, requests)
    ensures DistinctPages(es)
  {
    forall i, j | 0 <= i < j < |es|
      ensures ApartBlocks(es[i], es[j])
    {
      assert alloc(requests[i], es[i].order) == Some(es[i].page);
      assert alloc(requests[j], es[j].order) == Some(es[j].page);
    }
    ApartIsDistinct(es);
  }

  lemma RoundUpIs(len: nat)
    ensures len <= RoundUp(len) < len + PAGE && RoundUp(len) % PAGE == 0
    ensures RoundUp(len) < TWO63 <==> len <= TWO63 - 4096
  {
  }

  /** `portalmem_dmabuffer_create`: the unsigned 64-bit length is rounded up to whole pages,
      which may wrap, and held in a signed 64-bit variable. A buffer has as few pages of
      4096 bytes as hold the length, and all of them distinct when the allocator's blocks
      never overlap. */
  method CreateBuffer(len: nat, alloc: Oracle) returns (r: Option<seq<Entry>>, ghost requests: seq<nat>)
    requires len < 2 * TWO63
    ensures r.Some? ==>
      && 0 < len <= 0x7FFF_FFFF_FFFF_F000
      && len <= TotalPages(r.value) * 4096 < len + 4096
      && Ordered(r.value) && Granted(alloc, r.value, requests)
      && (NeverOverlaps(alloc) ==> DistinctPages(r.value))
    ensures r.None? ==> len == 0 || len > 0x7FFF_FFFF_FFFF_F000 || exists c: nat :: alloc(c, 0).None?
    ensures NeverRefuses(alloc) && 0 < len <= 0x7FFF_FFFF_FFFF_F000 ==>
      && r.Some?
      && Count(r.value, 8) == TotalPages(r.value) / 256
      && Count(r.value, 4) == TotalPages(r.value) % 256 / 16
      && Count(r.value, 0) == TotalPages(r.value) % 16
  {
    hide Granted, TotalPages, Count, Ordered, NeverRefuses, NeverOverlaps, DistinctPages, RoundUp;
    RoundUpIs(len);
    var rounded := RoundUp(len) % (2 * TWO63);
    var size_remaining: int := if rounded < TWO63 then rounded else rounded - 2 * TWO63;
    assert len > TWO63 - 4096 ==> size_remaining <= 0;
    var entries, ok;
    entries, ok, requests := AllocateBlocks(size_remaining, alloc);
    r := if ok then Some(entries) else None;
    if ok && NeverOverlaps(alloc) {
      GrantedIsDistinct(alloc, entries, requests);
    }
  }

  lemma GreedyStart(pages: int)
    ensures pages >= 0 ==> Greedy([], 8, pages)
  {
  }

  // -------------------------------------------------------------------- walks

  lemma {:induction false} FlatSplit(es: seq<Entry>, i: nat)
    requires i <= |es|
    ensures Flat(es) == Flat(es[..i]) + Flat(es[i..])
    ensures TotalPages(es) == TotalPages(es[..i]) + TotalPages(es[i..])
    decreases i
  {
    if i == 0 {
      assert es[..0] == [] && es[0..] == es;
    } else {
      FlatSplit(es[1..], i - 1);
      assert es[1..][..i - 1] == es[..i][1..];
      assert es[1..][i - 1..] == es[i..];
    }
  }

  lemma FlatHead(es: seq<Entry>)
    requires es != []
    ensures PagesOf(es[0].order) <= TotalPages(es)
    ensures forall p :: 0 <= p < PagesOf(es[0].order) ==> Flat(es)[p] == es[0].page + p
  {
  }

  /** The pages of entry `i` in the flat view. */
  lemma FlatAt(es: seq<Entry>, i: nat)
    requires i < |es|
    ensures TotalPages(es[..i]) + PagesOf(es[i].order) == TotalPages(es[..i + 1]) <= TotalPages(es)
    ensures forall p :: TotalPages(es[..i]) <= p < TotalPages(es[..i + 1]) ==>
              Flat(es)[p] == es[i].page + (p - TotalPages(es[..i]))
  {
    hide Flat, TotalPages, PagesOf;
    FlatSplit(es, i);
    FlatSplit(es, i + 1);
    assert es[..i + 1] == es[..i] + [es[i]];
    TotalSnoc(es[..i], es[i]);
    FlatHead(es[i..]);
    var b := TotalPages(es[..i]);
    forall p | b <= p < TotalPages(es[..i + 1])
      ensures Flat(es)[p] == es[i].page + (p - b)
    {
      assert Flat(es)[p] == Flat(es[i..])[p - b];
    }
  }

  /** `pa_dma_buf_begin_cpu_access`: the kernel's page array is the flat view. */
  method PageArray(es: seq<Entry>) returns (pages: array<nat>)
    ensures pages[..] == Flat(es)
  {
    hide Flat;
    var npages := TotalPages(es);
    pages := new nat[npages];
    var tmp := 0;
    assert es[..0] == [];
    for i := 0 to |es|
      invariant tmp == TotalPages(es[..i]) <= npages && i <= tmp
      invariant forall p :: 0 <= p < tmp ==> pages[p] == Flat(es)[p]
    {
      FlatAt(es, i);
      assert i < npages;
      var page := es[i].page;
      for j := 0 to PagesOf(es[i].order)
        invariant tmp == TotalPages(es[..i]) + j && page == es[i].page + j
        invariant forall p :: 0 <= p < tmp ==> pages[p] == Flat(es)[p]
      {
        pages[tmp] := page;
        tmp := tmp + 1;
        page := page + 1;
      }
    }
    assert es[..|es|] == es;
  }

  /** `remap_pfn_range`: `len` consecutive pages of the user mapping. */
  function Remap(table: map<nat, nat>, addr: nat, pfn: nat, len: nat): (r: map<nat, nat>)
    ensures forall a: nat :: a in r <==> a in table || addr <= a < addr + len
    ensures forall a: nat :: a in r ==> r[a] == if addr <= a < addr + len then pfn + (a - addr) else table[a]
  {
    if len == 0 then table
    else Remap(table, addr, pfn, len - 1)[addr + (len - 1) := pfn + (len - 1)]
  }

  /** `pa_dma_buf_mmap`: addresses, lengths and the starting offset are counted in pages.
      Exactly the pages that lie inside both the mapping and the buffer are mapped, each
      to its page of the flat view. */
  method MapUser(es: seq<Entry>, vm_start: nat, vm_end: nat, vm_pgoff: nat) returns (table: map<nat, nat>)
    requires vm_start <= vm_end
    ensures forall a: nat :: a in table <==> vm_start <= a < vm_end && vm_pgoff + (a - vm_start) < TotalPages(es)
    ensures forall a: nat :: a in table ==> table[a] == Flat(es)[vm_pgoff + (a - vm_start)]
  {
    hide Flat, TotalPages;
    EmptyList();
    table := map[];
    var addr: nat, offset: nat := vm_start, vm_pgoff;
    var i := 0;
    assert es[..0] == [];
    while i < |es|
      invariant 0 <= i <= |es| && vm_start <= addr <= vm_end
      invariant offset > 0 ==> addr == vm_start
      invariant TotalPages(es[..i]) <= TotalPages(es)
      invariant vm_pgoff + (addr - vm_start) == TotalPages(es[..i]) + offset
      invariant forall a: nat :: a in table <==> vm_start <= a < addr
      invariant forall a: nat :: a in table ==>
        vm_pgoff + (a - vm_start) < TotalPages(es) && table[a] == Flat(es)[vm_pgoff + (a - vm_start)]
    {
      FlatAt(es, i);
      var page, remainder, len := es[i].page, vm_end - addr, PagesOf(es[i].order);
      if offset >= PagesOf(es[i].order) {
        offset := offset - PagesOf(es[i].order);
        i := i + 1;
        continue;
      } else if offset > 0 {
        page := page + offset;
        len := PagesOf(es[i].order) - offset;
        offset := 0;
      }
      len := if len <= remainder then len else remainder;
      table := Remap(table, addr, page, len);
      addr := addr + len;
      if addr >= vm_end {
        return;
      }
      i := i + 1;
    }
    assert es[..|es|] == es;
  }

  const TWO32: nat := 0x1_0000_0000

  /** `custom_vma_access`: the debugger's walk for byte `b` of the mapping, as the entry it
      stops at and the byte offset left inside it. The offset is a C int compared with
      unsigned lengths, so the walk starts at `b` modulo 2^32. */
  method DebugAccess(es: seq<Entry>, b: nat) returns (entry: nat, left: nat)
    requires b % TWO32 < TotalPages(es) * PAGE
    ensures entry < |es| && left < PagesOf(es[entry].order) * PAGE
    ensures b % TWO32 == TotalPages(es[..entry]) * PAGE + left
    ensures Flat(es)[b % TWO32 / PAGE] == es[entry].page + left / PAGE && left % PAGE == b % PAGE
  {
    hide Flat;
    var offset := b % TWO32;
    left := offset;
    entry := 0;
    assert es[..0] == [];
    while true
      invariant entry <= |es| && TotalPages(es[..entry]) * PAGE + left == offset
      invariant entry == |es| ==> TotalPages(es[..entry]) == TotalPages(es)
      decreases |es| - entry
    {
      if entry == |es| {
        assert false;
      }
      FlatAt(es, entry);
      if left < PagesOf(es[entry].order) * PAGE {
        break;
      }
      left := left - PagesOf(es[entry].order) * PAGE;
      entry := entry + 1;
      assert entry == |es| ==> es[..entry] == es;
    }
    assert offset / PAGE == TotalPages(es[..entry]) + left / PAGE;
    assert offset % PAGE == b % PAGE by { IntOffset(b); }
  }

  predicate DistinctPages(es: seq<Entry>) {
    forall p, q :: 0 <= p < q < TotalPages(es) ==> Flat(es)[p] != Flat(es)[q]
  }

  lemma IntOffset(b: nat)
    ensures b % TWO32 <= b && (b % TWO32 == b <==> b < TWO32)
    ensures b % TWO32 % PAGE == b % PAGE
    ensures b >= TWO32 ==> b % TWO32 / PAGE < b / PAGE
  {
  }

  /** Byte `b` of a mapping made at page offset `vm_pgoff`, as the user, the kernel and the
      debugger see it. The user's page is the kernel's page `vm_pgoff + b/PAGE`; the
      debugger's walk starts at byte `b` of the buffer instead, modulo 2^32, so in a buffer
      of distinct pages it shows that page exactly when the mapping starts at the beginning
      and the byte is below 4 GiB. */
  method ThreeViews(es: seq<Entry>, vm_start: nat, vm_end: nat, vm_pgoff: nat, b: nat)
    returns (user: nat, kernel: nat, debugger: nat)
    requires vm_start + b / PAGE < vm_end && vm_pgoff + b / PAGE < TotalPages(es)
    ensures user == kernel == Flat(es)[vm_pgoff + b / PAGE]
    ensures b % TWO32 / PAGE < TotalPages(es) && debugger == Flat(es)[b % TWO32 / PAGE]
    ensures vm_pgoff == 0 && b < TWO32 ==> debugger == user
    ensures DistinctPages(es) ==> (debugger == user <==> vm_pgoff == 0 && b < TWO32)
  {
    hide Flat, TotalPages;
    var p := b / PAGE;
    var table := MapUser(es, vm_start, vm_end, vm_pgoff);
    var pages := PageArray(es);
    assert |pages[..]| == TotalPages(es) by { FlatLength(es); }
    IntOffset(b);
    var entry, left := DebugAccess(es, b);
    user := table[vm_start + p];
    kernel := pages[..][vm_pgoff + p];
    debugger := es[entry].page + left / PAGE;
    assert Flat(es)[b % TWO32 / PAGE] == debugger;
  }

  lemma FlatLength(es: seq<Entry>)
    ensures |Flat(es)| == TotalPages(es)
  {
  }

  /** Two single pages mapped from the second on: the user sees page 200, and the page that
      the debugger shows is 100. */
  lemma DebugIgnoresOffset()
    ensures var es := [Entry(100, 0), Entry(200, 0)];
            DistinctPages(es) && Flat(es)[1 + 0 / PAGE] == 200 && Flat(es)[0 % TWO32 / PAGE] == 100
  {
    var es := [Entry(100, 0), Entry(200, 0)];
    assert es[1..] == [Entry(200, 0)] && es[1..][1..] == [];
    assert Flat(es) == [100, 200];
  }

  /** `n` blocks of 256 pages, one after the other in memory. */
  function Blocks(first: nat, n: nat): seq<Entry>
    decreases n
  {
    if n == 0 then [] else [Entry(first, 8)] + Blocks(first + 256, n - 1)
  }

  lemma {:induction false} BlocksFlat(first: nat, n: nat)
    ensures TotalPages(Blocks(first, n)) == 256 * n
    ensures forall p :: 0 <= p < 256 * n ==> Flat(Blocks(first, n))[p] == first + p
    decreases n
  {
    if n > 0 {
      var es := Blocks(first, n);
      assert es[1..] == Blocks(first + 256, n - 1);
      BlocksFlat(first + 256, n - 1);
      FlatHead(es);
      forall p | 256 <= p < 256 * n
        ensures Flat(es)[p] == first + p
      {
        assert Flat(es)[p] == Flat(es[1..])[p - 256];
      }
    }
  }

  /** 4097 MiB mapped from the beginning: the user sees page 0x10_0000 at byte 2^32, and
      the page that the debugger shows is page 0. */
  lemma DebugWraps()
    ensures var es := Blocks(0, 4097);
            && TotalPages(es) == 0x10_0100 && DistinctPages(es)
            && Flat(es)[TWO32 / PAGE] == 0x10_0000 && Flat(es)[TWO32 % TWO32 / PAGE] == 0
  {
    hide Flat, Blocks;
    BlocksFlat(0, 4097);
    FlatLength(Blocks(0, 4097));
  }
}
