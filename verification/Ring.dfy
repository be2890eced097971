/** The command and status rings between software and hardware. The software side is the
    driver of the ring test; the hardware is a peer that may fetch, acknowledge and answer
    at any time, as far as its own ring registers allow. */
module Ring {
  import opened RingPointers

  const TAGS: nat := 1024

  /** A command slot: the tag in its last word, and the other words. */
  datatype Command = Command(tag: nat, body: int)

  function Size(Q: nat): nat {
    ITEM * (4 * Q)
  }

  /** A pointer, or an amount of space, at a quarter of the ring. */
  predicate AtQuarter(p: nat, Q: nat)
    requires Q >= 1
  {
    p % (ITEM * Q) == 0
  }

  function Slot(k: nat, S: nat): (r: nat)
    requires S >= 1
    ensures r < S
  {
    k % S
  }

  // ----------------------------------------------------------------- the driver

  /** What the driver keeps and shares: both rings' memory and pointers, the completion
      records and their free list. A status slot is represented by its last word, the tag.
      `called` is the trace of finish callbacks, each with its own argument. */
  datatype Soft = Soft(
    first: nat, last: nat, cachedSpace: nat, cmdMem: seq<Command>,
    statusLast: nat, statusReported: nat, statusMem: seq<nat>,
    inUse: seq<bool>, arg: seq<int>, free: seq<nat>, called: seq<int>)

  predicate Shaped(Q: nat, s: Soft) {
    && Q >= 1
    && |s.cmdMem| == 4 * Q == |s.statusMem| && s.first < Size(Q) && s.statusLast < Size(Q)
    && s.first % ITEM == 0 && s.statusLast % ITEM == 0
    && |s.inUse| == TAGS == |s.arg|
    && (forall i :: 0 <= i < |s.free| ==> s.free[i] < TAGS)
  }

  /** The refresh in `ring_send`: the acknowledged pointer read back from the hardware. */
  function Refreshed(Q: nat, s: Soft, lastAck: nat): Soft
    requires Q >= 1 && s.first < Size(Q)
  {
    s.(last := lastAck, cachedSpace := (Size(Q) + lastAck - s.first - ITEM) % Size(Q))
  }

  /** The rest of `ring_send`, once there is space and a free completion. */
  function Sent(Q: nat, s: Soft, body: int, a: int): Soft
    requires Shaped(Q, s) && s.free != [] && s.cachedSpace >= ITEM
  {
    var tag := s.free[0];
    var next := if s.first + ITEM == Size(Q) then 0 else s.first + ITEM;
    s.(free := s.free[1..], inUse := s.inUse[tag := true], arg := s.arg[tag := a],
       cmdMem := s.cmdMem[s.first / ITEM := Command(tag, body)],
       first := next, cachedSpace := s.cachedSpace - ITEM)
  }

  /** `Ring_Handle_Completion` for the slot at the status pointer. */
  function Handled(Q: nat, s: Soft): Soft
    requires Shaped(Q, s) && s.statusMem[s.statusLast / ITEM] % 0x1_0000 < TAGS
  {
    var tag := s.statusMem[s.statusLast / ITEM] % 0x1_0000;
    s.(inUse := s.inUse[tag := false], called := s.called + [s.arg[tag]],
       statusMem := s.statusMem[s.statusLast / ITEM := 0], free := s.free + [tag])
  }

  /** `ring_pop` of the status ring: the hardware learns the pointer at each quarter. */
  function Popped(Q: nat, s: Soft): Soft
    requires Shaped(Q, s)
  {
    var last := if s.statusLast + ITEM >= Size(Q) then 0 else s.statusLast + ITEM;
    s.(statusMem := s.statusMem[s.statusLast / ITEM := 0], statusLast := last,
       statusReported := if AtQuarter(last, Q) then last else s.statusReported)
  }

  // -------------------------------------------------------------------- the system

  datatype Issue = Issue(cmd: Command, arg: int)

  /** The driver with the history of the run. Counts never wrap; pointers are their slots.
      `known` is the acknowledgement the driver last heard of, `owner` the command that
      holds each tag in use, `refreshed` that the space was just refreshed. */
  datatype World = World(
    soft: Soft, refreshed: bool,
    issued: seq<Issue>, published: nat, fetched: seq<Command>, acked: nat, known: nat,
    answered: seq<nat>, handled: nat, reported: nat, owner: map<nat, nat>)

  datatype Action =
    | Refresh(ack: nat)
    | Send(body: int, arg: int)
    | Start
    | Poll
    | HwFetch
    | HwAck
    | HwAnswer(k: nat)

  /** The command ring as the driver keeps it: its cached space is exact for the last
      acknowledgement it heard of, and every command since then is intact in memory. */
  predicate CommandRing(Q: nat, w: World) {
    && Q >= 1
    && (var S := 4 * Q; var n := |w.issued|; var s := w.soft;
        && s.first == ITEM * Slot(n, S) && s.last == ITEM * Slot(w.known, S)
        && w.known <= w.acked <= |w.fetched| <= w.published <= n < w.known + S
        && s.cachedSpace == ITEM * (S - 1 - (n - w.known))
        && |s.cmdMem| == S
        && (forall k :: w.known <= k < n ==> s.cmdMem[Slot(k, S)] == w.issued[k].cmd)
        && (forall k :: 0 <= k < |w.fetched| ==> w.fetched[k] == w.issued[k].cmd))
  }

  /** The status ring: the unread answers are in memory, every other slot is marked free,
      and the pointer reported to the hardware lags by less than a quarter. */
  predicate StatusRing(Q: nat, w: World) {
    && Q >= 1
    && (var S := 4 * Q; var s := w.soft;
        && |s.statusMem| == S
        && s.statusLast == ITEM * Slot(w.handled, S) && s.statusReported == ITEM * Slot(w.reported, S)
        && w.handled <= |w.answered| < w.reported + S
        && w.reported <= w.handled < w.reported + Q && w.reported % Q == 0
        && (forall i :: 0 <= i < |w.answered| ==> w.answered[i] < |w.fetched| <= |w.issued|)
        && (forall i, j :: 0 <= i < j < |w.answered| ==> w.answered[i] != w.answered[j])
        && (forall k :: 0 <= k < |w.issued| ==> 1 <= w.issued[k].cmd.tag < TAGS)
        && (forall k :: w.handled <= k < |w.answered| ==>
              s.statusMem[Slot(k, S)] == w.issued[w.answered[k]].cmd.tag)
        && (forall k :: |w.answered| <= k < w.handled + S ==> s.statusMem[Slot(k, S)] == 0))
  }

  /** Command `k` has been answered and its callback has run. */
  predicate Done(w: World, k: nat)
    requires w.handled <= |w.answered|
  {
    k in w.answered[..w.handled]
  }

  /** The free list holds exactly the tags of 1..1023 that are not in use, once each. */
  predicate FreeList(s: Soft) {
    && |s.inUse| == TAGS == |s.arg| && !s.inUse[0]
    && (forall i :: 0 <= i < |s.free| ==> 1 <= s.free[i] < TAGS && !s.inUse[s.free[i]])
    && (forall i, j :: 0 <= i < j < |s.free| ==> s.free[i] != s.free[j])
    && (forall t :: 1 <= t < TAGS && !s.inUse[t] ==> t in s.free)
  }

  /** Each tag in use belongs to one unfinished command and carries its argument, and
      every unfinished command holds its own tag. */
  ghost predicate Owners(w: World) {
    var s := w.soft;
    && w.handled <= |w.answered| && |s.inUse| == TAGS == |s.arg|
    && (forall t :: t in w.owner <==> 0 <= t < TAGS && s.inUse[t])
    && (forall t :: t in w.owner ==>
          && w.owner[t] < |w.issued| && !Done(w, w.owner[t])
          && w.issued[w.owner[t]].cmd.tag == t && w.issued[w.owner[t]].arg == s.arg[t])
    && (forall k :: 0 <= k < |w.issued| && !Done(w, k) ==>
          w.issued[k].cmd.tag in w.owner && w.owner[w.issued[k].cmd.tag] == k)
  }

  /** The callbacks run so far are those of the answers handled, in order. */
  predicate Callbacks(w: World) {
    && w.handled <= |w.answered| && |w.soft.called| == w.handled
    && (forall i :: 0 <= i < w.handled ==>
          w.answered[i] < |w.issued| && w.soft.called[i] == w.issued[w.answered[i]].arg)
  }

  /** The completion records. */
  ghost predicate Completions(w: World) {
    FreeList(w.soft) && Owners(w) && Callbacks(w)
  }

  ghost predicate Inv(Q: nat, w: World) {
    CommandRing(Q, w) && StatusRing(Q, w) && Completions(w)
  }

  lemma AtPointer(n: nat, S: nat)
    requires S >= 1
    ensures ITEM * Slot(n, S) / ITEM == Slot(n, S) && ITEM * Slot(n, S) < ITEM * S
    ensures ITEM * Slot(n, S) % ITEM == 0
  {
    var x := Slot(n, S);
    hide Slot;
  }

  lemma InvShaped(Q: nat, w: World)
    requires Inv(Q, w)
    ensures Shaped(Q, w.soft)
  {
    hide Slot, Owners, Callbacks;
    AtPointer(|w.issued|, 4 * Q);
    AtPointer(w.handled, 4 * Q);
  }

  function Below(n: nat): (r: set<nat>)
    ensures forall x: nat :: x in r <==> x < n
    ensures |r| == n
  {
    if n == 0 then {} else Below(n - 1) + {n - 1}
  }

  function Elements(xs: seq<nat>): (r: set<nat>)
    requires forall i, j :: 0 <= i < j < |xs| ==> xs[i] != xs[j]
    ensures forall x :: x in r <==> x in xs
    ensures |r| == |xs|
  {
    if xs == [] then {} else
      assert forall x :: x in xs <==> x in xs[..|xs| - 1] || x == xs[|xs| - 1];
      Elements(xs[..|xs| - 1]) + {xs[|xs| - 1]}
  }

  lemma BelowIs(n: nat)
    ensures |Below(n)| == n && forall x: nat :: x in Below(n) <==> x < n
  {
  }

  lemma ElementsAre(xs: seq<nat>)
    requires forall i, j :: 0 <= i < j < |xs| ==> xs[i] != xs[j]
    ensures |Elements(xs)| == |xs| && forall x :: x in Elements(xs) <==> x in xs
  {
  }

  lemma {:induction false} InjectiveSize(m: map<nat, nat>)
    requires forall s, t :: s in m && t in m && s != t ==> m[s] != m[t]
    ensures |m.Values| == |m.Keys|
    decreases |m.Keys|
  {
    if m.Keys == {} {
      assert m.Values == {};
    } else {
      var t :| t in m.Keys;
      var rest := m - {t};
      assert rest.Keys == m.Keys - {t};
      InjectiveSize(rest);
      forall v
        ensures v in m.Values <==> v in rest.Values + {m[t]}
      {
        if v in m.Values {
          var s :| s in m.Keys && m[s] == v;
          assert s == t || (s in rest && rest[s] == v);
        }
      }
      assert m.Values == rest.Values + {m[t]};
      assert m[t] !in rest.Values;
    }
  }

  /** A one-to-one map onto the numbers below `n` that are not in `done`. */
  lemma OntoOthers(m: map<nat, nat>, done: seq<nat>, n: nat)
    requires forall i, j :: 0 <= i < j < |done| ==> done[i] != done[j]
    requires forall i :: 0 <= i < |done| ==> done[i] < n
    requires forall s, t :: s in m && t in m && s != t ==> m[s] != m[t]
    requires forall k: nat :: k in m.Values <==> k < n && k !in done
    ensures |m.Keys| == n - |done|
  {
    hide Below, Elements;
    ElementsAre(done);
    BelowIs(n);
    var all, gone := Below(n), Elements(done);
    assert gone <= all;
    assert |all - gone| == |all| - |gone|;
    assert m.Values == all - gone;
    InjectiveSize(m);
  }

  /** A list and a set that share the numbers 1 to n - 1 between them. */
  lemma SharedOut(free: seq<nat>, used: set<nat>, n: nat)
    requires n >= 1
    requires forall i, j :: 0 <= i < j < |free| ==> free[i] != free[j]
    requires forall t :: t in used ==> t !in free
    requires forall t: nat :: t in free || t in used <==> 1 <= t < n
    ensures |free| + |used| == n - 1
  {
    hide Below, Elements;
    ElementsAre(free);
    BelowIs(n);
    SameSize(Elements(free), used, Below(n));
  }

  lemma SameSize(e: set<nat>, used: set<nat>, all: set<nat>)
    requires 0 in all && e !! used && forall t: nat :: t in e + used <==> t in all - {0}
    ensures |e| + |used| == |all| - 1
  {
    assert e + used == all - {0};
  }

  /** Commands sent whose callback has not run. */
  function Unfinished(w: World): int {
    |w.issued| - w.handled
  }

  /** As many tags are in use as commands are unfinished. */
  lemma UsedTags(w: World)
    requires Owners(w)
    requires forall i :: 0 <= i < |w.answered| ==> w.answered[i] < |w.issued|
    requires forall i, j :: 0 <= i < j < |w.answered| ==> w.answered[i] != w.answered[j]
    ensures |w.owner.Keys| == Unfinished(w)
  {
    forall k: nat
      ensures k in w.owner.Values <==> k < |w.issued| && k !in w.answered[..w.handled]
    {
      if k < |w.issued| && !Done(w, k) {
        assert w.owner[w.issued[k].cmd.tag] == k;
      }
      if k in w.owner.Values {
        var t :| t in w.owner && w.owner[t] == k;
        assert !Done(w, k);
      }
    }
    OntoOthers(w.owner, w.answered[..w.handled], |w.issued|);
  }

  /** The tags not in use are the free list. */
  lemma FreeTags(w: World)
    requires FreeList(w.soft) && Owners(w)
    ensures |w.soft.free| + |w.owner.Keys| == TAGS - 1
  {
    hide Done;
    SharedOut(w.soft.free, w.owner.Keys, TAGS);
  }

  /** The free list is as long as the number of commands that could still be sent, so the
      driver finds a free completion exactly when fewer than 1023 are unfinished. */
  lemma FreeCount(Q: nat, w: World)
    requires Inv(Q, w)
    ensures |w.soft.free| == TAGS - 1 - Unfinished(w)
    ensures w.soft.free != [] <==> Unfinished(w) < TAGS - 1
  {
    hide CommandRing, Completions, FreeList, Owners, StatusRing;
    AnswersDistinct(Q, w);
    assert FreeList(w.soft) && Owners(w) by { CompletionsHold(w); }
    UsedTags(w);
    FreeTags(w);
  }

  lemma CompletionsHold(w: World)
    requires Completions(w)
    ensures FreeList(w.soft) && Owners(w) && Callbacks(w)
  {
  }

  lemma AnswersDistinct(Q: nat, w: World)
    requires StatusRing(Q, w)
    ensures forall i :: 0 <= i < |w.answered| ==> w.answered[i] < |w.issued|
    ensures forall i, j :: 0 <= i < j < |w.answered| ==> w.answered[i] != w.answered[j]
  {
  }

  /** What driver and hardware may do. Sending while 1023 commands are unfinished stops the
      program, see FreeCount. */
  ghost predicate Enabled(Q: nat, w: World, a: Action)
    requires Inv(Q, w)
  {
    var s := w.soft;
    var S := 4 * Q;
    match a
    case Refresh(ack) => AtQuarter(s.cachedSpace, Q) && w.known <= ack <= w.acked
    case Send(_, _) => (!AtQuarter(s.cachedSpace, Q) || (w.refreshed && s.cachedSpace != 0)) && Unfinished(w) < TAGS - 1
    case Start => true
    case Poll => s.statusMem[s.statusLast / ITEM] != 0
    case HwFetch => |w.fetched| < w.published
    case HwAck => w.acked < |w.fetched|
    case HwAnswer(k) =>
      k < |w.fetched| && k !in w.answered &&
      (ITEM * Slot(|w.answered|, S) + ITEM) % Size(Q) != s.statusReported
  }

  lemma ZeroMod(d: nat)
    requires d > 0
    ensures 0 % d == 0
  {
  }

  /** A send that passes the driver's space test has a slot to use. */
  lemma SendHasSpace(Q: nat, w: World)
    requires CommandRing(Q, w) && (!AtQuarter(w.soft.cachedSpace, Q) || w.soft.cachedSpace != 0)
    ensures w.soft.cachedSpace >= ITEM && |w.issued| + 1 < w.known + 4 * Q
  {
    ZeroMod(ITEM * Q);
  }

  lemma PollFinds(Q: nat, w: World)
    requires StatusRing(Q, w) && w.soft.statusMem[w.soft.statusLast / ITEM] != 0
    ensures w.handled < |w.answered|
    ensures w.soft.statusLast / ITEM == Slot(w.handled, 4 * Q)
    ensures w.soft.statusMem[w.soft.statusLast / ITEM] == w.issued[w.answered[w.handled]].cmd.tag
    ensures forall i :: 0 <= i < w.handled ==> w.answered[i] != w.answered[w.handled]
  {
    AtPointer(w.handled, 4 * Q);
    var x := w.soft.statusMem[Slot(w.handled, 4 * Q)];
  }

  lemma TagIsOwned(w: World, k: nat)
    requires Completions(w) && k < |w.issued| && !Done(w, k)
    ensures var tag := w.issued[k].cmd.tag;
            tag < TAGS && w.soft.inUse[tag] && tag in w.owner && w.owner[tag] == k && w.soft.arg[tag] == w.issued[k].arg
  {
    assert w.issued[k].cmd.tag in w.owner;
  }

  /** Guarded actions keep the driver's own assertions: the space is there to use, and the
      tag found in a status slot is a completion in use. */
  lemma ActionsAreSafe(Q: nat, w: World, a: Action)
    requires Inv(Q, w) && Enabled(Q, w, a)
    ensures Shaped(Q, w.soft)
    ensures a.Send? ==> w.soft.cachedSpace >= ITEM && w.soft.free != [] && !w.soft.inUse[w.soft.free[0]]
    ensures a.Poll? ==>
      && w.handled < |w.answered|
      && var tag := w.soft.statusMem[w.soft.statusLast / ITEM];
         && tag < TAGS && tag % 0x1_0000 == tag == w.issued[w.answered[w.handled]].cmd.tag
         && tag in w.owner && w.soft.inUse[tag] && w.owner[tag] == w.answered[w.handled]
  {
    hide CommandRing, StatusRing, Completions;
    InvShaped(Q, w);
    if a.Send? {
      SendHasSpace(Q, w);
      FreeCount(Q, w);
      FreeIsFree(w);
    } else if a.Poll? {
      PollFinds(Q, w);
      AnswerValid(Q, w);
      var k := w.answered[w.handled];
      TagIsOwned(w, k);
    }
  }

  lemma FreeIsFree(w: World)
    requires Completions(w) && w.soft.free != []
    ensures |w.soft.inUse| == TAGS && 1 <= w.soft.free[0] < TAGS && !w.soft.inUse[w.soft.free[0]]
  {
  }

  lemma AnswerValid(Q: nat, w: World)
    requires StatusRing(Q, w) && w.handled < |w.answered|
    ensures w.answered[w.handled] < |w.issued| && !Done(w, w.answered[w.handled])
    ensures 1 <= w.issued[w.answered[w.handled]].cmd.tag < TAGS
  {
  }

  ghost function Next(Q: nat, w: World, a: Action): World
    requires Inv(Q, w) && Enabled(Q, w, a)
  {
    ActionsAreSafe(Q, w, a);
    var s := w.soft;
    var S := 4 * Q;
    match a
    case Refresh(ack) =>
      w.(soft := Refreshed(Q, s, ITEM * Slot(ack, S)), known := ack, refreshed := true)
    case Send(body, arg) =>
      var tag := s.free[0];
      w.(soft := Sent(Q, s, body, arg), issued := w.issued + [Issue(Command(tag, body), arg)],
         owner := w.owner[tag := |w.issued|], refreshed := false)
    case Start => w.(published := |w.issued|)
    case Poll =>
      var tag := s.statusMem[s.statusLast / ITEM];
      w.(soft := Popped(Q, Handled(Q, s)), handled := w.handled + 1,
         reported := if (w.handled + 1) % Q == 0 then w.handled + 1 else w.reported,
         owner := w.owner - {tag})
    case HwFetch => w.(fetched := w.fetched + [s.cmdMem[Slot(|w.fetched|, S)]])
    case HwAck => w.(acked := w.acked + 1)
    case HwAnswer(k) =>
      w.(soft := s.(statusMem := s.statusMem[Slot(|w.answered|, S) := w.fetched[k].tag]),
         answered := w.answered + [k])
  }

  // ---------------------------------------------------- every action keeps the rings

  lemma RefreshKeeps(Q: nat, w: World, ack: nat)
    requires Inv(Q, w) && Enabled(Q, w, Refresh(ack))
    ensures CommandRing(Q, Next(Q, w, Refresh(ack)))
  {
    hide StatusRing, Completions;
    SpaceFromPointers(ack, |w.issued|, 4 * Q);
  }

  lemma SendKeepsCommands(Q: nat, w: World, body: int, arg: int)
    requires Inv(Q, w) && Enabled(Q, w, Send(body, arg))
    ensures CommandRing(Q, Next(Q, w, Send(body, arg)))
  {
    hide StatusRing, Completions;
    var S, n := 4 * Q, |w.issued|;
    SendHasSpace(Q, w);
    SlotNext(n, S);
    AtPointer(n, S);
    var w' := Next(Q, w, Send(body, arg));
    forall k | w'.known <= k < n + 1
      ensures w'.soft.cmdMem[Slot(k, S)] == w'.issued[k].cmd
    {
      if k < n {
        SlotsDiffer(k, n, S);
      }
    }
  }

  lemma FetchKeeps(Q: nat, w: World)
    requires Inv(Q, w) && Enabled(Q, w, HwFetch)
    ensures CommandRing(Q, Next(Q, w, HwFetch))
  {
    hide StatusRing, Completions;
  }

  lemma PollKeepsStatus(Q: nat, w: World)
    requires Inv(Q, w) && Enabled(Q, w, Poll)
    ensures StatusRing(Q, Next(Q, w, Poll))
  {
    hide CommandRing, Completions;
    var S, h := 4 * Q, w.handled;
    var w' := Next(Q, w, Poll);
    PollFinds(Q, w);
    SlotNext(h, S);
    AtPointer(h, S);
    QuarterPointer(h + 1, Q);
    ReportLag(w.reported, h, Q);
    forall k | h + 1 <= k < h + 1 + S
      ensures k < |w.answered| ==> w'.soft.statusMem[Slot(k, S)] == w.issued[w.answered[k]].cmd.tag
      ensures k >= |w.answered| ==> w'.soft.statusMem[Slot(k, S)] == 0
    {
      if k < h + S {
        SlotsDiffer(h, k, S);
      } else {
        SlotSame(h, S);
      }
    }
  }

  /** Reporting at every multiple of Q keeps the lag below Q. */
  lemma ReportLag(reported: nat, h: nat, Q: nat)
    requires Q >= 1 && reported <= h < reported + Q && reported % Q == 0
    ensures (h + 1) % Q != 0 ==> h + 1 < reported + Q
  {
    if h + 1 == reported + Q {
      SlotSame(reported, Q);
    }
  }

  lemma FetchedIsSent(Q: nat, w: World, k: nat)
    requires CommandRing(Q, w) && k < |w.fetched|
    ensures |w.fetched| <= |w.issued| && w.fetched[k] == w.issued[k].cmd
  {
  }

  lemma AnswerKeepsStatus(Q: nat, w: World, a: nat)
    requires Inv(Q, w) && Enabled(Q, w, HwAnswer(a))
    ensures StatusRing(Q, Next(Q, w, HwAnswer(a)))
  {
    hide Completions, CommandRing;
    var S, n := 4 * Q, |w.answered|;
    FetchedIsSent(Q, w, a);
    var w' := Next(Q, w, HwAnswer(a));
    NotFull(n, w.reported, Q);
    forall k | w.handled <= k < w.handled + S
      ensures k < n + 1 ==> w'.soft.statusMem[Slot(k, S)] == w'.issued[w'.answered[k]].cmd.tag
      ensures k >= n + 1 ==> w'.soft.statusMem[Slot(k, S)] == 0
    {
      if k < n {
        SlotsDiffer(k, n, S);
      } else if k > n {
        SlotsDiffer(n, k, S);
      }
    }
  }

  lemma PointerNext(n: nat, Q: nat)
    requires Q >= 1
    ensures (ITEM * Slot(n, 4 * Q) + ITEM) % Size(Q) == ITEM * Slot(n + 1, 4 * Q)
  {
    var S := 4 * Q;
    SlotNext(n, S);
    ScaledMod(Slot(n, S) + 1, S);
    if Slot(n, S) + 1 == S {
      SlotSame(0, S);
    } else {
      SmallMod(Slot(n, S) + 1, S);
    }
  }

  lemma SmallMod(x: nat, S: nat)
    requires x < S
    ensures x % S == x
  {
  }

  /** The hardware's full test, on pointers, leaves a slot between the two ends. */
  lemma NotFull(n: nat, reported: nat, Q: nat)
    requires Q >= 1 && reported <= n < reported + 4 * Q
    requires (ITEM * Slot(n, 4 * Q) + ITEM) % Size(Q) != ITEM * Slot(reported, 4 * Q)
    ensures n + 1 < reported + 4 * Q
  {
    PointerNext(n, Q);
    if n + 1 == reported + 4 * Q {
      SlotSame(reported, 4 * Q);
    }
  }

  /** The status ring does not depend on the command side, beyond commands only growing. */
  lemma StatusFrame(Q: nat, w: World, w': World)
    requires StatusRing(Q, w)
    requires w'.soft.statusMem == w.soft.statusMem
    requires w'.soft.statusLast == w.soft.statusLast && w'.soft.statusReported == w.soft.statusReported
    requires w'.answered == w.answered && w'.handled == w.handled && w'.reported == w.reported
    requires w.issued <= w'.issued && |w.fetched| <= |w'.fetched| <= |w'.issued|
    requires forall k :: |w.issued| <= k < |w'.issued| ==> 1 <= w'.issued[k].cmd.tag < TAGS
    ensures StatusRing(Q, w')
  {
  }

  lemma StatusUntouched(Q: nat, w: World, a: Action)
    requires Inv(Q, w) && Enabled(Q, w, a) && !a.Poll? && !a.HwAnswer?
    ensures StatusRing(Q, Next(Q, w, a))
  {
    hide Completions, StatusRing, Slot, AtQuarter;
    ActionsAreSafe(Q, w, a);
    if a.Send? {
      FreeIsFree(w);
    }
    StatusFrame(Q, w, Next(Q, w, a));
  }

  lemma CommandsUntouched(Q: nat, w: World, a: Action)
    requires Inv(Q, w) && Enabled(Q, w, a) && !a.Refresh? && !a.Send? && !a.HwFetch?
    ensures CommandRing(Q, Next(Q, w, a))
  {
    ActionsAreSafe(Q, w, a);
    hide Completions, StatusRing;
  }

  // ------------------------------------------------ every action keeps the completions

  /** Taking the first free tag. */
  lemma TakeKeepsFree(s: Soft, s': Soft)
    requires FreeList(s) && s.free != []
    requires s'.inUse == s.inUse[s.free[0] := true] && |s'.arg| == TAGS && s'.free == s.free[1..]
    ensures FreeList(s')
  {
    assert forall t :: t in s.free && t != s.free[0] ==> t in s.free[1..];
  }

  /** A new command owns a tag that nobody held. */
  lemma TakeKeepsOwners(w: World, w': World, tag: nat, i: Issue)
    requires Owners(w) && tag < TAGS && !w.soft.inUse[tag] && i.cmd.tag == tag
    requires forall k :: 0 <= k < w.handled ==> w.answered[k] < |w.issued|
    requires w'.soft.inUse == w.soft.inUse[tag := true] && w'.soft.arg == w.soft.arg[tag := i.arg]
    requires w'.issued == w.issued + [i] && w'.answered == w.answered && w'.handled == w.handled
    requires w'.owner == w.owner[tag := |w.issued|]
    ensures Owners(w')
  {
    assert !Done(w', |w.issued|);
    assert forall k :: Done(w', k) <==> Done(w, k);
  }

  lemma SendKeepsCompletions(Q: nat, w: World, body: int, arg: int)
    requires Inv(Q, w) && Enabled(Q, w, Send(body, arg))
    ensures Completions(Next(Q, w, Send(body, arg)))
  {
    hide CommandRing, StatusRing, FreeList, Owners;
    ActionsAreSafe(Q, w, Send(body, arg));
    FreeIsFree(w);
    var w', tag := Next(Q, w, Send(body, arg)), w.soft.free[0];
    TakeKeepsFree(w.soft, w'.soft);
    TakeKeepsOwners(w, w', tag, Issue(Command(tag, body), arg));
  }

  /** Returning a tag puts it at the end of the free list. */
  lemma ReleaseKeepsFree(s: Soft, s': Soft, tag: nat)
    requires FreeList(s) && 1 <= tag < TAGS && s.inUse[tag]
    requires s'.inUse == s.inUse[tag := false] && |s'.arg| == TAGS && s'.free == s.free + [tag]
    ensures FreeList(s')
  {
  }

  /** Finishing a command gives up its tag and no other. */
  lemma ReleaseKeepsOwners(w: World, w': World, k0: nat, tag: nat)
    requires Owners(w) && w.handled < |w.answered| && k0 == w.answered[w.handled] < |w.issued| && !Done(w, k0)
    requires tag == w.issued[k0].cmd.tag < TAGS
    requires w'.soft.inUse == w.soft.inUse[tag := false] && w'.soft.arg == w.soft.arg
    requires w'.issued == w.issued && w'.answered == w.answered && w'.handled == w.handled + 1
    requires w'.owner == w.owner - {tag}
    ensures Owners(w')
  {
    assert w.answered[..w.handled + 1] == w.answered[..w.handled] + [k0];
    assert forall k :: Done(w', k) <==> Done(w, k) || k == k0;
  }

  lemma PollKeepsCompletions(Q: nat, w: World)
    requires Inv(Q, w) && Enabled(Q, w, Poll)
    ensures Completions(Next(Q, w, Poll))
  {
    hide CommandRing, Owners, FreeList;
    ActionsAreSafe(Q, w, Poll);
    PollFinds(Q, w);
    AnswerValid(Q, w);
    hide StatusRing;
    var k0 := w.answered[w.handled];
    TagIsOwned(w, k0);
    var w' := Next(Q, w, Poll);
    ReleaseKeepsFree(w.soft, w'.soft, w.issued[k0].cmd.tag);
    ReleaseKeepsOwners(w, w', k0, w.issued[k0].cmd.tag);
  }

  lemma CompletionsUntouched(Q: nat, w: World, a: Action)
    requires Inv(Q, w) && Enabled(Q, w, a) && !a.Send? && !a.Poll?
    ensures Completions(Next(Q, w, a))
  {
    hide CommandRing, FreeList;
    var w' := Next(Q, w, a);
    assert w'.answered[..w.handled] == w.answered[..w.handled];
    SameCompletions(w, w');
    hide StatusRing;
  }

  lemma SameCompletions(w: World, w': World)
    requires Completions(w) && w'.handled == w.handled <= |w'.answered|
    requires w'.answered[..w.handled] == w.answered[..w.handled]
    requires w'.issued == w.issued && w'.owner == w.owner
    requires w'.soft.inUse == w.soft.inUse && w'.soft.arg == w.soft.arg
    requires w'.soft.free == w.soft.free && w'.soft.called == w.soft.called
    ensures Completions(w')
  {
    assert forall k :: Done(w', k) <==> Done(w, k);
    assert forall i :: 0 <= i < w.handled ==> w'.answered[i] == w'.answered[..w.handled][i] == w.answered[i];
  }

  // ----------------------------------------------------------------------- runs

  lemma StepKeeps(Q: nat, w: World, a: Action)
    requires Inv(Q, w) && Enabled(Q, w, a)
    ensures Inv(Q, Next(Q, w, a))
  {
    match a
    case Refresh(ack) => RefreshKeeps(Q, w, ack); StatusUntouched(Q, w, a); CompletionsUntouched(Q, w, a);
    case Send(body, arg) =>
      SendKeepsCommands(Q, w, body, arg);
      StatusUntouched(Q, w, a);
      SendKeepsCompletions(Q, w, body, arg);
    case Start => CommandsUntouched(Q, w, a); StatusUntouched(Q, w, a); CompletionsUntouched(Q, w, a);
    case Poll => CommandsUntouched(Q, w, a); PollKeepsStatus(Q, w); PollKeepsCompletions(Q, w);
    case HwFetch => FetchKeeps(Q, w); StatusUntouched(Q, w, a); CompletionsUntouched(Q, w, a);
    case HwAck => CommandsUntouched(Q, w, a); StatusUntouched(Q, w, a); CompletionsUntouched(Q, w, a);
    case HwAnswer(k) => CommandsUntouched(Q, w, a); AnswerKeepsStatus(Q, w, k); CompletionsUntouched(Q, w, a);
  }

  /** The driver after `completion_list_init` and `ring_init`: all slots of the status ring
      are zero, whatever the command ring holds. */
  function Initial(Q: nat, mem: seq<Command>): World {
    World(Soft(0, 0, if Q >= 1 then Size(Q) - ITEM else 0, mem, 0, 0, seq(4 * Q, _ => 0),
               seq(TAGS, _ => false), seq(TAGS, _ => 0), seq(TAGS - 1, i => i + 1), []),
          false, [], 0, [], 0, 0, [], 0, 0, map[])
  }

  lemma InitialInv(Q: nat, mem: seq<Command>)
    requires Q >= 1 && |mem| == 4 * Q
    ensures Inv(Q, Initial(Q, mem))
  {
    var w := Initial(Q, mem);
    SmallMod(0, 4 * Q);
    ZeroMod(Q);
    forall t | 1 <= t < TAGS
      ensures t in w.soft.free
    {
      assert w.soft.free[t - 1] == t;
    }
  }

  ghost predicate Legal(Q: nat, w: World, actions: seq<Action>)
    requires Inv(Q, w)
    decreases |actions|
  {
    actions == [] ||
    (Enabled(Q, w, actions[0]) && (StepKeeps(Q, w, actions[0]); Legal(Q, Next(Q, w, actions[0]), actions[1..])))
  }

  /** The state after any legal sequence of actions of the driver and the hardware. */
  ghost function Run(Q: nat, w: World, actions: seq<Action>): (r: World)
    requires Inv(Q, w) && Legal(Q, w, actions)
    ensures Inv(Q, r)
    decreases |actions|
  {
    if actions == [] then w
    else
      StepKeeps(Q, w, actions[0]);
      Run(Q, Next(Q, w, actions[0]), actions[1..])
  }

  // ------------------------------------------------------------------- consequences

  /** Free space according to the hardware's live acknowledge pointer. */
  function TrueSpace(Q: nat, w: World): nat
    requires Q >= 1
  {
    (Size(Q) + ITEM * Slot(w.acked, 4 * Q) - w.soft.first - ITEM) % Size(Q)
  }

  /** The cached space is a whole number of slots and never more than the true space. */
  lemma SpaceIsConservative(Q: nat, w: World)
    requires CommandRing(Q, w)
    ensures w.soft.cachedSpace % ITEM == 0 && w.soft.cachedSpace <= TrueSpace(Q, w)
  {
    SpaceFromPointers(w.acked, |w.issued|, 4 * Q);
  }

  /** The slot that a send writes last held a command that the hardware has acknowledged. */
  lemma SendOverwritesOnlyAcknowledged(Q: nat, w: World, k: nat)
    requires CommandRing(Q, w) && (!AtQuarter(w.soft.cachedSpace, Q) || w.soft.cachedSpace != 0)
    requires k < |w.issued| && Slot(k, 4 * Q) == w.soft.first / ITEM
    ensures k < w.known <= w.acked
  {
    SendHasSpace(Q, w);
    AtPointer(|w.issued|, 4 * Q);
    if k >= w.known {
      SlotsDiffer(k, |w.issued|, 4 * Q);
    }
  }

  /** When every command has been answered and every answer read, each command's callback
      has run, and as many callbacks as commands have run. */
  lemma CallbacksComplete(Q: nat, w: World, k: nat)
    requires StatusRing(Q, w) && Callbacks(w)
    requires |w.answered| == |w.issued| && w.handled == |w.answered| && k < |w.issued|
    ensures |w.soft.called| == |w.issued| && CalledBack(w, k)
  {
    Pigeonhole(w.answered, k);
    var i :| 0 <= i < |w.answered| && w.answered[i] == k;
  }

  /** As many distinct numbers below n as n are all of them. */
  lemma Pigeonhole(xs: seq<nat>, k: nat)
    requires forall i :: 0 <= i < |xs| ==> xs[i] < |xs|
    requires forall i, j :: 0 <= i < j < |xs| ==> xs[i] != xs[j]
    requires k < |xs|
    ensures k in xs
  {
    SubsetFull(Elements(xs), Below(|xs|));
    assert k in Below(|xs|);
  }

  lemma SubsetFull(a: set<nat>, b: set<nat>)
    requires a <= b && |a| == |b|
    ensures a == b
  {
    assert b == a + (b - a);
    assert |b| == |a| + |b - a|;
  }

  // ---------------------------------------------------- what the actions asked for

  /** The commands that the driver sends in a run, with their callbacks' arguments. */
  function Sends(actions: seq<Action>): seq<(int, int)> {
    if actions == [] then []
    else (if actions[0].Send? then [(actions[0].body, actions[0].arg)] else []) + Sends(actions[1..])
  }

  function Contents(issued: seq<Issue>): seq<(int, int)> {
    seq(|issued|, k requires 0 <= k < |issued| => (issued[k].cmd.body, issued[k].arg))
  }

  lemma HistoryStep(Q: nat, w: World, a: Action)
    requires Inv(Q, w) && Enabled(Q, w, a)
    ensures Contents(Next(Q, w, a).issued) == Contents(w.issued) + if a.Send? then [(a.body, a.arg)] else []
    ensures !a.Send? ==> Next(Q, w, a).issued == w.issued
  {
    hide CommandRing, StatusRing, Completions;
  }

  lemma {:induction false} IssuedAre(Q: nat, w: World, actions: seq<Action>)
    requires Inv(Q, w) && Legal(Q, w, actions)
    ensures Contents(Run(Q, w, actions).issued) == Contents(w.issued) + Sends(actions)
    decreases |actions|
  {
    hide Inv, Enabled, Next, Contents;
    if actions != [] {
      var a := actions[0];
      StepKeeps(Q, w, a);
      HistoryStep(Q, w, a);
      IssuedAre(Q, Next(Q, w, a), actions[1..]);
      var more := if a.Send? then [(a.body, a.arg)] else [];
      assert (Contents(w.issued) + more) + Sends(actions[1..]) == Contents(w.issued) + (more + Sends(actions[1..]));
    }
  }

  /** One action before a run. */
  lemma RunFrom(Q: nat, w: World, a: Action, rest: seq<Action>)
    requires Inv(Q, w) && Enabled(Q, w, a) && Inv(Q, Next(Q, w, a)) && Legal(Q, Next(Q, w, a), rest)
    ensures Legal(Q, w, [a] + rest) && Run(Q, w, [a] + rest) == Run(Q, Next(Q, w, a), rest)
    ensures Sends([a] + rest) == (if a.Send? then [(a.body, a.arg)] else []) + Sends(rest)
  {
    hide Inv, Enabled, Next;
    assert ([a] + rest)[1..] == rest;
  }

  lemma {:induction false} RunConcat(Q: nat, w: World, xs: seq<Action>, ys: seq<Action>)
    requires Inv(Q, w) && Legal(Q, w, xs) && Legal(Q, Run(Q, w, xs), ys)
    ensures Legal(Q, w, xs + ys) && Run(Q, w, xs + ys) == Run(Q, Run(Q, w, xs), ys)
    decreases |xs|
  {
    hide Inv, Enabled, Next;
    if xs == [] {
      assert xs + ys == ys;
    } else {
      assert (xs + ys)[0] == xs[0] && (xs + ys)[1..] == xs[1..] + ys;
      StepKeeps(Q, w, xs[0]);
      RunConcat(Q, Next(Q, w, xs[0]), xs[1..], ys);
    }
  }

  lemma {:induction false} SendsConcat(xs: seq<Action>, ys: seq<Action>)
    ensures Sends(xs + ys) == Sends(xs) + Sends(ys)
    decreases |xs|
  {
    if xs == [] {
      assert xs + ys == ys;
    } else {
      assert (xs + ys)[0] == xs[0] && (xs + ys)[1..] == xs[1..] + ys;
      SendsConcat(xs[1..], ys);
    }
  }

  // ------------------------------------------------------------- nothing gets stuck

  /** A run that adds no command and keeps the answers and callbacks. */
  ghost predicate Continues(Q: nat, w: World, actions: seq<Action>)
    requires Inv(Q, w)
  {
    Legal(Q, w, actions) && Sends(actions) == [] && Run(Q, w, actions).issued == w.issued
  }

  lemma ContinuesStep(Q: nat, w: World, a: Action, rest: seq<Action>)
    requires Inv(Q, w) && Enabled(Q, w, a) && !a.Send? && Inv(Q, Next(Q, w, a)) && Continues(Q, Next(Q, w, a), rest)
    ensures Continues(Q, w, [a] + rest) && Run(Q, w, [a] + rest) == Run(Q, Next(Q, w, a), rest)
  {
    HistoryStep(Q, w, a);
    RunFrom(Q, w, a, rest);
  }

  lemma ContinuesConcat(Q: nat, w: World, xs: seq<Action>, ys: seq<Action>)
    requires Inv(Q, w) && Continues(Q, w, xs) && Continues(Q, Run(Q, w, xs), ys)
    ensures Continues(Q, w, xs + ys) && Run(Q, w, xs + ys) == Run(Q, Run(Q, w, xs), ys)
  {
    hide Inv, Legal, Run;
    RunConcat(Q, w, xs, ys);
    SendsConcat(xs, ys);
  }

  /** The hardware fetches all that is published. */
  lemma {:induction false} FetchAll(Q: nat, w: World) returns (actions: seq<Action>)
    requires Inv(Q, w) && w.published == |w.issued|
    ensures Continues(Q, w, actions) && |Run(Q, w, actions).fetched| == |w.issued|
    decreases |w.issued| - |w.fetched|
  {
    hide StatusRing, Completions, CommandRing;
    CommandCounts(Q, w);
    if |w.fetched| == |w.issued| {
      actions := [];
    } else {
      StepKeeps(Q, w, HwFetch);
      CommandCounts(Q, Next(Q, w, HwFetch));
      var rest := FetchAll(Q, Next(Q, w, HwFetch));
      actions := [HwFetch] + rest;
      ContinuesStep(Q, w, HwFetch, rest);
    }
  }

  lemma CommandCounts(Q: nat, w: World)
    requires CommandRing(Q, w)
    ensures w.known <= w.acked <= |w.fetched| <= w.published <= |w.issued|
  {
  }

  /** The hardware acknowledges all that it has fetched. */
  lemma {:induction false} AckAll(Q: nat, w: World) returns (actions: seq<Action>)
    requires Inv(Q, w) && |w.fetched| == |w.issued|
    ensures Continues(Q, w, actions)
    ensures var w' := Run(Q, w, actions); |w'.fetched| == w'.acked == |w.issued|
    decreases |w.issued| - w.acked
  {
    hide StatusRing, Completions, CommandRing;
    CommandCounts(Q, w);
    if w.acked == |w.issued| {
      actions := [];
    } else {
      StepKeeps(Q, w, HwAck);
      CommandCounts(Q, Next(Q, w, HwAck));
      var rest := AckAll(Q, Next(Q, w, HwAck));
      actions := [HwAck] + rest;
      ContinuesStep(Q, w, HwAck, rest);
    }
  }

  predicate Acknowledged(w: World) {
    |w.fetched| == w.acked == |w.issued|
  }

  /** An answer that has not been read can be. */
  lemma PollReady(Q: nat, w: World)
    requires Inv(Q, w) && w.handled < |w.answered|
    ensures Enabled(Q, w, Poll)
  {
    hide CommandRing, Completions;
    AtPointer(w.handled, 4 * Q);
    assert w.soft.statusMem[Slot(w.handled, 4 * Q)] == w.issued[w.answered[w.handled]].cmd.tag;
  }

  lemma StatusCounts(Q: nat, w: World)
    requires StatusRing(Q, w)
    ensures Q >= 1 && w.handled <= |w.answered| && w.reported <= w.handled < w.reported + Q
    ensures w.soft.statusReported == ITEM * Slot(w.reported, 4 * Q)
  {
  }

  /** The driver reads every answer. */
  lemma {:induction false} PollAll(Q: nat, w: World) returns (actions: seq<Action>)
    requires Inv(Q, w) && Acknowledged(w)
    ensures Continues(Q, w, actions)
    ensures var w' := Run(Q, w, actions); Acknowledged(w') && w'.handled == |w'.answered|
    decreases |w.answered| - w.handled
  {
    hide StatusRing, Completions, CommandRing;
    StatusCounts(Q, w);
    if w.handled == |w.answered| {
      actions := [];
    } else {
      PollReady(Q, w);
      StepKeeps(Q, w, Poll);
      var v := Next(Q, w, Poll);
      var rest := PollAll(Q, v);
      actions := [Poll] + rest;
      ContinuesStep(Q, w, Poll, rest);
    }
  }

  /** A command that has not been answered. */
  lemma Unanswered(answered: seq<nat>, n: nat) returns (k: nat)
    requires forall i, j :: 0 <= i < j < |answered| ==> answered[i] != answered[j]
    requires |answered| < n
    ensures k < n && k !in answered
  {
    hide Below, Elements;
    ElementsAre(answered);
    BelowIs(n);
    var e, all := Elements(answered), Below(n);
    if all <= e {
      SubsetSize(all, e);
    }
    k :| k in all && k !in e;
  }

  lemma SubsetSize(a: set<nat>, b: set<nat>)
    requires a <= b
    ensures |a| <= |b|
  {
    assert b == a + (b - a);
    assert |b| == |a| + |b - a|;
  }

  /** With every answer read, the hardware's full test leaves room for another. */
  lemma AnswerReady(Q: nat, w: World, k: nat)
    requires Inv(Q, w) && w.handled == |w.answered| && k < |w.fetched| && k !in w.answered
    ensures Enabled(Q, w, HwAnswer(k))
  {
    hide CommandRing, Completions, StatusRing, Slot;
    StatusCounts(Q, w);
    PointerNext(w.handled, Q);
    SlotsApart(w.reported, w.handled + 1, 4 * Q);
  }

  lemma SlotsApart(a: nat, b: nat, S: nat)
    requires S >= 1 && a < b < a + S
    ensures Slot(a, S) != Slot(b, S)
  {
    SlotsDiffer(a, b, S);
  }

  /** The hardware answers everything, and the driver reads each answer. */
  lemma {:induction false} AnswerAll(Q: nat, w: World) returns (actions: seq<Action>)
    requires Inv(Q, w) && Acknowledged(w) && w.handled == |w.answered|
    ensures Continues(Q, w, actions)
    ensures var w' := Run(Q, w, actions); Acknowledged(w') && w'.handled == |w'.answered| == |w.issued|
    decreases |w.issued| - |w.answered|
  {
    hide StatusRing, Completions, CommandRing;
    AnswersDistinct(Q, w);
    AnswersFew(w);
    if |w.answered| == |w.issued| {
      actions := [];
    } else {
      var k := Unanswered(w.answered, |w.issued|);
      AnswerReady(Q, w, k);
      StepKeeps(Q, w, HwAnswer(k));
      var u := Next(Q, w, HwAnswer(k));
      PollReady(Q, u);
      StepKeeps(Q, u, Poll);
      var rest := AnswerAll(Q, Next(Q, u, Poll));
      ContinuesStep(Q, u, Poll, rest);
      ContinuesStep(Q, w, HwAnswer(k), [Poll] + rest);
      actions := [HwAnswer(k)] + ([Poll] + rest);
    }
  }

  lemma AnswersFew(w: World)
    requires forall i :: 0 <= i < |w.answered| ==> w.answered[i] < |w.issued|
    requires forall i, j :: 0 <= i < j < |w.answered| ==> w.answered[i] != w.answered[j]
    ensures |w.answered| <= |w.issued|
  {
    hide Below, Elements;
    ElementsAre(w.answered);
    BelowIs(|w.issued|);
    SubsetSize(Elements(w.answered), Below(|w.issued|));
  }

  /** The answer to command `k` has run its callback, with the command's argument. */
  ghost predicate CalledBack(w: World, k: nat)
    requires k < |w.issued|
  {
    exists i :: 0 <= i < |w.soft.called| <= |w.answered| && w.answered[i] == k && w.soft.called[i] == w.issued[k].arg
  }

  /** Every command sent has been fetched as it was sent, acknowledged and answered, and its
      callback has run with its own argument. */
  ghost predicate Finished(w: World) {
    && |w.fetched| == w.acked == |w.answered| == |w.soft.called| == |w.issued|
    && (forall k :: 0 <= k < |w.issued| ==> w.fetched[k] == w.issued[k].cmd)
    && (forall k :: 0 <= k < |w.issued| ==> CalledBack(w, k))
  }

  lemma AllFinished(Q: nat, w: World)
    requires Inv(Q, w) && Acknowledged(w) && w.handled == |w.answered| == |w.issued|
    ensures Finished(w)
  {
    hide Owners, FreeList, StatusRing, CommandRing;
    forall k | 0 <= k < |w.issued|
      ensures w.fetched[k] == w.issued[k].cmd
    {
      FetchedIsSent(Q, w, k);
    }
    forall k | 0 <= k < |w.issued|
      ensures CalledBack(w, k)
    {
      CallbacksComplete(Q, w, k);
    }
  }

  /** From every reachable state, once the driver starts the ring, driver and hardware can
      finish every command sent. */
  lemma Finishes(Q: nat, w: World) returns (actions: seq<Action>)
    requires Inv(Q, w)
    ensures actions != [] && actions[0] == Start && Continues(Q, w, actions) && Finished(Run(Q, w, actions))
  {
    hide StatusRing, Completions, CommandRing, Continues, Finished;
    StepKeeps(Q, w, Start);
    var v := Next(Q, w, Start);
    HistoryStep(Q, w, Start);
    var xs := FetchAll(Q, v);
    ContinuesIs(Q, v, xs);
    var v1 := Run(Q, v, xs);
    var ys := AckAll(Q, v1);
    ContinuesIs(Q, v1, ys);
    var v2 := Run(Q, v1, ys);
    var zs := PollAll(Q, v2);
    ContinuesIs(Q, v2, zs);
    var v3 := Run(Q, v2, zs);
    var us := AnswerAll(Q, v3);
    ContinuesIs(Q, v3, us);
    AllFinished(Q, Run(Q, v3, us));
    ContinuesConcat(Q, v2, zs, us);
    ContinuesConcat(Q, v1, ys, zs + us);
    ContinuesConcat(Q, v, xs, ys + (zs + us));
    actions := [Start] + (xs + (ys + (zs + us)));
    ContinuesStep(Q, w, Start, xs + (ys + (zs + us)));
  }

  lemma ContinuesIs(Q: nat, w: World, actions: seq<Action>)
    requires Inv(Q, w) && Continues(Q, w, actions)
    ensures Legal(Q, w, actions) && Run(Q, w, actions).issued == w.issued && Inv(Q, Run(Q, w, actions))
  {
    hide CommandRing, StatusRing, Completions;
  }

  /** Once everything is acknowledged and a completion is free, the driver's wait for space
      ends at once and it can send any command. */
  lemma CanSend(Q: nat, w: World, body: int, arg: int) returns (actions: seq<Action>)
    requires Inv(Q, w) && w.acked == |w.issued| && Unfinished(w) < TAGS - 1
    ensures Legal(Q, w, actions) && Sends(actions) == [(body, arg)]
  {
    hide StatusRing, Completions, Slot;
    var send := Send(body, arg);
    if !AtQuarter(w.soft.cachedSpace, Q) {
      StepKeeps(Q, w, send);
      RunFrom(Q, w, send, []);
      actions := [send] + [];
    } else {
      var refresh := Refresh(w.acked);
      StepKeeps(Q, w, refresh);
      var v := Next(Q, w, refresh);
      assert v.soft.cachedSpace == ITEM * (4 * Q - 1);
      StepKeeps(Q, v, send);
      RunFrom(Q, v, send, []);
      RunFrom(Q, w, refresh, [send] + []);
      actions := [refresh] + ([send] + []);
    }
  }

  // --------------------------------------------------------------------- every run

  /** The hardware has fetched the commands sent, in order; the cached space is a multiple of
      64 and safe; the reported status pointer lags by less than a quarter of the ring; free
      and used tags partition 1..1023, one used tag for each command without its callback;
      and the callbacks run are those of distinct commands, each with its own argument. */
  ghost predicate Sound(Q: nat, w: World) {
    && Q >= 1 && |w.fetched| <= |w.issued|
    && (forall k :: 0 <= k < |w.fetched| ==> w.fetched[k] == w.issued[k].cmd)
    && w.soft.cachedSpace % 64 == 0 && w.soft.cachedSpace <= TrueSpace(Q, w)
    && w.handled - w.reported < Q
    && |w.soft.inUse| == 1024
    && (forall t :: 1 <= t < 1024 ==> (t in w.soft.free <==> !w.soft.inUse[t]))
    && |w.soft.free| == 1023 - (|w.issued| - |w.soft.called|)
    && |w.soft.called| <= |w.answered|
    && (forall i :: 0 <= i < |w.soft.called| ==>
          w.answered[i] < |w.issued| && w.soft.called[i] == w.issued[w.answered[i]].arg)
    && (forall i, j :: 0 <= i < j < |w.soft.called| ==> w.answered[i] != w.answered[j])
  }

  lemma InvIsSound(Q: nat, w: World)
    requires Inv(Q, w)
    ensures Sound(Q, w)
  {
    hide CommandRing, StatusRing, Owners, TrueSpace;
    CommandCounts(Q, w);
    StatusCounts(Q, w);
    AnswersDistinct(Q, w);
    SpaceIsConservative(Q, w);
    FreeCount(Q, w);
    forall k | 0 <= k < |w.fetched|
      ensures w.fetched[k] == w.issued[k].cmd
    {
      FetchedIsSent(Q, w, k);
    }
  }

  /** In every run of the driver and the hardware the commands are those the driver was asked
      to send, in order, and everything above holds of them. */
  lemma EveryRun(Q: nat, mem: seq<Command>, actions: seq<Action>)
    requires Q >= 1 && |mem| == 4 * Q
    requires (InitialInv(Q, mem); Legal(Q, Initial(Q, mem), actions))
    ensures Inv(Q, Initial(Q, mem))
    ensures var w := Run(Q, Initial(Q, mem), actions);
            Sound(Q, w) && Contents(w.issued) == Sends(actions)
  {
    hide Legal, CommandRing, StatusRing, Completions, Sound;
    InitialInv(Q, mem);
    IssuedAre(Q, Initial(Q, mem), actions);
    InvIsSound(Q, Run(Q, Initial(Q, mem), actions));
  }

  // ------------------------------------------------------------ the driver as a program

  /** The driver's globals, updated in place. Each operation does to them what the
      corresponding step does to their value. */
  class Driver {
    const Q: nat
    var first: nat
    var last: nat
    var cachedSpace: nat
    const cmdMem: array<Command>
    var statusLast: nat
    var statusReported: nat
    const statusMem: array<nat>
    const inUse: array<bool>
    const arg: array<int>
    var free: seq<nat>
    var called: seq<int>

    ghost function Repr(): set<object> {
      {this, cmdMem, statusMem, inUse, arg}
    }

    ghost function State(): Soft
      reads Repr()
    {
      Soft(first, last, cachedSpace, cmdMem[..], statusLast, statusReported, statusMem[..],
           inUse[..], arg[..], free, called)
    }

    ghost predicate Valid()
      reads Repr()
    {
      statusMem as object != arg && Shaped(Q, State())
    }

    /** `completion_list_init` and `ring_init` on zeroed memory. */
    constructor (Q: nat, mem: array<Command>)
      requires Q >= 1 && mem.Length == 4 * Q
      ensures Valid() && this.Q == Q && cmdMem == mem
      ensures State() == Initial(Q, mem[..]).soft
    {
      this.Q := Q;
      cmdMem := mem;
      first, last, cachedSpace := 0, 0, Size(Q) - ITEM;
      statusLast, statusReported := 0, 0;
      statusMem := new nat[4 * Q](_ => 0);
      inUse := new bool[TAGS](_ => false);
      arg := new int[TAGS](_ => 0);
      free, called := [], [];
      new;
      for i := 1 to TAGS
        invariant free == seq(i - 1, k => k + 1)
        invariant first == last == statusLast == statusReported == 0 && cachedSpace == Size(Q) - ITEM && called == []
        invariant forall k :: 0 <= k < 4 * Q ==> statusMem[k] == 0
        invariant forall k :: 0 <= k < TAGS ==> !inUse[k] && arg[k] == 0
        invariant cmdMem[..] == mem[..]
      {
        free := free + [i];
      }
      assert statusMem[..] == seq(4 * Q, _ => 0);
      assert inUse[..] == seq(TAGS, _ => false);
      assert arg[..] == seq(TAGS, _ => 0);
    }

    /** `get_free_completion`: 0, which is no tag, stands for the null pointer. */
    method GetFreeCompletion() returns (tag: nat)
      requires Valid()
      modifies this`free, inUse
      ensures Valid()
      ensures old(free) == [] ==> tag == 0 && State() == old(State())
      ensures old(free) != [] ==>
                && tag == old(free)[0]
                && State() == old(State()).(free := old(free)[1..], inUse := old(inUse[..])[tag := true])
    {
      if free == [] {
        return 0;
      }
      tag := free[0];
      free := free[1..];
      inUse[tag] := true;
    }

    /** One refresh of the space in `ring_send`, with the pointer the hardware returned. */
    method RefreshSpace(lastAck: nat)
      requires Valid()
      modifies this`last, this`cachedSpace
      ensures Valid() && State() == Refreshed(Q, old(State()), lastAck)
    {
      last := lastAck;
      cachedSpace := (Size(Q) + last - first - ITEM) % Size(Q);
    }

    /** `ring_send` after the wait for space. */
    method SendCommand(body: int, a: int) returns (tag: nat)
      requires Valid() && free != [] && cachedSpace >= ITEM
      modifies this, cmdMem, inUse, arg
      ensures Valid() && tag == old(free)[0] && State() == Sent(Q, old(State()), body, a)
    {
      tag := GetFreeCompletion();
      arg[tag] := a;
      cmdMem[first / ITEM] := Command(tag, body);
      var next_first := first + ITEM;
      if next_first == Size(Q) {
        next_first := 0;
      }
      first := next_first;
      cachedSpace := cachedSpace - ITEM;
    }

    /** `ring_next`: the slot at the status pointer holds a message unless it is zero. */
    method RingNext() returns (tag: nat)
      requires Valid()
      ensures tag == State().statusMem[statusLast / ITEM]
    {
      tag := statusMem[statusLast / ITEM];
    }

    method HandleCompletion()
      requires Valid() && statusMem[statusLast / ITEM] % 0x1_0000 < TAGS
      modifies this`called, this`free, inUse, statusMem
      ensures Valid() && State() == Handled(Q, old(State()))
    {
      var tag := statusMem[statusLast / ITEM] % 0x1_0000;
      inUse[tag] := false;
      called := called + [arg[tag]];
      statusMem[statusLast / ITEM] := 0;
      free := free + [tag];
    }

    method RingPop()
      requires Valid()
      modifies this`statusLast, this`statusReported, statusMem
      ensures Valid() && State() == Popped(Q, old(State()))
    {
      hide AtQuarter;
      statusMem[statusLast / ITEM] := 0;
      var l := statusLast + ITEM;
      if l >= Size(Q) {
        l := 0;
      }
      statusLast := l;
      if AtQuarter(statusLast, Q) {
        statusReported := statusLast;
      }
    }

    /** One turn of the status poll, in a state that the protocol can reach: the driver's
        assertions hold, and its memory takes the protocol's step. */
    method PollOnce(ghost w: World) returns (found: bool)
      requires Valid() && Inv(Q, w) && w.soft == State()
      modifies this, inUse, statusMem
      ensures Valid() && (found <==> Enabled(Q, w, Poll))
      ensures State() == if found then Next(Q, w, Poll).soft else old(State())
    {
      hide CommandRing, StatusRing, Completions;
      var tag := RingNext();
      found := tag != 0;
      if found {
        assert Enabled(Q, w, Poll);
        ActionsAreSafe(Q, w, Poll);
        HandleCompletion();
        RingPop();
      }
    }
  }
}
