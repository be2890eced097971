/** The AXI write path: the DMA master that counts the beats of each burst, and the
    simulated memory slave that writes them. Addresses may run ahead of data by any number
    of bursts. `B` is the bus width in bytes and `M` the size of the address space. */
module AxiWrite {
  import opened Bits

  /** A write request of the memory client: the length is an 8-bit number of bytes. */
  datatype MemRequest = MemRequest(addr: nat, burstLen: nat, tag: nat)

  /** A request on the address channel: a 4-bit length, one less than the beats. */
  datatype AwRequest = AwRequest(address: nat, len: nat, id: nat)

  datatype Master = Master(burstReg: nat, reqs: seq<nat>)

  datatype Slave = Slave(writeLen: nat, writeAddr: nat, writeId: nat, delay: seq<AwRequest>, bFifo: seq<nat>)

  // ------------------------------------------------------------------- the master

  /** `req_aw.get`: `truncate((burstLen >> beat_shift) - 1)`. */
  function Address(B: nat, r: MemRequest): AwRequest
    requires B >= 1
  {
    AwRequest(r.addr, (r.burstLen / B - 1) % 256 % 16, r.tag)
  }

  /** Beats left in the current burst, counting the one about to go. */
  function MasterCount(B: nat, m: Master): nat
    requires B >= 1 && (m.burstReg == 0 ==> m.reqs != [])
  {
    if m.burstReg == 0 then m.reqs[0] / B else m.burstReg
  }

  /** `resp_write.get`: the registers after a beat. */
  function MasterAfter(B: nat, m: Master): Master
    requires B >= 1 && (m.burstReg == 0 ==> m.reqs != [])
  {
    Master((MasterCount(B, m) - 1) % 256, if m.burstReg == 0 then m.reqs[1..] else m.reqs)
  }

  // -------------------------------------------------------------------- the slave

  /** The address, length and id that the slave uses for a beat. */
  function SlaveBeat(s: Slave): (nat, nat, nat)
    requires s.writeLen == 0 ==> s.delay != []
  {
    if s.writeLen == 0 then (s.delay[0].address, (s.delay[0].len + 1) % 32, s.delay[0].id)
    else (s.writeAddr, s.writeLen, s.writeId)
  }

  /** `resp_write.put`: the registers after a beat. */
  function SlaveAfter(B: nat, M: nat, s: Slave): Slave
    requires M >= 1 && (s.writeLen == 0 ==> s.delay != [])
  {
    var (addr, len, id) := SlaveBeat(s);
    Slave((len - 1) % 32, (addr + B) % M, id, if s.writeLen == 0 then s.delay[1..] else s.delay,
          if len == 1 then s.bFifo + [id] else s.bFifo)
  }

  // ------------------------------------------------------------------ what is meant

  datatype Beat = Beat(addr: nat, last: bool, id: nat)

  /** Bursts of 1 to 16 beats (AXI3 burst length, section A3.4.1 of ARM IHI 0022), with a
      length that fits the 8-bit field. */
  predicate LegalBurst(B: nat, M: nat, r: MemRequest) {
    B >= 1 && r.addr < M && r.burstLen < 256 && 1 <= r.burstLen / B <= 16
  }

  /** The address `k` beats further, in a space of `M` bytes. */
  function Advanced(B: nat, M: nat, a: nat, k: nat): nat
    requires M >= 1
  {
    (a + k * B) % M
  }

  /** Beat `k` of a burst: address + k*B, last exactly when it is the final beat. */
  function BeatAt(B: nat, M: nat, r: MemRequest, k: nat): Beat
    requires B >= 1 && M >= 1
  {
    Beat(Advanced(B, M, r.addr, k), k + 1 == r.burstLen / B, r.tag)
  }

  function BurstBeats(B: nat, M: nat, r: MemRequest, n: nat): (bs: seq<Beat>)
    requires B >= 1 && M >= 1
    ensures |bs| == n
  {
    if n == 0 then [] else BurstBeats(B, M, r, n - 1) + [BeatAt(B, M, r, n - 1)]
  }

  function Schedule(B: nat, M: nat, rs: seq<MemRequest>): seq<Beat>
    requires B >= 1 && M >= 1
  {
    if rs == [] then []
    else
      var r := rs[|rs| - 1];
      Schedule(B, M, rs[..|rs| - 1]) + BurstBeats(B, M, r, r.burstLen / B)
  }

  function Ids(rs: seq<MemRequest>): seq<nat> {
    seq(|rs|, i requires 0 <= i < |rs| => rs[i].tag)
  }

  // --------------------------------------------------------------------- the system

  /** Both ends and the history: bursts whose address has gone over, how many of them have
      begun, the beats seen so far (with the master's last flag and the slave's address and
      id), what was written, the data sent, and the responses handed back. */
  datatype World = World(
    master: Master, slave: Slave,
    bursts: seq<MemRequest>, begun: nat, beats: seq<Beat>, writes: seq<(nat, int)>, data: seq<int>, done: seq<nat>)

  datatype Action = SendAddress(r: MemRequest) | SendData(x: int) | TakeResponse

  predicate Enabled(B: nat, M: nat, w: World, a: Action) {
    match a
    case SendAddress(r) => LegalBurst(B, M, r) && |w.master.reqs| < 32
    case SendData(_) => (w.master.burstReg == 0 ==> w.master.reqs != []) && (w.slave.writeLen == 0 ==> w.slave.delay != [])
    case TakeResponse => w.slave.bFifo != []
  }

  function Next(B: nat, M: nat, w: World, a: Action): World
    requires B >= 1 && M >= 1 && Enabled(B, M, w, a)
  {
    match a
    case SendAddress(r) =>
      w.(master := w.master.(reqs := w.master.reqs + [r.burstLen]),
         slave := w.slave.(delay := w.slave.delay + [Address(B, r)]),
         bursts := w.bursts + [r])
    case SendData(x) =>
      var (addr, len, id) := SlaveBeat(w.slave);
      w.(master := MasterAfter(B, w.master), slave := SlaveAfter(B, M, w.slave),
         begun := if w.master.burstReg == 0 then w.begun + 1 else w.begun,
         beats := w.beats + [Beat(addr, MasterCount(B, w.master) == 1, id)],
         writes := w.writes + [(addr, x)], data := w.data + [x])
    case TakeResponse =>
      w.(slave := w.slave.(bFifo := w.slave.bFifo[1..]), done := w.done + [w.slave.bFifo[0]])
  }

  /** Master and slave count the same beats of the same burst, and hold the same bursts
      still to come. */
  predicate InStep(B: nat, M: nat, w: World)
    requires B >= 1 && M >= 1
  {
    var m, s, c := w.master, w.slave, w.begun;
    && c <= |w.bursts|
    && (forall i :: 0 <= i < |w.bursts| ==> LegalBurst(B, M, w.bursts[i]))
    && |m.reqs| == |s.delay| == |w.bursts| - c
    && (forall i :: 0 <= i < |m.reqs| ==>
          m.reqs[i] == w.bursts[c + i].burstLen && s.delay[i] == Address(B, w.bursts[c + i]))
    && m.burstReg == s.writeLen
    && (m.burstReg > 0 ==>
          && c >= 1
          && (var r := w.bursts[c - 1];
              && m.burstReg < r.burstLen / B
              && s.writeId == r.tag && s.writeAddr == BeatAt(B, M, r, r.burstLen / B - m.burstReg).addr))
  }

  /** The beats, writes and responses so far are what the bursts ask for. */
  predicate OnSchedule(B: nat, M: nat, w: World)
    requires B >= 1 && M >= 1 && w.begun <= |w.bursts|
  {
    && (if w.master.burstReg == 0 then w.beats == Schedule(B, M, w.bursts[..w.begun])
        else
          && w.begun >= 1
          && (var r := w.bursts[w.begun - 1];
              && w.master.burstReg < r.burstLen / B
              && w.beats == Schedule(B, M, w.bursts[..w.begun - 1])
                            + BurstBeats(B, M, r, r.burstLen / B - w.master.burstReg)))
    && |w.writes| == |w.beats| == |w.data|
    && (forall i :: 0 <= i < |w.beats| ==> w.writes[i] == (w.beats[i].addr, w.data[i]))
    && w.done + w.slave.bFifo ==
       Ids(w.bursts[..if w.master.burstReg == 0 then w.begun else w.begun - 1])
  }

  predicate Inv(B: nat, M: nat, w: World)
    requires B >= 1 && M >= 1
  {
    InStep(B, M, w) && OnSchedule(B, M, w)
  }

  const INITIAL: World := World(Master(0, []), Slave(0, 0, 0, [], []), [], 0, [], [], [], [])

  lemma InitialInv(B: nat, M: nat)
    requires B >= 1 && M >= 1
    ensures Inv(B, M, INITIAL)
  {
  }

  /** The two length fields agree on a burst exactly when it has 1 to 16 beats: the master
      counts `beats` (an 8-bit 0 counts round to 256), the slave one more than the 4-bit
      field. */
  lemma LengthsAgreeIff(beats: nat)
    requires beats < 256
    ensures ((beats - 1) % 256 % 16 + 1) % 32 == (if beats == 0 then 256 else beats) <==> 1 <= beats <= 16
  {
  }

  lemma AddressAdvances(B: nat, M: nat, a: nat, k: nat)
    requires M >= 1
    ensures (Advanced(B, M, a, k) + B) % M == Advanced(B, M, a, k + 1)
  {
    var x := a + k * B;
    assert x + B == a + (k + 1) * B by { assert (k + 1) * B == k * B + B; }
    ModShift(x, B, M);
  }

  lemma ModShift(x: nat, y: nat, M: nat)
    requires M >= 1
    ensures (x % M + y) % M == (x + y) % M
  {
    var q, z := x / M, x % M + y;
    assert x == M * q + x % M;
    assert z == M * (z / M) + z % M;
    assert x + y == M * (q + z / M) + z % M by { assert M * (q + z / M) == M * q + M * (z / M); }
    QuotientUnique(x + y, M, q + z / M, z % M);
  }

  /** The first beat of a burst is at its address. */
  lemma FirstBeat(B: nat, M: nat, r: MemRequest)
    requires LegalBurst(B, M, r) && M >= 1
    ensures BeatAt(B, M, r, 0).addr == r.addr
    ensures Address(B, r).len + 1 == r.burstLen / B && Address(B, r).address == r.addr && Address(B, r).id == r.tag
  {
    QuotientUnique(r.addr, M, 0, r.addr);
    LengthsAgreeIff(r.burstLen / B);
  }

  lemma SendAddressKeeps(B: nat, M: nat, w: World, r: MemRequest)
    requires B >= 1 && M >= 1 && Inv(B, M, w) && Enabled(B, M, w, SendAddress(r))
    ensures Inv(B, M, Next(B, M, w, SendAddress(r)))
  {
    hide Address, LegalBurst, Schedule, BurstBeats, BeatAt;
    assert LegalBurst(B, M, r) by { LegalOf(B, M, w, r); }
    var w' := Next(B, M, w, SendAddress(r));
    assert w'.bursts[..w.begun] == w.bursts[..w.begun];
    assert w.begun >= 1 ==> w'.bursts[..w.begun - 1] == w.bursts[..w.begun - 1];
  }

  lemma LegalOf(B: nat, M: nat, w: World, r: MemRequest)
    requires Enabled(B, M, w, SendAddress(r))
    ensures LegalBurst(B, M, r)
  {
  }

  lemma TakeResponseKeeps(B: nat, M: nat, w: World)
    requires B >= 1 && M >= 1 && Inv(B, M, w) && Enabled(B, M, w, TakeResponse)
    ensures Inv(B, M, Next(B, M, w, TakeResponse))
  {
    hide Address, LegalBurst, Schedule, BurstBeats, BeatAt;
    assert w.done + w.slave.bFifo == (w.done + [w.slave.bFifo[0]]) + w.slave.bFifo[1..];
  }

  /** The burst that the next beat belongs to, the beat's number in it, and how many bursts
      come before. */
  ghost predicate NextBeat(B: nat, M: nat, w: World, c: nat, k: nat)
    requires B >= 1 && M >= 1
  {
    && c < |w.bursts| && LegalBurst(B, M, w.bursts[c]) && k < w.bursts[c].burstLen / B
    && (w.master.burstReg == 0 ==> w.master.reqs != []) && (w.slave.writeLen == 0 ==> w.slave.delay != [])
    && MasterCount(B, w.master) == w.bursts[c].burstLen / B - k
    && SlaveBeat(w.slave) == (BeatAt(B, M, w.bursts[c], k).addr, w.bursts[c].burstLen / B - k, w.bursts[c].tag)
    && w.beats == Schedule(B, M, w.bursts[..c]) + BurstBeats(B, M, w.bursts[c], k)
    && w.done + w.slave.bFifo == Ids(w.bursts[..c])
  }

  lemma FindBeat(B: nat, M: nat, w: World, x: int) returns (c: nat, k: nat)
    requires B >= 1 && M >= 1 && Inv(B, M, w) && Enabled(B, M, w, SendData(x))
    ensures c == (if w.master.burstReg == 0 then w.begun else w.begun - 1)
    ensures w.master.burstReg == 0 ==> k == 0
    ensures NextBeat(B, M, w, c, k)
  {
    hide Address, Schedule;
    if w.master.burstReg == 0 {
      c, k := w.begun, 0;
      assert w.master.reqs[0] == w.bursts[c + 0].burstLen && w.slave.delay[0] == Address(B, w.bursts[c + 0]);
      FirstBeat(B, M, w.bursts[c]);
    } else {
      c := w.begun - 1;
      k := w.bursts[c].burstLen / B - w.master.burstReg;
    }
  }

  lemma NextAddress(B: nat, M: nat, r: MemRequest, k: nat)
    requires B >= 1 && M >= 1
    ensures (BeatAt(B, M, r, k).addr + B) % M == BeatAt(B, M, r, k + 1).addr
  {
    hide Advanced;
    AddressAdvances(B, M, r.addr, k);
  }

  lemma BeatsBounded(B: nat, M: nat, r: MemRequest)
    requires B >= 1 && LegalBurst(B, M, r)
    ensures 1 <= r.burstLen / B <= 16
  {
  }

  /** Neither counter wraps inside a legal burst. */
  lemma CountDown(n: nat)
    requires 1 <= n <= 16
    ensures (n - 1) % 256 == (n - 1) % 32 == n - 1
  {
  }

  /** A beat leaves both ends with the same count of beats to come, and the slave at the
      address of the next one. */
  lemma BeatAdvances(B: nat, M: nat, w: World, c: nat, k: nat)
    requires B >= 1 && M >= 1 && NextBeat(B, M, w, c, k)
    ensures var r, m, s := w.bursts[c], MasterAfter(B, w.master), SlaveAfter(B, M, w.slave);
            && m.burstReg == s.writeLen == r.burstLen / B - k - 1
            && s.writeAddr == BeatAt(B, M, r, k + 1).addr && s.writeId == r.tag
            && s.bFifo == w.slave.bFifo + if k + 1 == r.burstLen / B then [r.tag] else []
  {
    hide Schedule, BurstBeats, Ids, MasterCount, SlaveBeat, BeatAt, LegalBurst;
    var r := w.bursts[c];
    NextAddress(B, M, r, k);
    BeatsBounded(B, M, r);
    CountDown(r.burstLen / B - k);
  }

  /** The bursts still to come lose their first one exactly when it begins. */
  lemma QueuesAdvance(B: nat, M: nat, w: World)
    requires B >= 1 && M >= 1 && InStep(B, M, w)
    requires w.master.burstReg == 0 ==> w.master.reqs != []
    ensures var m, s := MasterAfter(B, w.master), SlaveAfter(B, M, w.slave);
            var c := if w.master.burstReg == 0 then w.begun + 1 else w.begun;
            && c <= |w.bursts|
            && |m.reqs| == |s.delay| == |w.bursts| - c
            && (forall i :: 0 <= i < |m.reqs| ==>
                  m.reqs[i] == w.bursts[c + i].burstLen && s.delay[i] == Address(B, w.bursts[c + i]))
  {
    hide Address, LegalBurst, BeatAt, MasterCount, SlaveBeat;
    if w.master.burstReg == 0 {
      var m, s, c := MasterAfter(B, w.master), SlaveAfter(B, M, w.slave), w.begun;
      forall i | 0 <= i < |m.reqs|
        ensures m.reqs[i] == w.bursts[c + 1 + i].burstLen && s.delay[i] == Address(B, w.bursts[c + 1 + i])
      {
        var j := i + 1;
        assert w.master.reqs[j] == w.bursts[c + j].burstLen && w.slave.delay[j] == Address(B, w.bursts[c + j]);
      }
    }
  }

  lemma SendDataKeepsStep(B: nat, M: nat, w: World, x: int)
    requires B >= 1 && M >= 1 && Inv(B, M, w) && Enabled(B, M, w, SendData(x))
    ensures InStep(B, M, Next(B, M, w, SendData(x)))
  {
    hide Address, Schedule, BurstBeats, OnSchedule, LegalBurst, BeatAt, MasterAfter, SlaveAfter, MasterCount, SlaveBeat;
    var c, k := FindBeat(B, M, w, x);
    BeatAdvances(B, M, w, c, k);
    QueuesAdvance(B, M, w);
  }

  lemma SendDataKeepsSchedule(B: nat, M: nat, w: World, x: int)
    requires B >= 1 && M >= 1 && Inv(B, M, w) && Enabled(B, M, w, SendData(x))
    requires InStep(B, M, Next(B, M, w, SendData(x)))
    ensures OnSchedule(B, M, Next(B, M, w, SendData(x)))
  {
    hide Address, Schedule, BurstBeats, BeatAt, InStep, LegalBurst, MasterAfter, SlaveAfter, MasterCount, SlaveBeat, Ids;
    var c, k := FindBeat(B, M, w, x);
    BeatAdvances(B, M, w, c, k);
    var r, w' := w.bursts[c], Next(B, M, w, SendData(x));
    var n := r.burstLen / B;
    assert w'.master.burstReg == n - k - 1;
    assert w'.begun == c + 1 && w'.bursts[..c] == w.bursts[..c];
    BeatIs(B, M, r, k);
    BurstSnoc(B, M, r, k);
    var before := Schedule(B, M, w.bursts[..c]);
    assert before + BurstBeats(B, M, r, k) + [BeatAt(B, M, r, k)] == before + (BurstBeats(B, M, r, k) + [BeatAt(B, M, r, k)]);
    if k + 1 == n {
      ScheduleSnoc(B, M, w.bursts, c);
      assert w.done + w.slave.bFifo + [r.tag] == w.done + (w.slave.bFifo + [r.tag]);
      IdsSnoc(w.bursts, c);
    }
  }

  lemma IdsSnoc(rs: seq<MemRequest>, c: nat)
    requires c < |rs|
    ensures Ids(rs[..c + 1]) == Ids(rs[..c]) + [rs[c].tag]
  {
  }

  lemma BeatIs(B: nat, M: nat, r: MemRequest, k: nat)
    requires B >= 1 && M >= 1
    ensures BeatAt(B, M, r, k) == Beat(BeatAt(B, M, r, k).addr, k + 1 == r.burstLen / B, r.tag)
  {
  }

  lemma BurstSnoc(B: nat, M: nat, r: MemRequest, k: nat)
    requires B >= 1 && M >= 1
    ensures BurstBeats(B, M, r, k + 1) == BurstBeats(B, M, r, k) + [BeatAt(B, M, r, k)]
  {
  }

  lemma ScheduleSnoc(B: nat, M: nat, rs: seq<MemRequest>, c: nat)
    requires B >= 1 && M >= 1 && c < |rs|
    ensures Schedule(B, M, rs[..c + 1]) == Schedule(B, M, rs[..c]) + BurstBeats(B, M, rs[c], rs[c].burstLen / B)
  {
    hide BurstBeats;
    assert rs[..c + 1][..c] == rs[..c];
  }

  lemma StepKeeps(B: nat, M: nat, w: World, a: Action)
    requires B >= 1 && M >= 1 && Inv(B, M, w) && Enabled(B, M, w, a)
    ensures Inv(B, M, Next(B, M, w, a))
  {
    hide InStep, OnSchedule;
    match a
    case SendAddress(r) => SendAddressKeeps(B, M, w, r);
    case SendData(x) => SendDataKeepsStep(B, M, w, x); SendDataKeepsSchedule(B, M, w, x);
    case TakeResponse => TakeResponseKeeps(B, M, w);
  }

  predicate Legal(B: nat, M: nat, w: World, actions: seq<Action>)
    requires B >= 1 && M >= 1
    decreases |actions|
  {
    actions == [] || (Enabled(B, M, w, actions[0]) && Legal(B, M, Next(B, M, w, actions[0]), actions[1..]))
  }

  function Run(B: nat, M: nat, w: World, actions: seq<Action>): World
    requires B >= 1 && M >= 1 && Legal(B, M, w, actions)
    decreases |actions|
  {
    if actions == [] then w else Run(B, M, Next(B, M, w, actions[0]), actions[1..])
  }

  lemma {:induction false} RunKeeps(B: nat, M: nat, w: World, actions: seq<Action>)
    requires B >= 1 && M >= 1 && Inv(B, M, w) && Legal(B, M, w, actions)
    ensures Inv(B, M, Run(B, M, w, actions))
    decreases |actions|
  {
    if actions != [] {
      StepKeeps(B, M, w, actions[0]);
      RunKeeps(B, M, Next(B, M, w, actions[0]), actions[1..]);
    }
  }

  lemma {:induction false} SchedulePrefix(B: nat, M: nat, rs: seq<MemRequest>, c: nat)
    requires B >= 1 && M >= 1 && c <= |rs|
    ensures Schedule(B, M, rs[..c]) <= Schedule(B, M, rs)
    decreases |rs| - c
  {
    if c < |rs| {
      ScheduleSnoc(B, M, rs, c);
      SchedulePrefix(B, M, rs, c + 1);
    } else {
      assert rs[..c] == rs;
    }
  }

  lemma {:induction false} BurstPrefix(B: nat, M: nat, r: MemRequest, j: nat, n: nat)
    requires B >= 1 && M >= 1 && j <= n
    ensures BurstBeats(B, M, r, j) <= BurstBeats(B, M, r, n)
    decreases n
  {
    if j < n {
      BurstPrefix(B, M, r, j, n - 1);
    }
  }

  lemma PartialBurst(B: nat, M: nat, w: World)
    requires B >= 1 && M >= 1 && Inv(B, M, w) && w.master.burstReg > 0
    ensures w.begun >= 1
    ensures Schedule(B, M, w.bursts[..w.begun - 1]) < w.beats < Schedule(B, M, w.bursts[..w.begun])
  {
    hide Schedule, BurstBeats, Address, LegalBurst, BeatAt;
    var r := w.bursts[w.begun - 1];
    var j := r.burstLen / B - w.master.burstReg;
    ScheduleSnoc(B, M, w.bursts, w.begun - 1);
    BurstPrefix(B, M, r, j, r.burstLen / B);
  }

  // ---------------------------------------------------- what the actions asked for

  /** The bursts requested in a run. */
  function Requests(actions: seq<Action>): seq<MemRequest> {
    if actions == [] then []
    else (if actions[0].SendAddress? then [actions[0].r] else []) + Requests(actions[1..])
  }

  /** The data sent in a run. */
  function Data(actions: seq<Action>): seq<int> {
    if actions == [] then []
    else (if actions[0].SendData? then [actions[0].x] else []) + Data(actions[1..])
  }

  lemma HistoryStep(B: nat, M: nat, w: World, a: Action)
    requires B >= 1 && M >= 1 && Enabled(B, M, w, a)
    ensures Next(B, M, w, a).bursts == w.bursts + if a.SendAddress? then [a.r] else []
    ensures Next(B, M, w, a).data == w.data + if a.SendData? then [a.x] else []
  {
  }

  lemma {:induction false} BurstsAre(B: nat, M: nat, w: World, actions: seq<Action>)
    requires B >= 1 && M >= 1 && Legal(B, M, w, actions)
    ensures Run(B, M, w, actions).bursts == w.bursts + Requests(actions)
    decreases |actions|
  {
    hide Enabled, Next;
    if actions != [] {
      var a := actions[0];
      HistoryStep(B, M, w, a);
      BurstsAre(B, M, Next(B, M, w, a), actions[1..]);
      var more := if a.SendAddress? then [a.r] else [];
      assert (w.bursts + more) + Requests(actions[1..]) == w.bursts + (more + Requests(actions[1..]));
    }
  }

  lemma {:induction false} DataAre(B: nat, M: nat, w: World, actions: seq<Action>)
    requires B >= 1 && M >= 1 && Legal(B, M, w, actions)
    ensures Run(B, M, w, actions).data == w.data + Data(actions)
    decreases |actions|
  {
    hide Enabled, Next;
    if actions != [] {
      var a := actions[0];
      HistoryStep(B, M, w, a);
      DataAre(B, M, Next(B, M, w, a), actions[1..]);
      var more := if a.SendData? then [a.x] else [];
      assert (w.data + more) + Data(actions[1..]) == w.data + (more + Data(actions[1..]));
    }
  }

  // ------------------------------------------------------------- nothing gets stuck

  /** Beats and responses still to come, at most. */
  function Work(w: World): nat {
    18 * |w.master.reqs| + w.master.burstReg + |w.slave.bFifo| + if w.master.burstReg > 0 then 1 else 0
  }

  /** A beat if one is due, else the next response. */
  function Step(w: World): Action {
    if w.master.burstReg > 0 || w.master.reqs != [] then SendData(0) else TakeResponse
  }

  lemma StepWorks(B: nat, M: nat, w: World)
    requires B >= 1 && M >= 1 && Inv(B, M, w) && Work(w) > 0
    ensures Enabled(B, M, w, Step(w)) && Work(Next(B, M, w, Step(w))) < Work(w)
    ensures Requests([Step(w)]) == []
  {
    hide Address, Schedule, BurstBeats, BeatAt, LegalBurst, MasterAfter, SlaveAfter, MasterCount, SlaveBeat, Ids;
    if w.master.burstReg > 0 || w.master.reqs != [] {
      var c, k := FindBeat(B, M, w, 0);
      BeatAdvances(B, M, w, c, k);
      BeatsBounded(B, M, w.bursts[c]);
      QueuesAdvance(B, M, w);
      if w.master.burstReg > 0 {
        CountLeft(B, M, w, c, k);
      }
    }
  }

  lemma CountLeft(B: nat, M: nat, w: World, c: nat, k: nat)
    requires B >= 1 && M >= 1 && NextBeat(B, M, w, c, k) && w.master.burstReg > 0
    ensures w.bursts[c].burstLen / B - k == w.master.burstReg
  {
  }

  lemma RoomForAddress(B: nat, M: nat, w: World, r: MemRequest)
    requires LegalBurst(B, M, r) && w.master.reqs == []
    ensures Enabled(B, M, w, SendAddress(r))
  {
  }

  /** From every reachable state the bursts requested can be finished, and then any other
      can be requested. */
  lemma {:induction false} Finishes(B: nat, M: nat, w: World) returns (actions: seq<Action>)
    requires B >= 1 && M >= 1 && Inv(B, M, w)
    ensures Legal(B, M, w, actions) && Requests(actions) == []
    ensures var w' := Run(B, M, w, actions);
            && w'.bursts == w.bursts && w'.beats == Schedule(B, M, w.bursts) && w'.done == Ids(w.bursts)
            && (forall r :: LegalBurst(B, M, r) ==> Enabled(B, M, w', SendAddress(r)))
    decreases Work(w)
  {
    hide Address, Schedule, BurstBeats, BeatAt, LegalBurst, Ids, Next, Enabled;
    if Work(w) == 0 {
      actions := [];
      assert w.bursts[..w.begun] == w.bursts;
      assert w.done + w.slave.bFifo == w.done;
      forall r | LegalBurst(B, M, r)
        ensures Enabled(B, M, w, SendAddress(r))
      {
        RoomForAddress(B, M, w, r);
      }
    } else {
      var a := Step(w);
      StepWorks(B, M, w);
      StepKeeps(B, M, w, a);
      HistoryStep(B, M, w, a);
      var rest := Finishes(B, M, Next(B, M, w, a));
      actions := [a] + rest;
      assert actions[1..] == rest;
    }
  }

  // --------------------------------------------------------------------- every run

  /** In every run, for any stream of legal bursts and any run-ahead of addresses: the beats
      are those of the bursts requested, in order, so that exactly the final beat of each
      burst is marked last and beat k is written at address + k*B with its own data; and the
      responses queued are the ids of the bursts finished, once each and in order. */
  lemma EveryRun(B: nat, M: nat, actions: seq<Action>)
    requires B >= 1 && M >= 1 && Legal(B, M, INITIAL, actions)
    ensures var w := Run(B, M, INITIAL, actions);
            var bursts := Requests(actions);
            && w.beats <= Schedule(B, M, bursts)
            && |w.writes| == |w.beats| == |Data(actions)|
            && (forall i :: 0 <= i < |w.beats| ==> w.writes[i] == (w.beats[i].addr, Data(actions)[i]))
            && w.begun <= |bursts|
            && (w.master.burstReg == 0 ==>
                  w.beats == Schedule(B, M, bursts[..w.begun]) && w.done + w.slave.bFifo == Ids(bursts[..w.begun]))
            && (w.master.burstReg > 0 ==>
                  w.begun >= 1 && w.done + w.slave.bFifo == Ids(bursts[..w.begun - 1])
                  && Schedule(B, M, bursts[..w.begun - 1]) < w.beats < Schedule(B, M, bursts[..w.begun]))
  {
    hide Schedule, BurstBeats, Legal, Run, Address, LegalBurst, BeatAt, Ids;
    InitialInv(B, M);
    RunKeeps(B, M, INITIAL, actions);
    BurstsAre(B, M, INITIAL, actions);
    DataAre(B, M, INITIAL, actions);
    var w := Run(B, M, INITIAL, actions);
    assert w.bursts == Requests(actions) && w.data == Data(actions);
    SchedulePrefix(B, M, w.bursts, w.begun);
    if w.master.burstReg > 0 {
      PartialBurst(B, M, w);
    }
  }

  // ---------------------------------------------------------- the two as hardware

  /** `mkAxiDmaMaster`, write channels. */
  class AxiMaster {
    const B: nat
    var burstReg: nat
    var reqs: seq<nat>

    ghost function State(): Master
      reads this
    {
      Master(burstReg, reqs)
    }

    constructor (B: nat)
      requires B >= 1
      ensures this.B == B && State() == INITIAL.master
    {
      this.B := B;
      burstReg, reqs := 0, [];
    }

    method GetAddress(r: MemRequest) returns (aw: AwRequest)
      requires B >= 1
      modifies this`reqs
      ensures State() == old(State()).(reqs := old(reqs) + [r.burstLen]) && aw == Address(B, r)
    {
      reqs := reqs + [r.burstLen];
      aw := AwRequest(r.addr, (r.burstLen / B - 1) % 256 % 16, r.tag);
    }

    method GetData() returns (last: bool)
      requires B >= 1 && (burstReg == 0 ==> reqs != [])
      modifies this
      ensures State() == MasterAfter(B, old(State())) && (last <==> MasterCount(B, old(State())) == 1)
    {
      var burstLen := burstReg;
      if burstLen == 0 {
        burstLen := reqs[0] / B;
        reqs := reqs[1..];
      }
      burstReg := (burstLen - 1) % 256;
      last := burstLen == 1;
    }
  }

  /** `mkAxi3Slave`, write channels. */
  class AxiSlave {
    const B: nat
    const M: nat
    var writeLen: nat
    var writeAddr: nat
    var writeId: nat
    var delay: seq<AwRequest>
    var bFifo: seq<nat>
    var memory: seq<(nat, int)>

    ghost function State(): Slave
      reads this
    {
      Slave(writeLen, writeAddr, writeId, delay, bFifo)
    }

    constructor (B: nat, M: nat)
      requires B >= 1 && M >= 1
      ensures this.B == B && this.M == M && State() == INITIAL.slave && memory == []
    {
      this.B, this.M := B, M;
      writeLen, writeAddr, writeId, delay, bFifo, memory := 0, 0, 0, [], [], [];
    }

    method PutAddress(aw: AwRequest)
      modifies this`delay
      ensures State() == old(State()).(delay := old(delay) + [aw])
    {
      delay := delay + [aw];
    }

    /** A beat: written at the current address; the final one queues the response. */
    method PutData(x: int)
      requires M >= 1 && (writeLen == 0 ==> delay != [])
      modifies this
      ensures State() == SlaveAfter(B, M, old(State()))
      ensures memory == old(memory) + [(SlaveBeat(old(State())).0, x)]
    {
      var addr, len, id := writeAddr, writeLen, writeId;
      if writeLen == 0 {
        var req := delay[0];
        delay := delay[1..];
        addr, len, id := req.address, (req.len + 1) % 32, req.id;
      }
      memory := memory + [(addr, x)];
      writeId := id;
      writeLen := (len - 1) % 32;
      writeAddr := (addr + B) % M;
      if len == 1 {
        bFifo := bFifo + [id];
      }
    }
  }
}
