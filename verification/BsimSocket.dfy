/** The socket protocol between application software and the simulator: register reads and
    writes go one way; read answers and interrupt levels come back on one channel. Messages
    are sent and received whole. */
module BsimSocket {
  import Bits

  const SENDING_FD: nat := 666
  const SENDING_INTERRUPT: nat := 999

  datatype Request = Request(portal: nat, write: bool, addr: nat, data: nat)
  datatype Response = Response(portal: nat, data: nat)

  // ------------------------------------------------------------------ the simulator

  /** The simulator's statics: `head` (valid, inflight, req), the portal kept in `respitem`
      and the last interrupt level sent. */
  datatype Sim = Sim(valid: bool, inflight: bool, req: Request, respPortal: nat, lastLevel: nat)

  /** The request as the design sees it: the portal number is or-ed into the address. */
  function View(r: Request): Request {
    r.(addr := Bits.Or(r.addr, Bits.Shl(r.portal, 16)))
  }

  /** A portal's registers span 64 KiB, and then portal and offset can be read back from
      the address. */
  lemma ViewAddress(r: Request)
    requires r.addr < 0x1_0000
    ensures View(r).addr == r.portal * 0x1_0000 + r.addr
    ensures View(r).addr / 0x1_0000 == r.portal && View(r).addr % 0x1_0000 == r.addr
  {
    assert Bits.Pow2(16) == 0x1_0000 by { Pow16(); }
    Bits.OrDisjoint(r.portal, r.addr, 16);
  }

  lemma Pow16()
    ensures Bits.Pow2(16) == 0x1_0000
  {
    assert Bits.Pow2(8) == 256;
    Bits.Pow2Add(8, 8);
  }

  /** What `processReq32` does with a message it has received: a file descriptor is handed
      over at once, any other request becomes the head. */
  function Received(s: Sim, r: Request): Sim {
    if r.portal == SENDING_FD then s.(respPortal := r.portal)
    else s.(respPortal := r.portal, valid := true, inflight := true, req := View(r))
  }

  /** The value `processReq32` returns. */
  predicate Ready(s: Sim, write: bool) {
    s.valid && s.inflight && s.req.write == write
  }

  /** What the design gets of a request: the kind it asked for, the address and, for a
      write, the data. */
  datatype Access = Access(write: bool, addr: nat, data: nat)

  /** `processAddr32`, and `writeData32` in the same cycle when the design asked for a
      write. */
  function Taken(s: Sim, write: bool): Sim {
    s.(inflight := false, valid := s.valid && !write)
  }

  function Given(s: Sim, write: bool): Access {
    Access(write, s.req.addr, if write then s.req.data else 0)
  }

  /** `readData32`. */
  function Answered(s: Sim): Sim {
    s.(valid := false)
  }

  // --------------------------------------------------------------------- the system

  /** Both ends, the two channels and the history: every request sent, how many of them
      the simulator has received, those the design has taken, the design's answers and the
      values that reads have returned, each with its request. `lost` counts answers that a
      poll threw away. */
  datatype World = World(
    sim: Sim, toSim: seq<Request>, toClient: seq<Response>, waiting: bool, interruptValue: nat,
    sent: seq<Request>, received: nat, taken: seq<Access>,
    answers: seq<(Request, nat)>, returned: seq<(Request, nat)>, lost: nat)

  datatype Action =
    | ClientSend(r: Request)   // write_portal_bsim, bluesim_sock_fd_write, or the send of read_portal_bsim
    | ClientReceive            // one turn of the receive loop of read_portal_bsim
    | ClientPoll               // bsim_poll_interrupt
    | SimReceive               // bsim_ctrl_recv inside processReq32
    | SimTake(write: bool)     // the design asks for a request of this kind and processReq32 has one
    | SimAnswer(x: nat)
    | SimInterrupt(level: nat)

  predicate IsRead(r: Request) {
    !r.write && r.portal != SENDING_FD
  }

  /** A client operation starts only when the socket mutex is free, which a read holds until
      its answer; portals other than the two reserved numbers. */
  predicate Enabled(w: World, a: Action) {
    match a
    case ClientSend(r) => !w.waiting && r.portal != SENDING_INTERRUPT
    case ClientReceive => w.waiting && w.toClient != []
    case ClientPoll => !w.waiting && w.toClient != []
    case SimReceive => !w.sim.valid && w.toSim != []
    case SimTake(write) => Ready(w.sim, write)
    case SimAnswer(_) => w.sim.valid && !w.sim.inflight && !w.sim.req.write
    case SimInterrupt(_) => true
  }

  function Next(w: World, a: Action): World
    requires Enabled(w, a)
  {
    match a
    case ClientSend(r) =>
      w.(toSim := w.toSim + [r], sent := w.sent + [r], waiting := IsRead(r))
    case ClientReceive =>
      var m := w.toClient[0];
      if m.portal == SENDING_INTERRUPT then w.(toClient := w.toClient[1..], interruptValue := m.data)
      else
        w.(toClient := w.toClient[1..], waiting := false,
           returned := w.returned + [(if w.sent == [] then w.sim.req else View(w.sent[|w.sent| - 1]), m.data)])
    case ClientPoll =>
      var m := w.toClient[0];
      if m.portal == SENDING_INTERRUPT then w.(toClient := w.toClient[1..], interruptValue := m.data)
      else w.(toClient := w.toClient[1..], lost := w.lost + 1)
    case SimReceive =>
      w.(sim := Received(w.sim, w.toSim[0]), toSim := w.toSim[1..], received := w.received + 1)
    case SimTake(write) => w.(sim := Taken(w.sim, write), taken := w.taken + [Given(w.sim, write)])
    case SimAnswer(x) =>
      w.(sim := Answered(w.sim), toClient := w.toClient + [Response(w.sim.respPortal, x)],
         answers := w.answers + [(w.sim.req, x)])
    case SimInterrupt(level) =>
      if level == w.sim.lastLevel then w
      else w.(sim := w.sim.(lastLevel := level), toClient := w.toClient + [Response(SENDING_INTERRUPT, level)])
  }

  // --------------------------------------------------------------------- invariants

  /** The requests meant for the design, in order. */
  function ForDesign(rs: seq<Request>): seq<Request> {
    if rs == [] then []
    else ForDesign(rs[..|rs| - 1]) + if rs[|rs| - 1].portal == SENDING_FD then [] else [rs[|rs| - 1]]
  }

  /** What the design should get of a request. */
  function Meant(r: Request): Access {
    Access(r.write, View(r).addr, if r.write then r.data else 0)
  }

  function AllMeant(rs: seq<Request>): seq<Access> {
    seq(|rs|, i requires 0 <= i < |rs| => Meant(rs[i]))
  }

  /** The level in force once every interrupt in `ms` has been seen. */
  function LevelAfter(ms: seq<Response>, level: nat): nat {
    if ms == [] then level
    else LevelAfter(ms[1..], if ms[0].portal == SENDING_INTERRUPT then ms[0].data else level)
  }

  /** No answer is among the messages. */
  predicate OnlyInterrupts(ms: seq<Response>) {
    forall i :: 0 <= i < |ms| ==> ms[i].portal == SENDING_INTERRUPT
  }

  /** Position of the only answer among the messages. */
  predicate OneAnswer(ms: seq<Response>, x: nat) {
    exists i :: 0 <= i < |ms| && ms[i].portal != SENDING_INTERRUPT && ms[i].data == x
                && OnlyInterrupts(ms[..i]) && OnlyInterrupts(ms[i + 1..])
  }

  /** Requests flow in order: received ones are a prefix of those sent, and the design has
      taken all of those meant for it, except the head while it is in flight. */
  predicate Flow(w: World) {
    && w.received <= |w.sent| && w.toSim == w.sent[w.received..]
    && (w.sim.valid ==>
          && w.received >= 1 && w.sim.req == View(w.sent[w.received - 1]) && w.sim.req.portal != SENDING_FD
          && w.sim.respPortal == w.sim.req.portal && (w.sim.inflight || IsRead(w.sim.req)))
    && (forall i :: 0 <= i < |w.sent| ==> w.sent[i].portal != SENDING_INTERRUPT)
    && AllMeant(ForDesign(w.sent[..w.received])) ==
       w.taken + if w.sim.valid && w.sim.inflight then [Meant(w.sent[w.received - 1])] else []
  }

  /** Where the read in progress is: on its way to the design, or answered with the answer
      on its way back. Between reads no answer is in the channel and no read on its way. */
  predicate Reads(w: World) {
    && |w.returned| <= |w.answers| && w.returned == w.answers[..|w.returned|]
    && w.lost == 0
    && (!w.waiting ==>
          && OnlyInterrupts(w.toClient) && |w.returned| == |w.answers|
          && (forall i :: w.received <= i < |w.sent| ==> !IsRead(w.sent[i]))
          && (w.sim.valid ==> !IsRead(w.sim.req)))
    && (w.waiting ==>
          && w.sent != [] && IsRead(w.sent[|w.sent| - 1])
          && (forall i :: w.received <= i < |w.sent| - 1 ==> !IsRead(w.sent[i]))
          && (w.received < |w.sent| && w.sim.valid ==> !IsRead(w.sim.req))
          && if w.received < |w.sent| || w.sim.valid
             then OnlyInterrupts(w.toClient) && |w.returned| == |w.answers|
             else |w.answers| == |w.returned| + 1
                  && w.answers[|w.returned|].0 == View(w.sent[|w.sent| - 1])
                  && OneAnswer(w.toClient, w.answers[|w.returned|].1))
  }

  predicate Levels(w: World) {
    LevelAfter(w.toClient, w.interruptValue) == w.sim.lastLevel
  }

  predicate Inv(w: World) {
    Flow(w) && Reads(w) && Levels(w)
  }

  const INITIAL: World :=
    World(Sim(false, false, Request(0, false, 0, 0), 0, 0), [], [], false, 0, [], 0, [], [], [], 0)

  lemma InitialInv()
    ensures Inv(INITIAL)
  {
  }

  lemma ForDesignSnoc(rs: seq<Request>, r: Request)
    ensures ForDesign(rs + [r]) == ForDesign(rs) + if r.portal == SENDING_FD then [] else [r]
    ensures AllMeant(ForDesign(rs + [r])) == AllMeant(ForDesign(rs)) + if r.portal == SENDING_FD then [] else [Meant(r)]
  {
    hide View, Meant;
    assert (rs + [r])[..|rs|] == rs;
  }

  lemma {:induction false} LevelAfterSnoc(ms: seq<Response>, m: Response, level: nat)
    ensures LevelAfter(ms + [m], level) ==
            if m.portal == SENDING_INTERRUPT then m.data else LevelAfter(ms, level)
    decreases |ms|
  {
    if ms == [] {
      assert (ms + [m])[1..] == [];
    } else {
      assert (ms + [m])[1..] == ms[1..] + [m];
      LevelAfterSnoc(ms[1..], m, if ms[0].portal == SENDING_INTERRUPT then ms[0].data else level);
    }
  }

  // --------------------------------------------------------- every step keeps them

  lemma FlowKept(w: World, a: Action)
    requires Flow(w) && Enabled(w, a)
    ensures Flow(Next(w, a))
  {
    hide View, ForDesign, Meant, AllMeant, Given;
    if a.SimTake? {
      FlowKeptByTake(w, a.write);
    } else if a.SimReceive? {
      FlowKeptByIntake(w);
    } else if a.ClientSend? {
      assert Next(w, a).sent[..w.received] == w.sent[..w.received];
    }
  }

  lemma FlowKeptByTake(w: World, write: bool)
    requires Flow(w) && Enabled(w, SimTake(write))
    ensures Flow(Next(w, SimTake(write)))
  {
    hide View, ForDesign, Meant, AllMeant, Given;
    ViewPortal(w.sent[w.received - 1]);
    GivenIsMeant(w.sim, w.sent[w.received - 1], write);
  }

  lemma FlowKeptByIntake(w: World)
    requires Flow(w) && Enabled(w, SimReceive)
    ensures Flow(Next(w, SimReceive))
  {
    hide View, ForDesign, Meant, AllMeant, Given;
    assert w.toSim[0] == w.sent[w.received];
    assert w.sent[..w.received + 1] == w.sent[..w.received] + [w.sent[w.received]];
    ForDesignSnoc(w.sent[..w.received], w.sent[w.received]);
    ViewPortal(w.sent[w.received]);
  }

  /** A request that is ready for the kind asked for is given as it was meant. */
  lemma GivenIsMeant(s: Sim, r: Request, write: bool)
    requires s.req == View(r) && Ready(s, write)
    ensures Given(s, write) == Meant(r) && write == r.write
  {
  }

  lemma ViewPortal(r: Request)
    ensures View(r).portal == r.portal && View(r).write == r.write && View(r).data == r.data
  {
  }

  lemma LevelsKept(w: World, a: Action)
    requires Levels(w) && Enabled(w, a)
    requires a.SimAnswer? ==> w.sim.respPortal != SENDING_INTERRUPT
    ensures Levels(Next(w, a))
  {
    match a
    case SimAnswer(x) =>
      LevelAfterSnoc(w.toClient, Response(w.sim.respPortal, x), w.interruptValue);
    case SimInterrupt(level) =>
      LevelAfterSnoc(w.toClient, Response(SENDING_INTERRUPT, level), w.interruptValue);
    case _ =>
  }

  lemma AnswerAppended(ms: seq<Response>, m: Response)
    requires OnlyInterrupts(ms) && m.portal != SENDING_INTERRUPT
    ensures OneAnswer(ms + [m], m.data)
  {
    var ns := ms + [m];
    assert ns[|ms|] == m && ns[..|ms|] == ms && ns[|ms| + 1..] == [];
  }

  lemma InterruptAppended(ms: seq<Response>, m: Response, x: nat)
    requires OneAnswer(ms, x) && m.portal == SENDING_INTERRUPT
    ensures OneAnswer(ms + [m], x)
  {
    var i :| 0 <= i < |ms| && ms[i].portal != SENDING_INTERRUPT && ms[i].data == x
             && OnlyInterrupts(ms[..i]) && OnlyInterrupts(ms[i + 1..]);
    var ns := ms + [m];
    assert ns[i] == ms[i] && ns[..i] == ms[..i] && ns[i + 1..] == ms[i + 1..] + [m];
  }

  /** Taking the first message off a channel that holds one answer. */
  lemma HeadTaken(ms: seq<Response>, x: nat)
    requires OneAnswer(ms, x)
    ensures ms != []
    ensures ms[0].portal == SENDING_INTERRUPT ==> OneAnswer(ms[1..], x)
    ensures ms[0].portal != SENDING_INTERRUPT ==> ms[0].data == x && OnlyInterrupts(ms[1..])
  {
    var i :| 0 <= i < |ms| && ms[i].portal != SENDING_INTERRUPT && ms[i].data == x
             && OnlyInterrupts(ms[..i]) && OnlyInterrupts(ms[i + 1..]);
    if i == 0 {
      assert ms[1..] == ms[i + 1..];
    } else {
      assert ms[0] == ms[..i][0];
      var ns := ms[1..];
      assert ns[i - 1] == ms[i] && ns[..i - 1] == ms[..i][1..] && ns[i..] == ms[i + 1..];
      assert OnlyInterrupts(ns[..i - 1]);
    }
  }

  lemma ReadsKeptByClient(w: World, a: Action)
    requires Flow(w) && Reads(w) && Enabled(w, a) && (a.ClientSend? || a.ClientReceive? || a.ClientPoll?)
    ensures Reads(Next(w, a))
  {
    hide View, ForDesign, OneAnswer;
    var w' := Next(w, a);
    if a.ClientSend? {
      assert w'.sent[|w.sent|] == a.r;
    } else if a.ClientReceive? && w.received == |w.sent| && !w.sim.valid {
      HeadTaken(w.toClient, w.answers[|w.returned|].1);
      assert w.answers[..|w.returned| + 1] == w.answers;
    }
  }

  lemma ReadsKeptByIntake(w: World, a: Action)
    requires Flow(w) && Reads(w) && Enabled(w, a) && (a.SimReceive? || a.SimTake?)
    ensures Reads(Next(w, a))
  {
    hide View, ForDesign, OneAnswer;
    if a.SimReceive? {
      ViewPortal(w.sent[w.received]);
      assert w.toSim[0] == w.sent[w.received];
    } else {
      ViewPortal(w.sent[w.received - 1]);
    }
  }

  lemma ReadsKeptByReply(w: World, a: Action)
    requires Flow(w) && Reads(w) && Enabled(w, a) && (a.SimAnswer? || a.SimInterrupt?)
    ensures Reads(Next(w, a))
  {
    hide View, ForDesign, OneAnswer;
    if a.SimAnswer? {
      ViewPortal(w.sent[w.received - 1]);
      AnswerAppended(w.toClient, Response(w.sim.respPortal, a.x));
    } else if w.waiting && w.received == |w.sent| && !w.sim.valid {
      InterruptAppended(w.toClient, Response(SENDING_INTERRUPT, a.level), w.answers[|w.returned|].1);
    }
  }

  lemma StepKeeps(w: World, a: Action)
    requires Inv(w) && Enabled(w, a)
    ensures Inv(Next(w, a))
  {
    hide View, ForDesign, OneAnswer, LevelAfter;
    FlowKept(w, a);
    if a.ClientSend? || a.ClientReceive? || a.ClientPoll? {
      ReadsKeptByClient(w, a);
    } else if a.SimReceive? || a.SimTake? {
      ReadsKeptByIntake(w, a);
    } else {
      ReadsKeptByReply(w, a);
    }
    if a.SimAnswer? {
      ViewPortal(w.sent[w.received - 1]);
    }
    LevelsKept(w, a);
  }

  predicate Legal(w: World, actions: seq<Action>)
    decreases |actions|
  {
    actions == [] || (Enabled(w, actions[0]) && Legal(Next(w, actions[0]), actions[1..]))
  }

  function Run(w: World, actions: seq<Action>): World
    requires Legal(w, actions)
    decreases |actions|
  {
    if actions == [] then w else Run(Next(w, actions[0]), actions[1..])
  }

  lemma {:induction false} RunKeeps(w: World, actions: seq<Action>)
    requires Inv(w) && Legal(w, actions)
    ensures Inv(Run(w, actions))
    decreases |actions|
  {
    if actions != [] {
      StepKeeps(w, actions[0]);
      RunKeeps(Next(w, actions[0]), actions[1..]);
    }
  }

  // ---------------------------------------------------- what the actions asked for

  /** The requests that the client sends in a run. */
  function Sends(actions: seq<Action>): seq<Request> {
    if actions == [] then []
    else (if actions[0].ClientSend? then [actions[0].r] else []) + Sends(actions[1..])
  }

  /** The values that the design answers in a run. */
  function Replies(actions: seq<Action>): seq<nat> {
    if actions == [] then []
    else (if actions[0].SimAnswer? then [actions[0].x] else []) + Replies(actions[1..])
  }

  /** The level that the design sets last in a run. */
  function LevelSet(actions: seq<Action>, level: nat): nat {
    if actions == [] then level
    else LevelSet(actions[1..], if actions[0].SimInterrupt? then actions[0].level else level)
  }

  function Values(answers: seq<(Request, nat)>): seq<nat> {
    seq(|answers|, i requires 0 <= i < |answers| => answers[i].1)
  }

  lemma {:induction false} SentIs(w: World, actions: seq<Action>)
    requires Legal(w, actions)
    ensures Run(w, actions).sent == w.sent + Sends(actions)
    decreases |actions|
  {
    hide Enabled, Next;
    if actions != [] {
      var a := actions[0];
      HistoryStep(w, a);
      SentIs(Next(w, a), actions[1..]);
      var more := if a.ClientSend? then [a.r] else [];
      assert (w.sent + more) + Sends(actions[1..]) == w.sent + (more + Sends(actions[1..]));
    }
  }

  lemma {:induction false} AnswersAre(w: World, actions: seq<Action>)
    requires Legal(w, actions)
    ensures Values(Run(w, actions).answers) == Values(w.answers) + Replies(actions)
    decreases |actions|
  {
    hide Enabled, Next, Values;
    if actions != [] {
      var a := actions[0];
      HistoryStep(w, a);
      AnswersAre(Next(w, a), actions[1..]);
      var more := if a.SimAnswer? then [a.x] else [];
      assert (Values(w.answers) + more) + Replies(actions[1..]) == Values(w.answers) + (more + Replies(actions[1..]));
    }
  }

  lemma {:induction false} LevelIs(w: World, actions: seq<Action>)
    requires Legal(w, actions)
    ensures Run(w, actions).sim.lastLevel == LevelSet(actions, w.sim.lastLevel)
    decreases |actions|
  {
    hide Enabled, Next;
    if actions != [] {
      HistoryStep(w, actions[0]);
      LevelIs(Next(w, actions[0]), actions[1..]);
    }
  }

  lemma HistoryStep(w: World, a: Action)
    requires Enabled(w, a)
    ensures var w' := Next(w, a);
            && w'.sent == w.sent + (if a.ClientSend? then [a.r] else [])
            && Values(w'.answers) == Values(w.answers) + (if a.SimAnswer? then [a.x] else [])
            && w'.sim.lastLevel == if a.SimInterrupt? then a.level else w.sim.lastLevel
  {
  }

  // ------------------------------------------------------------- nothing gets stuck

  /** Everything sent has arrived: both channels are empty and no operation is under way. */
  predicate Quiet(w: World) {
    w.toSim == [] && !w.sim.valid && w.toClient == [] && !w.waiting
  }

  /** The simulator's next step while it has something to do. */
  function SimStep(w: World): Action
    requires w.toSim != [] || w.sim.valid
  {
    if !w.sim.valid then SimReceive else if w.sim.inflight then SimTake(w.sim.req.write) else SimAnswer(0)
  }

  function Work(w: World): nat {
    3 * |w.toSim| + if !w.sim.valid then 0 else if w.sim.inflight then 2 else 1
  }

  /** The simulator empties its side. */
  lemma {:induction false} SimDrains(w: World) returns (actions: seq<Action>)
    requires Inv(w)
    ensures Legal(w, actions) && Inv(Run(w, actions))
    ensures Run(w, actions).toSim == [] && !Run(w, actions).sim.valid && Sends(actions) == []
    decreases Work(w)
  {
    hide View, ForDesign, AllMeant, OneAnswer, LevelAfter, Reads, Levels, Given;
    if w.toSim == [] && !w.sim.valid {
      actions := [];
    } else {
      var a := SimStep(w);
      SimStepWorks(w);
      StepKeeps(w, a);
      var rest := SimDrains(Next(w, a));
      actions := [a] + rest;
      assert actions[1..] == rest;
    }
  }

  lemma SimStepWorks(w: World)
    requires Flow(w) && (w.toSim != [] || w.sim.valid)
    ensures Enabled(w, SimStep(w)) && Work(Next(w, SimStep(w))) < Work(w) && !SimStep(w).ClientSend?
  {
    hide View, ForDesign, AllMeant, Given;
  }

  /** The client then reads its channel to the end. */
  lemma {:induction false} ClientDrains(w: World) returns (actions: seq<Action>)
    requires Inv(w) && w.toSim == [] && !w.sim.valid
    ensures Legal(w, actions) && Inv(Run(w, actions)) && Quiet(Run(w, actions)) && Sends(actions) == []
    decreases |w.toClient|
  {
    hide View, ForDesign, AllMeant, LevelAfter, Flow, Levels;
    if w.toClient == [] {
      assert !w.waiting by { NoWait(w); }
      actions := [];
    } else {
      var a := if w.waiting then ClientReceive else ClientPoll;
      StepKeeps(w, a);
      var rest := ClientDrains(Next(w, a));
      actions := [a] + rest;
      assert actions[1..] == rest;
    }
  }

  lemma NoWait(w: World)
    requires Flow(w) && Reads(w) && w.toSim == [] && !w.sim.valid && w.toClient == []
    ensures !w.waiting
  {
    if w.waiting {
      HeadTaken(w.toClient, w.answers[|w.returned|].1);
    }
  }

  lemma {:induction false} RunConcat(w: World, xs: seq<Action>, ys: seq<Action>)
    requires Legal(w, xs) && Legal(Run(w, xs), ys)
    ensures Legal(w, xs + ys) && Run(w, xs + ys) == Run(Run(w, xs), ys)
    decreases |xs|
  {
    hide Enabled, Next;
    if xs == [] {
      assert xs + ys == ys;
    } else {
      assert (xs + ys)[0] == xs[0] && (xs + ys)[1..] == xs[1..] + ys;
      RunConcat(Next(w, xs[0]), xs[1..], ys);
    }
  }

  lemma {:induction false} SendsConcat(xs: seq<Action>, ys: seq<Action>)
    ensures Sends(xs + ys) == Sends(xs) + Sends(ys)
    decreases |xs|
  {
    if xs == [] {
      assert xs + ys == ys;
    } else {
      assert (xs + ys)[0] == xs[0] && (xs + ys)[1..] == xs[1..] + ys;
      SendsConcat(xs[1..], ys);
    }
  }

  /** From every reachable state the system can finish what it has, without new requests:
      every request sent has then been taken by the design, every read has returned, and
      any new request or interrupt is possible. */
  lemma Finishes(w: World) returns (actions: seq<Action>)
    requires Inv(w)
    ensures Legal(w, actions)
    ensures var w' := Run(w, actions);
            && Quiet(w') && w'.sent == w.sent && w'.taken == AllMeant(ForDesign(w.sent))
            && w'.returned == w'.answers && w'.interruptValue == w'.sim.lastLevel
            && (forall r: Request :: r.portal != 999 ==> Enabled(w', ClientSend(r)))
            && (forall level: nat :: Enabled(w', SimInterrupt(level)))
  {
    hide View, ForDesign, AllMeant, Given;
    var xs := SimDrains(w);
    var ys := ClientDrains(Run(w, xs));
    actions := xs + ys;
    RunConcat(w, xs, ys);
    SendsConcat(xs, ys);
    SentIs(w, actions);
    var w' := Run(w, actions);
    assert w'.sent[..w'.received] == w'.sent;
  }

  // --------------------------------------------------------------------- every run

  lemma MeantIs(rs: seq<Request>)
    ensures forall i :: 0 <= i < |rs| ==>
      var m := AllMeant(rs)[i];
      && m.write == rs[i].write && (rs[i].write ==> m.data == rs[i].data)
      && (rs[i].addr < 0x1_0000 ==> m.addr == rs[i].portal * 0x1_0000 + rs[i].addr)
  {
    hide View;
    forall i | 0 <= i < |rs| && rs[i].addr < 0x1_0000
      ensures AllMeant(rs)[i].addr == rs[i].portal * 0x1_0000 + rs[i].addr
    {
      ViewAddress(rs[i]);
    }
  }

  lemma {:induction false} ForDesignPrefix(rs: seq<Request>, k: nat)
    requires k <= |rs|
    ensures ForDesign(rs[..k]) <= ForDesign(rs)
    decreases |rs| - k
  {
    if k < |rs| {
      assert rs[..k + 1] == rs[..k] + [rs[k]];
      ForDesignSnoc(rs[..k], rs[k]);
      ForDesignPrefix(rs, k + 1);
    } else {
      assert rs[..k] == rs;
    }
  }

  /** In every run of the client and the simulator: the design takes the requests in the
      order they were sent, asks for each by its own kind and gets its portal, offset and
      data; each read returns the answer the design gave to its own request, however many
      interrupts come between; no poll ever throws an answer away; and once the channel is
      drained the client's interrupt value is the level the design set last. */
  lemma EveryRun(actions: seq<Action>)
    requires Legal(INITIAL, actions)
    ensures var w := Run(INITIAL, actions);
            var rs := ForDesign(Sends(actions));
            && w.sent == Sends(actions)
            && |w.taken| <= |rs|
            && (forall i :: 0 <= i < |w.taken| ==>
                  && w.taken[i].write == rs[i].write
                  && (rs[i].write ==> w.taken[i].data == rs[i].data)
                  && (rs[i].addr < 0x1_0000 ==> w.taken[i].addr == rs[i].portal * 0x1_0000 + rs[i].addr))
            && Values(w.answers) == Replies(actions)
            && w.returned <= w.answers
            && (!w.waiting ==> w.returned == w.answers)
            && w.lost == 0
            && (w.toClient == [] ==> w.interruptValue == LevelSet(actions, 0))
  {
    hide ForDesign, AllMeant, OneAnswer, View;
    InitialInv();
    RunKeeps(INITIAL, actions);
    SentIs(INITIAL, actions);
    AnswersAre(INITIAL, actions);
    LevelIs(INITIAL, actions);
    var w := Run(INITIAL, actions);
    ForDesignPrefix(w.sent, w.received);
    TakenIsMeant(w);
    MeantIs(ForDesign(w.sent[..w.received]));
  }

  lemma TakenIsMeant(w: World)
    requires Flow(w)
    ensures var rs := ForDesign(w.sent[..w.received]);
            |w.taken| <= |rs| == |AllMeant(rs)| && forall i :: 0 <= i < |w.taken| ==> w.taken[i] == AllMeant(rs)[i]
  {
    hide ForDesign, Meant, View;
  }

  // -------------------------------------------------------------- the two programs

  /** The socket: what is on its way in each direction. */
  class Link {
    var toSim: seq<Request>
    var toClient: seq<Response>

    constructor ()
      ensures toSim == [] && toClient == []
    {
      toSim, toClient := [], [];
    }
  }

  /** The simulator's side of the socket. */
  class Simulator {
    const link: Link
    var valid: bool
    var inflight: bool
    var req: Request
    var respPortal: nat
    var lastLevel: nat

    ghost function State(): Sim
      reads this
    {
      Sim(valid, inflight, req, respPortal, lastLevel)
    }

    constructor (link: Link)
      ensures this.link == link && State() == INITIAL.sim
    {
      this.link := link;
      valid, inflight, req, respPortal, lastLevel := false, false, Request(0, false, 0, 0), 0, 0;
    }

    /** `processReq32`: receives when there is no head, then says whether the head waits to
        be taken as a request of the given kind. */
    method ProcessReq32(write: bool) returns (ready: bool)
      modifies this`valid, this`inflight, this`req, this`respPortal, link`toSim
      ensures var got := !old(valid) && old(link.toSim) != [];
              && State() == (if got then Received(old(State()), old(link.toSim)[0]) else old(State()))
              && link.toSim == (if got then old(link.toSim)[1..] else old(link.toSim))
      ensures ready <==> Ready(State(), write)
    {
      if !valid && link.toSim != [] {
        var r := link.toSim[0];
        link.toSim := link.toSim[1..];
        respPortal := r.portal;
        if r.portal == SENDING_FD {
          return false;
        }
        valid, inflight := true, true;
        req := r.(addr := Bits.Or(r.addr, Bits.Shl(r.portal, 16)));
      }
      ready := valid && inflight && req.write == write;
    }

    /** `processAddr32`, and `writeData32` with it when the design asked for a write. */
    method TakeRequest(write: bool) returns (addr: nat, data: nat)
      requires Ready(State(), write)
      modifies this`valid, this`inflight
      ensures State() == Taken(old(State()), write)
      ensures Given(old(State()), write) == Access(write, addr, data)
    {
      inflight := false;
      addr, data := req.addr, 0;
      if write {
        valid := false;
        data := req.data;
      }
    }

    method ReadData32(x: nat)
      modifies this`valid, link`toClient
      ensures State() == Answered(old(State()))
      ensures link.toClient == old(link.toClient) + [Response(respPortal, x)]
    {
      valid := false;
      link.toClient := link.toClient + [Response(respPortal, x)];
    }

    /** `interruptLevel`: sends a level only when it changes, and gives `respitem` its portal
        back. */
    method InterruptLevel(level: nat)
      modifies this`lastLevel, this`respPortal, link`toClient
      ensures State() == old(State()).(lastLevel := level)
      ensures link.toClient ==
              if level == old(lastLevel) then old(link.toClient)
              else old(link.toClient) + [Response(SENDING_INTERRUPT, level)]
    {
      if level != lastLevel {
        lastLevel := level;
        var temp := respPortal;
        respPortal := SENDING_INTERRUPT;
        link.toClient := link.toClient + [Response(respPortal, level)];
        respPortal := temp;
      }
    }
  }

  /** The application's side of the socket. */
  class Client {
    const link: Link
    var interruptValue: nat

    constructor (link: Link)
      ensures this.link == link && interruptValue == 0
    {
      this.link := link;
      interruptValue := 0;
    }

    /** `bsim_poll_interrupt`: takes one message if there is one, and never loses a level.
        It would take a read answer too, so it is safe only while none is in the channel. */
    method PollInterrupt() returns (v: nat)
      modifies this`interruptValue, link`toClient
      ensures v == interruptValue
      ensures link.toClient == if old(link.toClient) == [] then [] else old(link.toClient)[1..]
      ensures LevelAfter(link.toClient, interruptValue) == LevelAfter(old(link.toClient), old(interruptValue))
    {
      if link.toClient != [] {
        var rv := link.toClient[0];
        link.toClient := link.toClient[1..];
        if rv.portal == SENDING_INTERRUPT {
          interruptValue := rv.data;
        }
      }
      v := interruptValue;
    }

    /** The receive loop of `read_portal_bsim`: however many levels come first, it returns
        the one answer in the channel and loses no level. */
    method ReceiveAnswer(ghost x: nat) returns (data: nat)
      requires OneAnswer(link.toClient, x)
      modifies this`interruptValue, link`toClient
      ensures data == x && OnlyInterrupts(link.toClient)
      ensures LevelAfter(link.toClient, interruptValue) == LevelAfter(old(link.toClient), old(interruptValue))
    {
      hide OneAnswer;
      HeadTaken(link.toClient, x);
      while link.toClient[0].portal == SENDING_INTERRUPT
        invariant OneAnswer(link.toClient, x) && link.toClient != []
        invariant LevelAfter(link.toClient, interruptValue) == LevelAfter(old(link.toClient), old(interruptValue))
        decreases |link.toClient|
      {
        HeadTaken(link.toClient, x);
        interruptValue := link.toClient[0].data;
        link.toClient := link.toClient[1..];
        HeadTaken(link.toClient, x);
      }
      HeadTaken(link.toClient, x);
      data := link.toClient[0].data;
      link.toClient := link.toClient[1..];
    }
  }
}
