/**
  Firmware bring-up of ghdd_driver.c, in the builds with and without COMMISSIONING: frames
  from the device, expiry of the command timer and execution of the deferred work as atomic
  steps interleaved in any order.
 */
module GhddDriver {
  import opened Options

  datatype FwState = Idle | Init | GetHwSpec | Start | Auth | ZbState | Commission

  datatype FwEvent =
    | InitEvtRxed | HwspecCnfRxed | StaStartCnfRxed | CmdTimeout | SetKeyCnf
    | ZbIdleEvnt | ZbUnassocEvnt | ZbAssocEvnt | SendCfgDone | CommissioningCnfRxed

  /** Frames the event handler reacts to; it refuses or only forwards the others. */
  datatype Message =
    | SetKeyConfirm | StaRestartConfirm | HardwareSpecConfirm | CommissioningConfirm
    | FwReady | AssociateIndication | OtherMessage

  datatype Command =
    | TriggerEvent | HwSpecGet | HwSpecSet | SetKey | Commissioning | StartNetwork
    | CapabilityInfo(initDone: bool) | AssociateResponse

  datatype Step = Frame(msg: Message) | TimerExpires | WorkRuns

  /** The build, the driver's variables, whether its timer is armed and whether its work is queued. */
  datatype Driver = Driver(
    commissioning: bool,
    state: FwState, zbEvent: FwEvent, cfgDone: bool, initDone: bool, armed: bool, queued: bool)

  function Loaded(commissioning: bool): Driver {
    Driver(commissioning, Idle, ZbIdleEvnt, false, false, false, true)
  }

  // ------------------------------------------------------------ specification

  /** The working state between Init and Start, and the event that ends it. */
  function Third(commissioning: bool): FwState { if commissioning then Commission else Auth }

  function ThirdEvent(commissioning: bool): FwEvent { if commissioning then CommissioningCnfRxed else SetKeyCnf }

  /** An unsolicited association and a timeout are taken in any state; the rest is one chain. */
  function Successor(d: Driver, e: FwEvent): FwState {
    var s := d.state;
    if e == CmdTimeout then Idle
    else if e == ZbUnassocEvnt then ZbState
    else if s == Idle && e == InitEvtRxed then GetHwSpec
    else if s == GetHwSpec && e == HwspecCnfRxed then Init
    else if s == Init && e == HwspecCnfRxed then Third(d.commissioning)
    else if (s == Auth && e == SetKeyCnf) || (s == Commission && e == CommissioningCnfRxed) then Start
    else if s == Start && e == StaStartCnfRxed then Idle
    else s
  }

  predicate Accepts(d: Driver, e: FwEvent) {
    && (d.state == Commission ==> d.commissioning)
    && (d.state == ZbState || e == CmdTimeout || Successor(d, e) != d.state)
  }

  /**
    Every move to a working state queues the work; entering GetHwSpec and Init, and leaving
    Commission for Start, arms the timer.
   */
  function Fires(d: Driver, e: FwEvent): Driver {
    if !Accepts(d, e) then d else
    var s := Successor(d, e);
    var moves := s != d.state;
    d.(state := s,
       zbEvent := if e == ZbUnassocEvnt then e else d.zbEvent,
       cfgDone := d.cfgDone || (moves && s == Start),
       armed := d.armed || (moves && (s in {GetHwSpec, Init} || (s == Start && d.state == Commission))),
       queued := d.queued || e == ZbUnassocEvnt || (moves && s != Idle))
  }

  function EventOf(commissioning: bool, m: Message): Option<FwEvent> {
    match m
    case SetKeyConfirm => Some(SetKeyCnf)
    case StaRestartConfirm => Some(StaStartCnfRxed)
    case HardwareSpecConfirm => Some(HwspecCnfRxed)
    case CommissioningConfirm => if commissioning then Some(CommissioningCnfRxed) else None
    case FwReady => Some(InitEvtRxed)
    case AssociateIndication => Some(ZbUnassocEvnt)
    case OtherMessage => None
  }

  predicate Announces(d: Driver) { d.state == Start && d.cfgDone }

  predicate Possible(d: Driver, s: Step) {
    (s == TimerExpires ==> d.armed) && (s == WorkRuns ==> d.queued)
  }

  function Next(d: Driver, s: Step): Driver {
    match s
    case Frame(m) =>
      var r := if m == FwReady then d.(initDone := false) else d;
      var e := EventOf(d.commissioning, m);
      if e.None? then r else Fires(r, e.value)
    case TimerExpires => Fires(d.(armed := false), CmdTimeout)
    case WorkRuns =>
      d.(queued := false,
         state := if d.state == ZbState then Idle else d.state,
         initDone := d.initDone || Announces(d),
         cfgDone := d.cfgDone && d.state != Start)
  }

  /** What the work sends. */
  function Commands(d: Driver): seq<Command> {
    match d.state
    case Idle => [TriggerEvent]
    case GetHwSpec => [HwSpecGet]
    case Init => [HwSpecSet]
    case Auth => [SetKey]
    case Start => [StartNetwork] + if d.cfgDone then [CapabilityInfo(true)] else []
    case ZbState => if d.zbEvent == ZbUnassocEvnt then [AssociateResponse] else []
    case Commission => if d.commissioning then [Commissioning] else []
  }

  function After(d: Driver, run: seq<Step>): Driver {
    if run == [] then d else Next(After(d, run[..|run| - 1]), run[|run| - 1])
  }

  /** The timer expires only when armed and the work executes only when queued. */
  predicate Feasible(d: Driver, run: seq<Step>) {
    run == [] || (Feasible(d, run[..|run| - 1]) && Possible(After(d, run[..|run| - 1]), run[|run| - 1]))
  }

  // ------------------------------------------------------------ the driver never wedges

  const BUSY: set<FwState> := {GetHwSpec, Init, Commission, Auth, Start}

  predicate Invariant(d: Driver) {
    && (d.state in BUSY ==> d.armed)
    && (d.state == Commission ==> d.commissioning) && (d.state == Auth ==> !d.commissioning)
    && (d.state == ZbState ==> d.queued && d.zbEvent == ZbUnassocEvnt)
    && (d.state == Start ==> d.queued == d.cfgDone)
  }

  /** One state of a bring-up to the next. */
  predicate Chained(c: bool, s: FwState, t: FwState) {
    || (s == Idle && t == GetHwSpec) || (s == GetHwSpec && t == Init) || (s == Init && t == Third(c))
    || (s in {Auth, Commission} && t == Start)
  }

  /** An event is ignored, ends in Idle or ZbState, or is the next one of a bring-up. */
  lemma FiresMoves(d: Driver, e: FwEvent)
    ensures var n := Fires(d, e);
      && n.commissioning == d.commissioning && n.initDone == d.initDone
      && (|| n == d
          || n == d.(state := Idle)
          || (n.state == ZbState && n.queued && n.zbEvent == ZbUnassocEvnt)
          || (&& Chained(d.commissioning, d.state, n.state) && n.queued && (d.armed ==> n.armed)
              && (n.state in {GetHwSpec, Init} ==> n.armed) && (n.state == Start ==> n.cfgDone)))
  {}

  lemma NextKeeps(d: Driver, s: Step)
    requires Invariant(d) && Possible(d, s)
    ensures Invariant(Next(d, s)) && Next(d, s).commissioning == d.commissioning
  {
    hide Fires, EventOf;
    match s {
      case Frame(m) =>
        var e := EventOf(d.commissioning, m);
        if e.Some? { FiresMoves(if m == FwReady then d.(initDone := false) else d, e.value); }
      case TimerExpires => TimeoutIsIdle(d.(armed := false));
      case WorkRuns =>
    }
  }

  lemma TimeoutIsIdle(d: Driver)
    ensures Fires(d, CmdTimeout) == if d.state == Commission && !d.commissioning then d else d.(state := Idle)
  {}

  lemma {:induction false} Reachable(c: bool, run: seq<Step>)
    requires Feasible(Loaded(c), run)
    ensures Invariant(After(Loaded(c), run)) && After(Loaded(c), run).commissioning == c
  {
    if run != [] {
      Reachable(c, run[..|run| - 1]);
      NextKeeps(After(Loaded(c), run[..|run| - 1]), run[|run| - 1]);
    }
  }

  lemma AfterOneMore(d: Driver, run: seq<Step>, s: Step)
    ensures After(d, run + [s]) == Next(After(d, run), s)
    ensures Feasible(d, run + [s]) <==> Feasible(d, run) && Possible(After(d, run), s)
  {
    assert (run + [s])[..|run|] == run;
  }

  /**
    In every reachable state of either build, an armed timeout leads from the working states
    to Idle, and queued work from ZbState.
   */
  lemma NeverWedged(c: bool, run: seq<Step>)
    requires Feasible(Loaded(c), run)
    ensures var d := After(Loaded(c), run);
      && (d.state in {GetHwSpec, Init, Commission, Auth, Start} ==>
        Feasible(Loaded(c), run + [TimerExpires]) && After(Loaded(c), run + [TimerExpires]).state == Idle)
      && (d.state == ZbState ==>
        Feasible(Loaded(c), run + [WorkRuns]) && After(Loaded(c), run + [WorkRuns]).state == Idle)
  {
    Reachable(c, run);
    AfterOneMore(Loaded(c), run, TimerExpires);
    AfterOneMore(Loaded(c), run, WorkRuns);
  }

  /** Each build reaches the state the other one does not. */
  lemma CommissionIsReached()
    ensures var run := [Frame(FwReady), Frame(HardwareSpecConfirm), Frame(HardwareSpecConfirm)];
      && Feasible(Loaded(true), run) && After(Loaded(true), run).state == Commission
      && Feasible(Loaded(false), run) && After(Loaded(false), run).state == Auth
  {
    hide After, Feasible, Next, Possible;
    forall c: bool
      ensures var run := [Frame(FwReady), Frame(HardwareSpecConfirm), Frame(HardwareSpecConfirm)];
        Feasible(Loaded(c), run) && After(Loaded(c), run).state == Third(c)
    {
      ThreeFrames(Loaded(c));
    }
  }

  function ThirdConfirm(commissioning: bool): Message {
    if commissioning then CommissioningConfirm else SetKeyConfirm
  }

  function BringUp(commissioning: bool): seq<Step> {
    [Frame(FwReady), Frame(HardwareSpecConfirm), Frame(HardwareSpecConfirm)]
      + [Frame(ThirdConfirm(commissioning))] + [WorkRuns]
  }

  function ToIdle(d: Driver): seq<Step> {
    if d.state == Idle then [] else if d.state == ZbState then [WorkRuns] else [TimerExpires]
  }

  lemma ReachesIdle(d: Driver)
    requires Invariant(d)
    ensures var e := After(d, ToIdle(d));
      Feasible(d, ToIdle(d)) && e.state == Idle && e.commissioning == d.commissioning
  {
    var steps := ToIdle(d);
    if steps != [] { AfterOneMore(d, [], steps[0]); }
  }

  lemma {:induction false} AfterJoin(d: Driver, a: seq<Step>, b: seq<Step>)
    ensures After(d, a + b) == After(After(d, a), b)
    ensures Feasible(d, a + b) <==> Feasible(d, a) && Feasible(After(d, a), b)
  {
    if b == [] {
      assert a + b == a;
    } else {
      var c := b[..|b| - 1];
      AfterJoin(d, a, c);
      assert (a + b)[..|a + b| - 1] == a + c;
    }
  }

  lemma EmptyRun(d: Driver)
    ensures After(d, []) == d && Feasible(d, [])
  {}

  lemma ThreeFrames(d: Driver)
    requires d.state == Idle
    ensures var run := [Frame(FwReady), Frame(HardwareSpecConfirm), Frame(HardwareSpecConfirm)];
      && Feasible(d, run) && After(d, run).commissioning == d.commissioning
      && After(d, run).state == Third(d.commissioning)
  {
    hide After, Feasible, Next, Possible;
    var ready, spec := Frame(FwReady), Frame(HardwareSpecConfirm);
    EmptyRun(d);
    assert [] + [ready] == [ready] && [ready] + [spec] + [spec] == [ready, spec, spec];
    AfterOneMore(d, [], ready);
    FirmwareReady(d);
    AfterOneMore(d, [ready], spec);
    SpecConfirmed(After(d, [ready]));
    AfterOneMore(d, [ready] + [spec], spec);
    SpecConfirmed(After(d, [ready] + [spec]));
  }

  lemma FirmwareReady(d: Driver)
    requires d.state == Idle
    ensures var s := Frame(FwReady);
      Possible(d, s) && Next(d, s).state == GetHwSpec && Next(d, s).commissioning == d.commissioning
  {}

  lemma SpecConfirmed(d: Driver)
    requires d.state in {GetHwSpec, Init}
    ensures var s := Frame(HardwareSpecConfirm);
      && Possible(d, s) && Next(d, s).commissioning == d.commissioning
      && Next(d, s).state == if d.state == GetHwSpec then Init else Third(d.commissioning)
  {}

  lemma BringUpFromIdle(d: Driver)
    requires d.state == Idle
    ensures var run := BringUp(d.commissioning);
      |run| == 5 && Feasible(d, run) && After(d, run).initDone && After(d, run).state == Start
  {
    hide After, Feasible;
    var three := [Frame(FwReady), Frame(HardwareSpecConfirm), Frame(HardwareSpecConfirm)];
    ThreeFrames(d);
    AfterOneMore(d, three, Frame(ThirdConfirm(d.commissioning)));
    AfterOneMore(d, three + [Frame(ThirdConfirm(d.commissioning))], WorkRuns);
  }

  /** From every reachable state the firmware can still be brought up, in at most six steps. */
  lemma Recovers(c: bool, run: seq<Step>)
    requires Feasible(Loaded(c), run)
    ensures var more := ToIdle(After(Loaded(c), run)) + BringUp(c);
      |more| <= 6 && Feasible(Loaded(c), run + more) && After(Loaded(c), run + more).initDone
  {
    hide BringUp, After, Feasible, Invariant;
    var d := After(Loaded(c), run);
    Reachable(c, run);
    ReachesIdle(d);
    BringUpFromIdle(After(d, ToIdle(d)));
    AfterJoin(d, ToIdle(d), BringUp(c));
    AfterJoin(Loaded(c), run, ToIdle(d) + BringUp(c));
  }

  /** A bring-up the device confirms to the end leaves the driver idle, initialised and done. */
  lemma ConfirmedBringUp(d: Driver)
    requires d.state == Idle
    ensures var run := BringUp(d.commissioning) + [Frame(StaRestartConfirm)];
      Feasible(d, run) && After(d, run).state == Idle && After(d, run).initDone && !After(d, run).queued
  {
    hide After, Feasible, BringUp;
    BringUpFromIdle(d);
    WorkIsDone(d);
    AfterOneMore(d, BringUp(d.commissioning), Frame(StaRestartConfirm));
    StartConfirmed(After(d, BringUp(d.commissioning)));
  }

  lemma WorkIsDone(d: Driver)
    ensures !After(d, BringUp(d.commissioning)).queued
  {
    var run := BringUp(d.commissioning);
    assert run[|run| - 1] == WorkRuns;
  }

  lemma StartConfirmed(d: Driver)
    requires d.state == Start
    ensures var s := Frame(StaRestartConfirm); Possible(d, s) && Next(d, s) == d.(state := Idle)
  {}

  // ------------------------------------------------------------ what every step does

  /** The module is loaded idle, nothing configured or done, its first work waiting to trigger the firmware. */
  lemma LoadedIs(c: bool)
    ensures var d := Loaded(c);
      && d.commissioning == c && d.state == Idle && d.zbEvent == ZbIdleEvnt
      && !d.cfgDone && !d.initDone && !d.armed && d.queued && Commands(d) == [TriggerEvent]
  {}

  /** The frame, expiry or execution of the work that leads from another state to this one. */
  predicate LeadsTo(c: bool, from: FwState, s: Step, to: FwState) {
    match to
    case Idle =>
      s == TimerExpires || (from == ZbState && s == WorkRuns) || (from == Start && s == Frame(StaRestartConfirm))
    case GetHwSpec => from == Idle && s == Frame(FwReady)
    case Init => from == GetHwSpec && s == Frame(HardwareSpecConfirm)
    case Auth => !c && from == Init && s == Frame(HardwareSpecConfirm)
    case Commission => c && from == Init && s == Frame(HardwareSpecConfirm)
    case Start =>
      (from == Auth && s == Frame(SetKeyConfirm)) || (from == Commission && s == Frame(CommissioningConfirm))
    case ZbState => s == Frame(AssociateIndication)
  }

  /** Exactly what leads from one state to another, in every run. */
  lemma StateIff(c: bool, run: seq<Step>, s: Step, to: FwState)
    requires Feasible(Loaded(c), run + [s]) && After(Loaded(c), run).state != to
    ensures After(Loaded(c), run + [s]).state == to <==> LeadsTo(c, After(Loaded(c), run).state, s, to)
  {
    hide After, Feasible, LeadsTo, Next;
    AfterOneMore(Loaded(c), run, s);
    Reachable(c, run);
    var d := After(Loaded(c), run);
    match s {
      case Frame(m) => FrameLeads(d, m, to);
      case TimerExpires => TimerLeads(d, to);
      case WorkRuns => WorkLeads(d, to);
    }
  }

  lemma FrameLeads(d: Driver, m: Message, to: FwState)
    requires Invariant(d) && d.state != to
    ensures Next(d, Frame(m)).state == to <==> LeadsTo(d.commissioning, d.state, Frame(m), to)
  {
    hide Fires, Invariant;
    FiresSuccessor(if m == FwReady then d.(initDone := false) else d, EventOf(d.commissioning, m));
    assert d.state == Commission ==> d.commissioning by { CommissionOnly(d); }
  }

  lemma CommissionOnly(d: Driver)
    requires Invariant(d)
    ensures d.state == Commission ==> d.commissioning
  {}

  lemma FiresSuccessor(d: Driver, e: Option<FwEvent>)
    ensures e.Some? && (d.state == Commission ==> d.commissioning) ==> Fires(d, e.value).state == Successor(d, e.value)
  {
    hide Successor;
  }

  lemma TimerLeads(d: Driver, to: FwState)
    requires Invariant(d) && d.state != to
    ensures Next(d, TimerExpires).state == to <==> LeadsTo(d.commissioning, d.state, TimerExpires, to)
  {
    hide Fires;
    TimeoutIsIdle(d.(armed := false));
  }

  lemma WorkLeads(d: Driver, to: FwState)
    requires Invariant(d) && d.state != to
    ensures Next(d, WorkRuns).state == to <==> LeadsTo(d.commissioning, d.state, WorkRuns, to)
  {}

  /** The steps that arm the timer. */
  predicate Arms(from: FwState, s: Step) {
    || (from == Idle && s == Frame(FwReady)) || (from == GetHwSpec && s == Frame(HardwareSpecConfirm))
    || (from == Commission && s == Frame(CommissioningConfirm))
  }

  /** Exactly when, in every run, the timer is armed, the work queued and the configuration done. */
  lemma FlagsIff(c: bool, run: seq<Step>, s: Step)
    requires Feasible(Loaded(c), run + [s])
    ensures var d, e := After(Loaded(c), run), After(Loaded(c), run + [s]);
      && (e.armed <==> (d.armed && s != TimerExpires) || Arms(d.state, s))
      && (e.queued <==> (d.queued && s != WorkRuns) || s == Frame(AssociateIndication)
                        || (s.Frame? && e.state != d.state && e.state != Idle))
      && (e.cfgDone <==> (d.cfgDone && !(d.state == Start && s == WorkRuns)) || (d.state != Start && e.state == Start))
      && e.zbEvent == if s == Frame(AssociateIndication) then ZbUnassocEvnt else d.zbEvent
  {
    hide After, Feasible, Next, Arms;
    AfterOneMore(Loaded(c), run, s);
    Reachable(c, run);
    var d := After(Loaded(c), run);
    match s {
      case Frame(m) =>
        CommissionOnly(d);
        FrameArms(d, m);
        FrameQueues(d, m);
        FrameConfigures(d, m);
      case TimerExpires => TimerFlags(d);
      case WorkRuns => WorkFlags(d);
    }
  }

  lemma FrameArms(d: Driver, m: Message)
    requires d.state == Commission ==> d.commissioning
    ensures Next(d, Frame(m)).armed <==> d.armed || Arms(d.state, Frame(m))
  {}

  lemma FrameQueues(d: Driver, m: Message)
    requires d.state == Commission ==> d.commissioning
    ensures var e := Next(d, Frame(m));
      e.queued <==> d.queued || m == AssociateIndication || (e.state != d.state && e.state != Idle)
  {}

  lemma FrameConfigures(d: Driver, m: Message)
    requires d.state == Commission ==> d.commissioning
    ensures var e := Next(d, Frame(m));
      && (e.cfgDone <==> d.cfgDone || (d.state != Start && e.state == Start))
      && e.zbEvent == if m == AssociateIndication then ZbUnassocEvnt else d.zbEvent
  {}

  lemma TimerFlags(d: Driver)
    requires Invariant(d)
    ensures !Arms(d.state, TimerExpires) && Next(d, TimerExpires) == d.(armed := false, state := Idle)
  {
    hide Fires;
    TimeoutIsIdle(d.(armed := false));
  }

  lemma WorkFlags(d: Driver)
    ensures !Arms(d.state, WorkRuns)
    ensures var e := Next(d, WorkRuns);
      && e.armed == d.armed && !e.queued && (e.cfgDone <==> d.cfgDone && d.state != Start)
      && e.zbEvent == d.zbEvent && (e.state == Start ==> d.state == Start)
  {}

  /** Which events the state machine takes: a timeout and an association anywhere, all in ZbState, and one per state. */
  lemma TakenIff(c: bool, run: seq<Step>, e: FwEvent)
    requires Feasible(Loaded(c), run)
    ensures var d := After(Loaded(c), run);
      Accepts(d, e) <==>
        || e == CmdTimeout || e == ZbUnassocEvnt || d.state == ZbState
        || (d.state == Idle && e == InitEvtRxed) || (d.state == GetHwSpec && e == HwspecCnfRxed)
        || (d.state == Init && e == HwspecCnfRxed) || (d.state == Auth && e == SetKeyCnf)
        || (d.state == Commission && e == CommissioningCnfRxed) || (d.state == Start && e == StaStartCnfRxed)
    ensures !Accepts(After(Loaded(c), run), e) ==> Fires(After(Loaded(c), run), e) == After(Loaded(c), run)
  {
    Reachable(c, run);
  }

  /** What the work sends in Start, in every run. */
  lemma StartSends(c: bool, run: seq<Step>)
    requires Feasible(Loaded(c), run + [WorkRuns])
    ensures After(Loaded(c), run).state == Start <==> StartNetwork in Commands(After(Loaded(c), run))
    ensures After(Loaded(c), run).state == Start ==>
      Commands(After(Loaded(c), run)) == [StartNetwork, CapabilityInfo(true)]
  {
    AfterOneMore(Loaded(c), run, WorkRuns);
    Reachable(c, run);
  }

  // ------------------------------------------------------------ when initialisation is announced

  /** The events that the state machine accepted since the driver was last Idle. */
  function SinceIdle(c: bool, run: seq<Step>): seq<FwEvent> {
    if run == [] then [] else
    var before := run[..|run| - 1];
    AcceptedNext(After(Loaded(c), before), SinceIdle(c, before), run[|run| - 1])
  }

  function AcceptedNext(d: Driver, events: seq<FwEvent>, s: Step): seq<FwEvent> {
    if Next(d, s).state == Idle then [] else
    match s
    case Frame(m) =>
      var e := EventOf(d.commissioning, m);
      if e.Some? && Accepts(d, e.value) then events + [e.value] else events
    case TimerExpires => events + [CmdTimeout]
    case WorkRuns => events
  }

  /** The events of a bring-up. */
  function Chain(c: bool): seq<FwEvent> {
    [InitEvtRxed, HwspecCnfRxed, HwspecCnfRxed, ThirdEvent(c)]
  }

  ghost predicate Traces(c: bool, s: FwState, events: seq<FwEvent>) {
    match s
    case Idle => events == []
    case GetHwSpec => events == Chain(c)[..1]
    case Init => events == Chain(c)[..2]
    case Auth => !c && events == Chain(c)[..3]
    case Commission => c && events == Chain(c)[..3]
    case Start => events == Chain(c)
    case ZbState => ZbUnassocEvnt in events
  }

  lemma {:induction false} StateTraces(c: bool, run: seq<Step>)
    requires Feasible(Loaded(c), run)
    ensures Traces(c, After(Loaded(c), run).state, SinceIdle(c, run))
  {
    if run != [] {
      hide Traces, AcceptedNext, Next, Possible, Invariant;
      var before := run[..|run| - 1];
      StateTraces(c, before);
      Reachable(c, before);
      TracesNext(After(Loaded(c), before), SinceIdle(c, before), run[|run| - 1]);
    } else {
      assert After(Loaded(c), run) == Loaded(c) && SinceIdle(c, run) == [];
    }
  }

  lemma TracesNext(d: Driver, events: seq<FwEvent>, s: Step)
    requires Traces(d.commissioning, d.state, events)
    ensures Traces(d.commissioning, Next(d, s).state, AcceptedNext(d, events, s))
  {
    ChainPrefixes(d.commissioning);
    hide Chain;
    if s.Frame? {
      hide Fires;
      var e := EventOf(d.commissioning, s.msg);
      var r := if s.msg == FwReady then d.(initDone := false) else d;
      if e.Some? { TracesFires(r, events, e.value); }
    }
  }

  lemma TracesFires(d: Driver, events: seq<FwEvent>, e: FwEvent)
    requires Traces(d.commissioning, d.state, events)
    ensures var s := Fires(d, e).state;
      Traces(d.commissioning, s, if s == Idle then [] else if Accepts(d, e) then events + [e] else events)
  {
    ChainPrefixes(d.commissioning);
    hide Chain;
  }

  lemma ChainPrefixes(c: bool)
    ensures var chain := Chain(c);
      && |chain| == 4 && chain[..1] == [InitEvtRxed] && chain[..2] == chain[..1] + [HwspecCnfRxed]
      && chain[..3] == chain[..2] + [HwspecCnfRxed] && chain == chain[..3] + [ThirdEvent(c)]
  {}

  /**
    Executing the work announces initialisation just when the transitions since Idle were the
    four of a bring-up, on their confirmations; a cfgDone left over from a bring-up that timed
    out changes nothing.
   */
  lemma AnnouncedIff(c: bool, run: seq<Step>)
    requires Feasible(Loaded(c), run + [WorkRuns])
    ensures Announces(After(Loaded(c), run)) <==> SinceIdle(c, run) == Chain(c)
    ensures CapabilityInfo(true) in Commands(After(Loaded(c), run)) <==> SinceIdle(c, run) == Chain(c)
  {
    AfterOneMore(Loaded(c), run, WorkRuns);
    Reachable(c, run);
    StateTraces(c, run);
    assert ZbUnassocEvnt !in Chain(c) && forall n | 0 <= n < 4 :: |Chain(c)[..n]| == n;
  }

  /** Step j finished a bring-up, and the firmware has not restarted since. */
  ghost predicate FinishedAt(c: bool, run: seq<Step>, j: nat) {
    j < |run| && run[j] == WorkRuns && SinceIdle(c, run[..j]) == Chain(c) && Frame(FwReady) !in run[j + 1..]
  }

  lemma FinishedEarlier(c: bool, run: seq<Step>, s: Step, j: nat)
    ensures j < |run| ==> (FinishedAt(c, run + [s], j) <==> FinishedAt(c, run, j) && s != Frame(FwReady))
    ensures FinishedAt(c, run + [s], |run|) <==> s == WorkRuns && SinceIdle(c, run) == Chain(c)
  {
    if j < |run| {
      assert (run + [s])[..j] == run[..j] && (run + [s])[j + 1..] == run[j + 1..] + [s];
    }
    assert (run + [s])[..|run|] == run;
  }

  /** In every reachable state, ghdd_init_done tells whether some bring-up finished and stands. */
  lemma {:induction false} InitDoneIff(c: bool, run: seq<Step>)
    requires Feasible(Loaded(c), run)
    ensures After(Loaded(c), run).initDone <==> exists j :: FinishedAt(c, run, j)
  {
    if run != [] {
      var before, s := run[..|run| - 1], run[|run| - 1];
      assert run == before + [s];
      InitDoneIff(c, before);
      if s == WorkRuns { AnnouncedIff(c, before); }
      InitDoneStep(c, before, s);
      FinishedNext(c, before, s);
    }
  }

  lemma FinishedNext(c: bool, run: seq<Step>, s: Step)
    ensures (exists j :: FinishedAt(c, run + [s], j)) <==>
      (s != Frame(FwReady) && exists j :: FinishedAt(c, run, j)) || (s == WorkRuns && SinceIdle(c, run) == Chain(c))
  {
    hide SinceIdle, Chain;
    forall j: nat { FinishedEarlier(c, run, s, j); }
    if s != Frame(FwReady) && exists j :: FinishedAt(c, run, j) {
      var j :| FinishedAt(c, run, j);
      assert FinishedAt(c, run + [s], j);
    }
    if s == WorkRuns && SinceIdle(c, run) == Chain(c) { assert FinishedAt(c, run + [s], |run|); }
  }

  lemma InitDoneStep(c: bool, before: seq<Step>, s: Step)
    ensures var d := After(Loaded(c), before);
      Next(d, s).initDone <==> s != Frame(FwReady) && (d.initDone || (s == WorkRuns && Announces(d)))
  {}

  // ------------------------------------------------------------ what a bring-up has sent

  /** The commands sent since the driver was last Idle. */
  function Sent(c: bool, run: seq<Step>): seq<Command> {
    if run == [] || After(Loaded(c), run).state == Idle then [] else
    var before := run[..|run| - 1];
    Sent(c, before) + if run[|run| - 1] == WorkRuns then Commands(After(Loaded(c), before)) else []
  }

  /** The work ran in state s since the driver was last Idle. */
  predicate WorkedIn(c: bool, run: seq<Step>, s: FwState) {
    run != [] && After(Loaded(c), run).state != Idle &&
    var before := run[..|run| - 1];
    WorkedIn(c, before, s) || (run[|run| - 1] == WorkRuns && After(Loaded(c), before).state == s)
  }

  function Picked(c: bool, first: bool, second: bool, third: bool): seq<Command> {
    (if first then [HwSpecGet] else []) + (if second then [HwSpecSet] else [])
      + if third then [if c then Commissioning else SetKey] else []
  }

  /** On the way to Start the work has run in a state exactly when it is no longer queued there. */
  ghost predicate OnTheWay(d: Driver, first: bool, second: bool, third: bool, sent: seq<Command>) {
    match d.state
    case GetHwSpec => first == !d.queued && !second && !third && sent == Picked(d.commissioning, first, second, third)
    case Init => second == !d.queued && !third && sent == Picked(d.commissioning, first, second, third)
    case Auth => !d.commissioning && third == !d.queued && sent == Picked(d.commissioning, first, second, third)
    case Commission => d.commissioning && third == !d.queued && sent == Picked(d.commissioning, first, second, third)
    case Start => d.queued ==> sent == Picked(d.commissioning, first, second, third)
    case Idle => !first && !second && !third && sent == []
    case ZbState => true
  }

  /** The driver, and what has been done on the way, one step on. */
  ghost predicate OnTheWayAfter(
      d: Driver, s: Step, first: bool, second: bool, third: bool, sent: seq<Command>) {
    var e := Next(d, s);
    var ran := s == WorkRuns;
    if e.state == Idle then OnTheWay(e, false, false, false, [])
    else OnTheWay(e, first || (ran && d.state == GetHwSpec), second || (ran && d.state == Init),
      third || (ran && d.state == Third(d.commissioning)), sent + if ran then Commands(d) else [])
  }

  lemma OnTheWayNext(d: Driver, s: Step, first: bool, second: bool, third: bool, sent: seq<Command>)
    requires Invariant(d) && Possible(d, s) && OnTheWay(d, first, second, third, sent)
    ensures OnTheWayAfter(d, s, first, second, third, sent)
  {
    hide OnTheWayAfter, OnTheWay;
    match s {
      case Frame(m) => FrameOnTheWay(d, m, first, second, third, sent);
      case TimerExpires => TimerOnTheWay(d, first, second, third, sent);
      case WorkRuns => WorkOnTheWay(d, first, second, third, sent);
    }
  }

  lemma FrameOnTheWay(d: Driver, m: Message, first: bool, second: bool, third: bool, sent: seq<Command>)
    requires Invariant(d) && Possible(d, Frame(m)) && OnTheWay(d, first, second, third, sent)
    ensures OnTheWayAfter(d, Frame(m), first, second, third, sent)
  {
    hide OnTheWay, Next, Picked, Invariant;
    assert sent + [] == sent;
    var n := Next(d, Frame(m));
    FrameMoves(d, m);
    NextKeeps(d, Frame(m));
    if n.state == Idle {
      IdleOnTheWay(n);
    } else if n.state == d.state {
      StaysOnTheWay(d, n, first, second, third, sent);
    } else {
      ChainOnTheWay(d, n, first, second, third, sent);
    }
  }

  lemma FrameMoves(d: Driver, m: Message)
    requires Invariant(d)
    ensures var n := Next(d, Frame(m));
      || n.state in {Idle, ZbState} || (n.state == d.state && n.queued == d.queued)
      || (Chained(d.commissioning, d.state, n.state) && n.queued)
  {
    hide Fires, EventOf, Invariant, Chained;
    var e := EventOf(d.commissioning, m);
    if e.Some? { FiresMoves(if m == FwReady then d.(initDone := false) else d, e.value); }
  }

  lemma IdleOnTheWay(n: Driver)
    requires n.state == Idle
    ensures OnTheWay(n, false, false, false, [])
  {}

  lemma StaysOnTheWay(d: Driver, n: Driver, first: bool, second: bool, third: bool, sent: seq<Command>)
    requires OnTheWay(d, first, second, third, sent) && n.state == d.state && n.commissioning == d.commissioning
    requires n.state == ZbState || n.queued == d.queued
    ensures OnTheWay(n, first, second, third, sent)
  {
    hide Picked;
  }

  lemma ChainOnTheWay(d: Driver, n: Driver, first: bool, second: bool, third: bool, sent: seq<Command>)
    requires OnTheWay(d, first, second, third, sent) && Invariant(n) && n.commissioning == d.commissioning
    requires n.state == ZbState || (Chained(d.commissioning, d.state, n.state) && n.queued)
    ensures OnTheWay(n, first, second, third, sent)
  {
    PickedNext(d.commissioning, first, second);
    hide Picked;
  }

  lemma TimerOnTheWay(d: Driver, first: bool, second: bool, third: bool, sent: seq<Command>)
    requires Invariant(d) && Possible(d, TimerExpires) && OnTheWay(d, first, second, third, sent)
    ensures OnTheWayAfter(d, TimerExpires, first, second, third, sent)
  {
    assert sent + [] == sent;
    hide Picked;
  }

  lemma WorkOnTheWay(d: Driver, first: bool, second: bool, third: bool, sent: seq<Command>)
    requires Invariant(d) && Possible(d, WorkRuns) && OnTheWay(d, first, second, third, sent)
    ensures OnTheWayAfter(d, WorkRuns, first, second, third, sent)
  {
    PickedNext(d.commissioning, first, second);
    assert sent + [] == sent;
    hide Picked;
  }

  lemma PickedNext(c: bool, first: bool, second: bool)
    ensures Picked(c, false, false, false) == []
    ensures Picked(c, false, false, false) + [HwSpecGet] == Picked(c, true, false, false)
    ensures Picked(c, first, false, false) + [HwSpecSet] == Picked(c, first, true, false)
    ensures Picked(c, first, second, false) + [if c then Commissioning else SetKey] == Picked(c, first, second, true)
  {}

  lemma {:induction false} SentOnTheWay(c: bool, run: seq<Step>)
    requires Feasible(Loaded(c), run)
    ensures OnTheWay(After(Loaded(c), run), WorkedIn(c, run, GetHwSpec), WorkedIn(c, run, Init),
      WorkedIn(c, run, Third(c)), Sent(c, run))
  {
    if run != [] {
      hide OnTheWay, Next, Possible, Invariant, Commands;
      var before := run[..|run| - 1];
      SentOnTheWay(c, before);
      Reachable(c, before);
      OnTheWayNext(After(Loaded(c), before), run[|run| - 1], WorkedIn(c, before, GetHwSpec),
        WorkedIn(c, before, Init), WorkedIn(c, before, Third(c)), Sent(c, before));
    } else {
      assert After(Loaded(c), run) == Loaded(c);
    }
  }

  /**
    The bring-up that is about to be announced has sent its three commands, once each and in
    order, just when the work ran in each of its states; where the confirmation came first,
    that command was never sent.
   */
  lemma AllSentIff(c: bool, run: seq<Step>)
    requires Feasible(Loaded(c), run + [WorkRuns]) && Announces(After(Loaded(c), run))
    ensures Sent(c, run) == Picked(c, true, true, true) <==>
      WorkedIn(c, run, GetHwSpec) && WorkedIn(c, run, Init) && WorkedIn(c, run, Third(c))
    ensures Sent(c, run) ==
      Picked(c, WorkedIn(c, run, GetHwSpec), WorkedIn(c, run, Init), WorkedIn(c, run, Third(c)))
  {
    AfterOneMore(Loaded(c), run, WorkRuns);
    Reachable(c, run);
    SentOnTheWay(c, run);
  }

  // ------------------------------------------------------------ association indications

  /** The steps up to and including the next execution of the work. */
  predicate UntilWork(run: seq<Step>) {
    run != [] && run[|run| - 1] == WorkRuns && WorkRuns !in run[..|run| - 1]
  }

  ghost predicate AlwaysAnswered(d: Driver) {
    forall run | UntilWork(run) && Feasible(d, run) ::
      Commands(After(d, run[..|run| - 1])) == [AssociateResponse]
  }

  lemma {:induction false} WaitsForWork(d: Driver, run: seq<Step>)
    requires Invariant(d) && d.state == ZbState && !d.armed && Feasible(d, run) && WorkRuns !in run
    ensures var e := After(d, run); e.state == ZbState && !e.armed && e.zbEvent == ZbUnassocEvnt
  {
    if run != [] { WaitsForWork(d, run[..|run| - 1]); }
  }

  /**
    An association indication is sure of its response just when no timer is running: a timer left
    from a bring-up, finished or not, can drop it, and the work then triggers the firmware anew.
   */
  lemma AnsweredIff(c: bool, run: seq<Step>)
    requires Feasible(Loaded(c), run)
    ensures AlwaysAnswered(After(Loaded(c), run + [Frame(AssociateIndication)])) <==> !After(Loaded(c), run).armed
  {
    hide After, Feasible, AlwaysAnswered;
    var d, ask := After(Loaded(c), run), Frame(AssociateIndication);
    AfterOneMore(Loaded(c), run, ask);
    Reachable(c, run);
    NextKeeps(d, ask);
    AnsweredFrom(Next(d, ask));
  }

  lemma AnsweredFrom(d: Driver)
    requires Invariant(d) && d.state == ZbState
    ensures AlwaysAnswered(d) <==> !d.armed
  {
    if d.armed {
      DroppedByTimer(d);
    } else {
      forall r | UntilWork(r) && Feasible(d, r)
        ensures Commands(After(d, r[..|r| - 1])) == [AssociateResponse]
      {
        WaitsForWork(d, r[..|r| - 1]);
      }
    }
  }

  lemma DroppedByTimer(d: Driver)
    requires Invariant(d) && d.state == ZbState && d.armed
    ensures !AlwaysAnswered(d)
  {
    hide After, Feasible;
    var dropped := [TimerExpires] + [WorkRuns];
    EmptyRun(d);
    AfterOneMore(d, [], TimerExpires);
    assert [] + [TimerExpires] == [TimerExpires];
    AfterOneMore(d, [TimerExpires], WorkRuns);
    assert dropped[..|dropped| - 1] == [TimerExpires];
    assert UntilWork(dropped) && Commands(After(d, [TimerExpires])) == [TriggerEvent];
  }

  // ------------------------------------------------------------ the handlers

  const CMD_HDR_LEN: nat := 4

  class Ghdd {
    /** Whether COMMISSIONING is defined. */
    const commissioning: bool
    var fwState: FwState
    var fwZbevent: FwEvent
    var fwCfgDone: bool
    var ghddInitDone: bool
    var timerArmed: bool
    var workQueued: bool

    function Now(): Driver
      reads this
    {
      Driver(commissioning, fwState, fwZbevent, fwCfgDone, ghddInitDone, timerArmed, workQueued)
    }

    constructor (commissioning: bool)
      ensures Now() == Loaded(commissioning)
    {
      this.commissioning := commissioning;
      fwState, fwZbevent := Idle, ZbIdleEvnt;
      fwCfgDone, ghddInitDone := false, false;
      timerArmed, workQueued := false, true;
    }

    // one method for each case of the state switch

    method OnIdle(event: FwEvent) returns (taken: bool)
      requires fwState == Idle
      modifies this
      ensures taken == Accepts(old(Now()), event) && Now() == Fires(old(Now()), event)
    {
      match event {
        case InitEvtRxed =>
          fwState := GetHwSpec;
          timerArmed := true;
          workQueued := true;
        case CmdTimeout =>
          fwState := Idle;
        case ZbUnassocEvnt =>
          fwState := ZbState;
          fwZbevent := ZbUnassocEvnt;
          workQueued := true;
        case _ =>
          return false;
      }
      return true;
    }

    method OnInit(event: FwEvent) returns (taken: bool)
      requires fwState == Init
      modifies this
      ensures taken == Accepts(old(Now()), event) && Now() == Fires(old(Now()), event)
    {
      match event {
        case HwspecCnfRxed =>
          fwState := if commissioning then Commission else Auth;
          workQueued := true;
        case CmdTimeout =>
          fwState := Idle;
        case ZbUnassocEvnt =>
          fwState := ZbState;
          fwZbevent := ZbUnassocEvnt;
          workQueued := true;
        case _ =>
          return false;
      }
      return true;
    }

    method OnGetHwSpec(event: FwEvent) returns (taken: bool)
      requires fwState == GetHwSpec
      modifies this
      ensures taken == Accepts(old(Now()), event) && Now() == Fires(old(Now()), event)
    {
      match event {
        case HwspecCnfRxed =>
          fwState := Init;
          timerArmed := true;
          workQueued := true;
        case CmdTimeout =>
          fwState := Idle;
        case ZbUnassocEvnt =>
          fwState := ZbState;
          fwZbevent := ZbUnassocEvnt;
          workQueued := true;
        case _ =>
          return false;
      }
      return true;
    }

    method OnCommission(event: FwEvent) returns (taken: bool)
      requires fwState == Commission
      modifies this
      ensures taken == Accepts(old(Now()), event) && Now() == Fires(old(Now()), event)
    {
      if !commissioning {
        return false;
      }
      match event {
        case CommissioningCnfRxed =>
          timerArmed := true;
          fwState := Start;
          fwCfgDone := true;
          workQueued := true;
        case CmdTimeout =>
          fwState := Idle;
        case ZbUnassocEvnt =>
          fwState := ZbState;
          fwZbevent := ZbUnassocEvnt;
          workQueued := true;
        case _ =>
          return false;
      }
      return true;
    }

    method OnAuth(event: FwEvent) returns (taken: bool)
      requires fwState == Auth
      modifies this
      ensures taken == Accepts(old(Now()), event) && Now() == Fires(old(Now()), event)
    {
      match event {
        case SetKeyCnf =>
          fwState := Start;
          fwCfgDone := true;
          workQueued := true;
        case CmdTimeout =>
          fwState := Idle;
        case ZbUnassocEvnt =>
          fwState := ZbState;
          fwZbevent := ZbUnassocEvnt;
          workQueued := true;
        case _ =>
          return false;
      }
      return true;
    }

    method OnStart(event: FwEvent) returns (taken: bool)
      requires fwState == Start
      modifies this
      ensures taken == Accepts(old(Now()), event) && Now() == Fires(old(Now()), event)
    {
      match event {
        case StaStartCnfRxed =>
          fwState := Idle;
        case CmdTimeout =>
          fwState := Idle;
        case ZbUnassocEvnt =>
          fwState := ZbState;
          fwZbevent := ZbUnassocEvnt;
          workQueued := true;
        case _ =>
          return false;
      }
      return true;
    }

    method OnZbState(event: FwEvent) returns (taken: bool)
      requires fwState == ZbState
      modifies this
      ensures taken == Accepts(old(Now()), event) && Now() == Fires(old(Now()), event)
    {
      match event {
        case ZbUnassocEvnt =>
          fwState := ZbState;
          fwZbevent := ZbUnassocEvnt;
          workQueued := true;
        case CmdTimeout =>
          fwState := Idle;
        case _ =>
      }
      return true;
    }

    /** ghdd_fw_state_machine */
    method FwStateMachine(event: FwEvent) returns (taken: bool)
      modifies this
      ensures taken == Accepts(old(Now()), event) && Now() == Fires(old(Now()), event)
    {
      hide Accepts, Fires;
      match fwState {
        case Idle => taken := OnIdle(event);
        case Init => taken := OnInit(event);
        case GetHwSpec => taken := OnGetHwSpec(event);
        case Commission => taken := OnCommission(event);
        case Auth => taken := OnAuth(event);
        case Start => taken := OnStart(event);
        case ZbState => taken := OnZbState(event);
      }
    }

    /**
      ghdd_event_handler; the length check is made in unsigned arithmetic, so a frame shorter
      than its header passes it.
     */
    method EventHandler(msg: Message, cmdLen: nat, datalen: nat) returns (refused: bool)
      modifies this
      ensures refused == (datalen >= 4 && cmdLen > datalen - 4)
      ensures Now() == if refused then old(Now()) else Next(old(Now()), Frame(msg))
    {
      if datalen >= CMD_HDR_LEN && cmdLen > datalen - CMD_HDR_LEN {
        return true;
      }
      var taken: bool;
      match msg {
        case SetKeyConfirm => taken := FwStateMachine(SetKeyCnf);
        case StaRestartConfirm => taken := FwStateMachine(StaStartCnfRxed);
        case HardwareSpecConfirm => taken := FwStateMachine(HwspecCnfRxed);
        case CommissioningConfirm =>
          if commissioning {
            taken := FwStateMachine(CommissioningCnfRxed);
          }
        case FwReady =>
          ghddInitDone := false;
          taken := FwStateMachine(InitEvtRxed);
        case AssociateIndication => taken := FwStateMachine(ZbUnassocEvnt);
        case OtherMessage =>
      }
      return false;
    }

    /** ghdd_timeout_handler; the kernel has disarmed the timer. */
    method TimeoutHandler()
      requires timerArmed
      modifies this
      ensures Now() == Next(old(Now()), TimerExpires)
    {
      timerArmed := false;
      var taken := FwStateMachine(CmdTimeout);
    }

    /** ghdd_gvcmd_send; the kernel has taken the work off its queue. */
    method GvcmdSend() returns (sent: seq<Command>)
      requires workQueued
      modifies this
      ensures Now() == Next(old(Now()), WorkRuns) && sent == Commands(old(Now()))
    {
      workQueued := false;
      sent := [];
      if fwState == Idle {
        sent := sent + [TriggerEvent];
      } else if fwState == GetHwSpec {
        sent := sent + [HwSpecGet];
      } else if fwState == Init {
        sent := sent + [HwSpecSet];
      } else if fwState == Auth {
        sent := sent + [SetKey];
      } else if commissioning && fwState == Commission {
        sent := sent + [Commissioning];
      } else if fwState == Start {
        sent := sent + [StartNetwork];
        if fwCfgDone {
          ghddInitDone := true;
          sent := sent + [CapabilityInfo(ghddInitDone)];
          fwCfgDone := false;
        }
      } else if fwState == ZbState {
        fwState := Idle;
        if fwZbevent == ZbUnassocEvnt {
          sent := sent + [AssociateResponse];
        }
      }
    }
  }
}
