/** The balloon queue of SupportContainer: messages arrive, a 5-second show timer
    takes one at a time, the user interface shows it and starts a 4-second hide
    timer, whose tick restarts the show timer when messages are left.
    Each timer tick runs on its own thread and is split into its atomic steps;
    messages stay enabled throughout. */
module BalloonQueue {
  import opened Wrappers
  import Runs

  type Message = nat

  datatype ShowTick = NoShow | ShowFired | ShowStopped | Took(m: Message)

  datatype HideTick = NoHide | HideFired | HideStopped | HideTested

  datatype State = State(
    pending: seq<Message>, showActive: bool, hideActive: bool, showTick: ShowTick, hideTick: HideTick,
    queued: seq<Message>, shown: seq<Message>, arrived: seq<Message>, crashed: bool)

  const INITIAL := State([], false, false, NoShow, NoHide, [], [], [], false)

  datatype Event =
    | Arrive(m: Message)
    | FireShow
    | StopShow
    | TakePending
    | PostShow
    | ShowOnScreen
    | FireHide
    | StopHide
    | TestPending
    | StartShow

  function Next(s: State, ev: Event): Option<State> {
    match ev
    case Arrive(m) =>
      Some(s.(pending := s.pending + [m], arrived := s.arrived + [m],
              showActive := s.showActive || |s.pending + [m]| == 1))
    case FireShow =>
      if s.showActive && s.showTick.NoShow? then Some(s.(showTick := ShowFired)) else None
    case StopShow =>
      if s.showTick.ShowFired? then Some(s.(showTick := ShowStopped, showActive := false)) else None
    case TakePending =>
      if !s.showTick.ShowStopped? then None
      else if s.pending == [] then Some(s.(showTick := NoShow, crashed := true))
      else Some(s.(showTick := Took(s.pending[0]), pending := s.pending[1..]))
    case PostShow =>
      if s.showTick.Took? then Some(s.(showTick := NoShow, queued := s.queued + [s.showTick.m])) else None
    case ShowOnScreen =>
      if s.queued == [] then None
      else Some(s.(queued := s.queued[1..], shown := s.shown + [s.queued[0]], hideActive := true))
    case FireHide =>
      if s.hideActive && s.hideTick.NoHide? then Some(s.(hideTick := HideFired)) else None
    case StopHide =>
      if s.hideTick.HideFired? then Some(s.(hideTick := HideStopped, hideActive := false)) else None
    case TestPending =>
      if !s.hideTick.HideStopped? then None
      else Some(s.(hideTick := if |s.pending| > 0 then HideTested else NoHide))
    case StartShow =>
      if s.hideTick.HideTested? then Some(s.(hideTick := NoHide, showActive := true)) else None
  }

  function Exec(s: State, run: seq<Event>): Option<State> {
    Runs.Exec(Next, s, run)
  }

  function InHand(s: State): seq<Message> {
    if s.showTick.Took? then [s.showTick.m] else []
  }

  /** Something will look at the queue again. */
  predicate Awake(s: State) {
    s.showActive || !s.showTick.NoShow? || s.queued != [] || s.hideActive || !s.hideTick.NoHide?
  }

  function OnTheWay(s: State): seq<Message> {
    s.shown + s.queued + InHand(s) + s.pending
  }

  ghost predicate Inv(s: State) {
    && (s.pending != [] ==> Awake(s))
    && s.arrived == OnTheWay(s)
  }

  /** Moving the boundary between two neighbours changes nothing. */
  lemma Regrouped(a: seq<Message>, x: seq<Message>, b: seq<Message>)
    ensures a + (x + b) == (a + x) + b
  {
  }

  lemma StepKeepsOrder(s: State, ev: Event)
    requires Next(s, ev).Some?
    ensures OnTheWay(Next(s, ev).value) == OnTheWay(s) + if ev.Arrive? then [ev.m] else []
  {
    var s' := Next(s, ev).value;
    var front := s.shown + s.queued;
    if ev.Arrive? {
      Regrouped(front + InHand(s), s.pending, [ev.m]);
    } else {
      assert OnTheWay(s) + [] == OnTheWay(s);
      if ev.TakePending? && s.pending != [] {
        assert s.pending == InHand(s') + s'.pending && front + [] == front;
        Regrouped(front, InHand(s'), s'.pending);
      } else if ev.PostShow? {
        Regrouped(s.shown, s.queued, InHand(s));
        assert s'.shown + s'.queued + [] == s'.shown + s'.queued;
      } else if ev.ShowOnScreen? {
        assert s.queued == [s.queued[0]] + s'.queued;
        Regrouped(s.shown, [s.queued[0]], s'.queued);
      }
    }
  }

  lemma StepKeepsInv(s: State, ev: Event)
    requires Inv(s) && Next(s, ev).Some?
    ensures Inv(Next(s, ev).value)
  {
    hide OnTheWay;
    StepKeepsOrder(s, ev);
    assert ev.Arrive? || s.arrived + [] == s.arrived;
    assert ev.Arrive? || OnTheWay(s) + [] == OnTheWay(s);
  }

  lemma ReachableInv(run: seq<Event>)
    requires Exec(INITIAL, run).Some?
    ensures Inv(Exec(INITIAL, run).value)
  {
    forall s: State, ev: Event | Inv(s) && Next(s, ev).Some? ensures Inv(Next(s, ev).value) {
      StepKeepsInv(s, ev);
    }
    Runs.RunKeeps(Next, Inv, INITIAL, run);
  }

  /** No wake-up is lost, in any interleaving: while a message waits, a timer is
      running, a tick is in progress or a show is queued. */
  lemma NoLostWakeUp(run: seq<Event>)
    requires Exec(INITIAL, run).Some? && Exec(INITIAL, run).value.pending != []
    ensures Awake(Exec(INITIAL, run).value)
  {
    ReachableInv(run);
  }

  /** Messages are shown in arrival order, each at most once, and none is lost on
      the way: the shown ones, those on their way to the screen and the waiting
      ones make up the arrivals. */
  lemma ShownInArrivalOrder(run: seq<Event>)
    requires Exec(INITIAL, run).Some?
    ensures var s := Exec(INITIAL, run).value;
            s.shown <= s.arrived && s.arrived == s.shown + s.queued + InHand(s) + s.pending
  {
    ReachableInv(run);
  }

  /** Once nothing is going on any more, every message has been shown. */
  lemma QuietMeansAllShown(run: seq<Event>)
    requires Exec(INITIAL, run).Some? && !Awake(Exec(INITIAL, run).value)
    ensures Exec(INITIAL, run).value.shown == Exec(INITIAL, run).value.arrived
  {
    ReachableInv(run);
    var s := Exec(INITIAL, run).value;
    assert s.shown + [] + [] + [] == s.shown;
  }

  // ----- a timer fires at most once for each start

  predicate StartsShow(s: State, ev: Event) {
    ev == StartShow || (ev.Arrive? && s.pending == [])
  }

  /** How often the show timer is started: by the hide tick, and by an arrival
      that finds the queue empty. */
  function ShowStarts(s: State, run: seq<Event>): nat
    requires Exec(s, run).Some?
    decreases run
  {
    if run == [] then 0
    else (if StartsShow(s, run[0]) then 1 else 0) + ShowStarts(Next(s, run[0]).value, run[1..])
  }

  /** Whether the timer may fire again without another start. */
  function ShowDue(s: State): nat {
    if s.showActive && !s.showTick.ShowFired? then 1 else 0
  }

  function HideDue(s: State): nat {
    if s.hideActive && !s.hideTick.HideFired? then 1 else 0
  }

  lemma DueStep(s: State, ev: Event)
    requires Next(s, ev).Some?
    ensures (if ev == FireShow then 1 else 0) + ShowDue(Next(s, ev).value) <= ShowDue(s) + if StartsShow(s, ev) then 1 else 0
    ensures (if ev == FireHide then 1 else 0) + HideDue(Next(s, ev).value) <= HideDue(s) + if ev == ShowOnScreen then 1 else 0
  {
  }

  /** The show timer fires no more often than it is started, and the hide timer no
      more often than a balloon is shown: each tick stops its own timer. */
  lemma {:induction false} TimersFireOncePerStart(s: State, run: seq<Event>)
    requires Exec(s, run).Some?
    ensures multiset(run)[FireShow] + ShowDue(Exec(s, run).value) <= ShowDue(s) + ShowStarts(s, run)
    ensures multiset(run)[FireHide] + HideDue(Exec(s, run).value) <= HideDue(s) + multiset(run)[ShowOnScreen]
    decreases run
  {
    hide Next, ShowDue, HideDue, StartsShow;
    if run == [] {
    } else {
      assert run == [run[0]] + run[1..];
      DueStep(s, run[0]);
      TimersFireOncePerStart(Next(s, run[0]).value, run[1..]);
    }
  }

  // ----- the show timer on an empty queue

  /** How many messages are left once a take in progress is done. */
  function Remaining(s: State): int {
    |s.pending| - if s.showTick.ShowStopped? then 1 else 0
  }

  /** The hide tick tests the queue and starts the timer in two steps, and a show
      tick stops its timer and takes its message in two steps. A start is careful
      when a message will still be there afterwards. */
  predicate Careful(s: State, ev: Event) {
    ev.StartShow? ==> Remaining(s) > 0
  }

  ghost predicate AllCareful(s: State, run: seq<Event>)
    requires Exec(s, run).Some?
  {
    Runs.Allowed(Next, Careful, s, run)
  }

  ghost predicate TimerHasWork(s: State) {
    && !s.crashed
    && (s.showActive ==> Remaining(s) > 0)
    && (s.showTick.ShowFired? || s.showTick.ShowStopped? ==> s.pending != [])
  }

  lemma CarefulStepKeepsWork(s: State, ev: Event)
    requires TimerHasWork(s) && Careful(s, ev) && Next(s, ev).Some?
    ensures TimerHasWork(Next(s, ev).value)
  {
  }

  lemma CarefulRunsKeepWork(run: seq<Event>)
    requires Exec(INITIAL, run).Some? && AllCareful(INITIAL, run)
    ensures TimerHasWork(Exec(INITIAL, run).value)
  {
    forall s: State, ev: Event | TimerHasWork(s) && Careful(s, ev) && Next(s, ev).Some?
      ensures TimerHasWork(Next(s, ev).value)
    {
      CarefulStepKeepsWork(s, ev);
    }
    Runs.AllowedRunKeeps(Next, Careful, TimerHasWork, INITIAL, run);
  }

  /** In a run whose restarts are all careful, the show timer never fires on an
      empty queue. */
  lemma CarefulRunsNeverCrash(run: seq<Event>)
    requires Exec(INITIAL, run).Some? && AllCareful(INITIAL, run)
    ensures !Exec(INITIAL, run).value.crashed
    ensures Exec(INITIAL, run).value.showActive ==> Exec(INITIAL, run).value.pending != []
  {
    CarefulRunsKeepWork(run);
  }

  /** A tick starts only while the other timer's tick is not in progress. */
  predicate Apart(s: State, ev: Event) {
    (ev == FireShow ==> s.hideTick.NoHide?) && (ev == FireHide ==> s.showTick.NoShow?)
  }

  ghost predicate AllApart(s: State, run: seq<Event>)
    requires Exec(s, run).Some?
  {
    Runs.Allowed(Next, Apart, s, run)
  }

  ghost predicate TicksApart(s: State) {
    && TimerHasWork(s)
    && (!s.hideTick.NoHide? ==> s.showTick.NoShow?)
    && (s.hideTick.HideTested? ==> s.pending != [])
  }

  lemma ApartStep(s: State, ev: Event)
    requires TicksApart(s) && Apart(s, ev) && Next(s, ev).Some?
    ensures Careful(s, ev) && TicksApart(Next(s, ev).value)
  {
  }

  /** The crash needs two ticks that overlap: when they never do, every restart is
      careful, because the message that the hide tick saw is still there. */
  lemma {:induction false} ApartRunsAreCareful(s: State, run: seq<Event>)
    requires TicksApart(s) && Exec(s, run).Some? && AllApart(s, run)
    ensures AllCareful(s, run)
    decreases run
  {
    hide Next, TicksApart, Careful, Apart;
    if run == [] {
    } else {
      ApartStep(s, run[0]);
      ApartRunsAreCareful(Next(s, run[0]).value, run[1..]);
    }
  }

  lemma ApartTicksNeverCrash(run: seq<Event>)
    requires Exec(INITIAL, run).Some? && AllApart(INITIAL, run)
    ensures !Exec(INITIAL, run).value.crashed
  {
    ApartRunsAreCareful(INITIAL, run);
    CarefulRunsNeverCrash(run);
  }

  /** A single careless restart is enough: from there the timer can fire on the
      empty queue without any further arrival. */
  lemma CarelessStartCanCrash(s: State) returns (rest: seq<Event>)
    requires TimerHasWork(s) && s.hideTick.HideTested? && !Careful(s, StartShow)
    ensures Exec(s, rest).Some? && Exec(s, rest).value.crashed
    ensures rest != [] && rest[0] == StartShow && forall i :: 0 <= i < |rest| ==> !rest[i].Arrive?
  {
    var s', run := s, [];
    run, s' := Runs.Extend(Next, s, run, s', StartShow);
    if s'.showTick.ShowStopped? {
      run, s' := Runs.Extend(Next, s, run, s', TakePending);
    }
    if s'.showTick.Took? {
      run, s' := Runs.Extend(Next, s, run, s', PostShow);
    }
    run, s' := Runs.Extend(Next, s, run, s', FireShow);
    run, s' := Runs.Extend(Next, s, run, s', StopShow);
    run, s' := Runs.Extend(Next, s, run, s', TakePending);
    rest := run;
  }

  /** Such a restart is reachable: the hide tick sees the second message, the
      show tick takes it, and only then does the hide tick start the timer. */
  lemma CarelessStartReachable(a: Message, b: Message) returns (run: seq<Event>)
    ensures Exec(INITIAL, run).Some?
    ensures var s := Exec(INITIAL, run).value;
            TimerHasWork(s) && s.hideTick.HideTested? && !Careful(s, StartShow)
  {
    var s := INITIAL;
    run := [];
    run, s := Runs.Extend(Next, INITIAL, run, s, Arrive(a));
    run, s := Runs.Extend(Next, INITIAL, run, s, FireShow);
    run, s := Runs.Extend(Next, INITIAL, run, s, StopShow);
    run, s := Runs.Extend(Next, INITIAL, run, s, TakePending);
    run, s := Runs.Extend(Next, INITIAL, run, s, PostShow);
    run, s := Runs.Extend(Next, INITIAL, run, s, ShowOnScreen);
    run, s := Runs.Extend(Next, INITIAL, run, s, Arrive(b));
    run, s := Runs.Extend(Next, INITIAL, run, s, FireHide);
    run, s := Runs.Extend(Next, INITIAL, run, s, StopHide);
    run, s := Runs.Extend(Next, INITIAL, run, s, TestPending);
    run, s := Runs.Extend(Next, INITIAL, run, s, FireShow);
    run, s := Runs.Extend(Next, INITIAL, run, s, StopShow);
    run, s := Runs.Extend(Next, INITIAL, run, s, TakePending);
  }
}
