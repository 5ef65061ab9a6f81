/** LiteClient.Send: a blocking call made out of an asynchronous native callback,
    one lock (sync), one shared ManualResetEvent (e) and the set of queries.
    Callers, native callbacks, disconnects and disposal interleave freely; each
    event below is one atomic step of one of them. */
module LiteClientCalls {
  import opened Wrappers
  import Runs

  type Tid = nat
  type Qid = nat

  datatype Reply = Reply(result: int, failed: bool)

  /** Query.OnResult: an error stores the handle -1. */
  function HandleOf(r: Reply): int {
    if r.failed then -1 else r.result
  }

  /** Life of a query: added to the set, handed to the native library, result
      stored by OnResult, event set (blocking calls only), handlers finished. */
  datatype Phase = Registered | InFlight | Stored | Signalled | Finished

  /** epoch and sentAt count the clearings of the set before the query was added
      and before it was handed to the native library. */
  datatype Query = Query(
    phase: Phase, caller: Option<Tid>, tracked: bool, epoch: nat, sentAt: Option<nat>, reply: Option<Reply>, handle: int)

  /** Where a thread is in Send. */
  datatype Pc =
    | Idle
    | Locked(q: Qid)
    | Checked(q: Qid)
    | Cleared(q: Qid)
    | Sending(q: Qid)
    | Waiting(q: Qid)
    | Woken(q: Qid)
    | Returned(q: Qid, res: int)

  /** epoch counts how often the set of queries was cleared. */
  datatype State = State(
    owner: Option<Tid>, event: bool, created: bool, disposed: bool,
    queries: set<Qid>, epoch: nat, qs: map<Qid, Query>, pcs: map<Tid, Pc>, used: set<Qid>)

  datatype Event =
    | CallSend(t: Tid, q: Qid)
    | CheckHandle(t: Tid)
    | ResetEvent(t: Tid)
    | Register(t: Tid)
    | NativeSend(t: Tid)
    | Wake(t: Tid)
    | Return(t: Tid)
    | AsyncRegister(q: Qid)
    | AsyncNativeSend(q: Qid)
    | Callback(q: Qid, reply: Reply)
    | SetEvent(q: Qid)
    | FinishHandlers(q: Qid)
    | Disconnect
    | Start
    | Dispose
    | Stop

  function PcOf(s: State, t: Tid): Pc {
    if t in s.pcs then s.pcs[t] else Idle
  }

  const INITIAL := State(None, false, false, false, {}, 0, map[], map[], {})

  const DISPOSED_REPLY := Reply(-1, true)

  /** SendAsync up to the native call: a disposed client answers at once and
      neither tracks the query nor sends it. */
  function NewQuery(s: State, caller: Option<Tid>): Query {
    if s.disposed then Query(Stored, caller, false, s.epoch, None, Some(DISPOSED_REPLY), HandleOf(DISPOSED_REPLY))
    else Query(Registered, caller, true, s.epoch, None, None, 0)
  }

  function Next(s: State, ev: Event): Option<State> {
    match ev
    case CallSend(t, q) =>
      if s.owner == None && (PcOf(s, t).Idle? || PcOf(s, t).Returned?) && q !in s.used
      then Some(s.(owner := Some(t), pcs := s.pcs[t := Locked(q)], used := s.used + {q}))
      else None
    case CheckHandle(t) =>
      if !PcOf(s, t).Locked? then None
      else if s.created then Some(s.(pcs := s.pcs[t := Checked(s.pcs[t].q)]))
      else Some(s.(owner := None, pcs := s.pcs[t := Returned(s.pcs[t].q, 0)]))
    case ResetEvent(t) =>
      if !PcOf(s, t).Checked? then None
      else Some(s.(event := false, pcs := s.pcs[t := Cleared(s.pcs[t].q)]))
    case Register(t) =>
      if !PcOf(s, t).Cleared? then None
      else
        var q := s.pcs[t].q;
        Some(s.(queries := if s.disposed then s.queries else s.queries + {q},
                qs := s.qs[q := NewQuery(s, Some(t))],
                pcs := s.pcs[t := if s.disposed then Waiting(q) else Sending(q)]))
    case NativeSend(t) =>
      if !PcOf(s, t).Sending? || s.pcs[t].q !in s.qs then None
      else
        var q := s.pcs[t].q;
        Some(s.(qs := s.qs[q := s.qs[q].(phase := InFlight, sentAt := Some(s.epoch))], pcs := s.pcs[t := Waiting(q)]))
    case Wake(t) =>
      if !PcOf(s, t).Waiting? || !s.event then None
      else Some(s.(pcs := s.pcs[t := Woken(s.pcs[t].q)]))
    case Return(t) =>
      if !PcOf(s, t).Woken? || s.pcs[t].q !in s.qs then None
      else Some(s.(owner := None, pcs := s.pcs[t := Returned(s.pcs[t].q, s.qs[s.pcs[t].q].handle)]))
    case AsyncRegister(q) =>
      if q in s.used then None
      else Some(s.(queries := if s.disposed then s.queries else s.queries + {q},
                   qs := s.qs[q := NewQuery(s, None)], used := s.used + {q}))
    case AsyncNativeSend(q) =>
      if q !in s.qs || s.qs[q].phase != Registered || s.qs[q].caller.Some? then None
      else Some(s.(qs := s.qs[q := s.qs[q].(phase := InFlight, sentAt := Some(s.epoch))]))
    case Callback(q, reply) =>
      if q !in s.qs || s.qs[q].phase != InFlight then None
      else Some(s.(qs := s.qs[q := s.qs[q].(phase := Stored, reply := Some(reply), handle := HandleOf(reply))]))
    case SetEvent(q) =>
      if q !in s.qs || s.qs[q].phase != Stored || s.qs[q].caller.None? then None
      else Some(s.(event := true, qs := s.qs[q := s.qs[q].(phase := Signalled)]))
    case FinishHandlers(q) =>
      if q !in s.qs || s.qs[q].phase != (if s.qs[q].caller.Some? then Signalled else Stored) then None
      else Some(s.(queries := if s.qs[q].tracked then s.queries - {q} else s.queries,
                   qs := s.qs[q := s.qs[q].(phase := Finished)]))
    case Disconnect => Some(s.(queries := {}, epoch := s.epoch + 1))
    case Start =>
      if s.owner == None && !s.created && !s.disposed then Some(s.(created := true)) else None
    case Dispose => Some(s.(disposed := true))
    case Stop =>
      if s.created then Some(s.(queries := {}, epoch := s.epoch + 1, created := false)) else None
  }

  function Exec(s: State, run: seq<Event>): Option<State> {
    Runs.Exec(Next, s, run)
  }

  // ----- the invariant

  predicate HoldsLock(pc: Pc) {
    !pc.Idle? && !pc.Returned?
  }

  predicate Answered(q: Query) {
    q.phase == Signalled || q.phase == Finished
  }

  ghost predicate ThreadOk(s: State, t: Tid) {
    var pc := PcOf(s, t);
    && (HoldsLock(pc) <==> s.owner == Some(t))
    && (!pc.Idle? ==> pc.q in s.used)
    && (pc.Locked? || pc.Checked? || pc.Cleared? ==> pc.q !in s.qs)
    && (pc.Cleared? ==> !s.event)
    && (pc.Sending? || pc.Waiting? || pc.Woken? ==> pc.q in s.qs && s.qs[pc.q].caller == Some(t))
    && (pc.Sending? ==> s.qs[pc.q].phase == Registered && !s.event)
    && (pc.Waiting? ==> s.qs[pc.q].phase != Registered && (s.event <==> Answered(s.qs[pc.q])))
    && (pc.Woken? ==> Answered(s.qs[pc.q]))
    && (pc.Returned? ==>
          if pc.q in s.qs then Answered(s.qs[pc.q]) && pc.res == s.qs[pc.q].handle else pc.res == 0)
  }

  ghost predicate QueryOk(s: State, q: Qid)
    requires q in s.qs
  {
    var x := s.qs[q];
    && q in s.used
    && (q in s.queries <==> x.tracked && x.phase != Finished && x.epoch == s.epoch)
    && (x.reply.Some? <==> x.phase != Registered && x.phase != InFlight)
    && (x.reply.Some? ==> x.handle == HandleOf(x.reply.value))
    && (x.caller.Some? && !Answered(x) ==> s.owner == x.caller)
    && (x.caller.Some? && x.phase == Registered ==> PcOf(s, x.caller.value) == Sending(q))
    && (x.caller.Some? && (x.phase == InFlight || x.phase == Stored) ==> PcOf(s, x.caller.value) == Waiting(q))
    && (x.caller.None? ==> x.phase != Signalled)
    && x.epoch <= s.epoch
    && (x.tracked && x.phase != Registered ==> x.sentAt.Some? && x.epoch <= x.sentAt.value <= s.epoch)
    && (!x.tracked ==> x.phase != Registered && x.phase != InFlight)
  }

  ghost predicate Inv(s: State) {
    && (forall t: Tid :: ThreadOk(s, t))
    && (forall q: Qid :: q in s.qs ==> QueryOk(s, q))
    && (forall t: Tid, u: Tid :: SeparateQueries(s, t, u))
    && s.queries <= s.qs.Keys
  }

  ghost predicate SeparateQueries(s: State, t: Tid, u: Tid) {
    t != u && !PcOf(s, t).Idle? && !PcOf(s, u).Idle? ==> PcOf(s, t).q != PcOf(s, u).q
  }

  lemma InitialInv()
    ensures Inv(INITIAL)
  {
  }

  /** Every step of every thread, native callback or shutdown keeps it. */
  lemma StepKeepsInv(s: State, ev: Event)
    requires Inv(s) && Next(s, ev).Some?
    ensures Inv(Next(s, ev).value)
  {
    var s' := Next(s, ev).value;
    forall t: Tid ensures ThreadOk(s', t) {
      assert ThreadOk(s, t);
      StepKeepsThread(s, ev, t);
    }
    forall q: Qid | q in s'.qs ensures QueryOk(s', q) {
      StepKeepsQuery(s, ev, q);
    }
    forall t: Tid, u: Tid ensures SeparateQueries(s', t, u) {
      StepKeepsSeparation(s, ev, t, u);
    }
  }

  lemma StepKeepsSeparation(s: State, ev: Event, t: Tid, u: Tid)
    requires Inv(s) && Next(s, ev).Some?
    ensures SeparateQueries(Next(s, ev).value, t, u)
  {
    assert SeparateQueries(s, t, u) && ThreadOk(s, t) && ThreadOk(s, u);
  }

  lemma StepKeepsThread(s: State, ev: Event, t: Tid)
    requires Inv(s) && Next(s, ev).Some?
    ensures ThreadOk(Next(s, ev).value, t)
  {
    assert ThreadOk(s, t);
    match ev
    case CallSend(u, _) => CallerStepKeepsThread(s, ev, t);
    case CheckHandle(u) => CallerStepKeepsThread(s, ev, t);
    case ResetEvent(u) => CallerStepKeepsThread(s, ev, t);
    case Register(u) => SendStepKeepsThread(s, ev, t);
    case NativeSend(u) => SendStepKeepsThread(s, ev, t);
    case Wake(u) => CallerStepKeepsThread(s, ev, t);
    case Return(u) => CallerStepKeepsThread(s, ev, t);
    case Callback(_, _) => AnswerStepKeepsThread(s, ev, t);
    case SetEvent(_) => AnswerStepKeepsThread(s, ev, t);
    case FinishHandlers(_) => AnswerStepKeepsThread(s, ev, t);
    case _ =>
  }

  lemma AnswerStepKeepsThread(s: State, ev: Event, t: Tid)
    requires ev.Callback? || ev.SetEvent? || ev.FinishHandlers?
    requires Inv(s) && Next(s, ev).Some?
    ensures ThreadOk(Next(s, ev).value, t)
  {
    assert ThreadOk(s, t) && QueryOk(s, ev.q);
  }

  lemma CallerStepKeepsThread(s: State, ev: Event, t: Tid)
    requires ev.CallSend? || ev.CheckHandle? || ev.ResetEvent? || ev.Wake? || ev.Return?
    requires Inv(s) && Next(s, ev).Some?
    ensures ThreadOk(Next(s, ev).value, t)
  {
    assert ThreadOk(s, t) && ThreadOk(s, ev.t);
  }

  lemma SendStepKeepsThread(s: State, ev: Event, t: Tid)
    requires ev.Register? || ev.NativeSend?
    requires Inv(s) && Next(s, ev).Some?
    ensures ThreadOk(Next(s, ev).value, t)
  {
    assert ThreadOk(s, t) && ThreadOk(s, ev.t) && SeparateQueries(s, t, ev.t);
  }

  lemma StepKeepsQuery(s: State, ev: Event, q: Qid)
    requires Inv(s) && Next(s, ev).Some? && q in Next(s, ev).value.qs
    ensures QueryOk(Next(s, ev).value, q)
  {
    match ev
    case CallSend(_, _) => CallerStepKeepsQuery(s, ev, q);
    case CheckHandle(_) => CallerStepKeepsQuery(s, ev, q);
    case ResetEvent(_) => CallerStepKeepsQuery(s, ev, q);
    case Wake(_) => CallerStepKeepsQuery(s, ev, q);
    case Return(_) => CallerStepKeepsQuery(s, ev, q);
    case Register(_) => SendStepKeepsQuery(s, ev, q);
    case NativeSend(_) => SendStepKeepsQuery(s, ev, q);
    case AsyncRegister(_) => SendStepKeepsQuery(s, ev, q);
    case AsyncNativeSend(_) => SendStepKeepsQuery(s, ev, q);
    case Callback(_, _) => AnswerStepKeepsQuery(s, ev, q);
    case SetEvent(_) => AnswerStepKeepsQuery(s, ev, q);
    case FinishHandlers(_) => AnswerStepKeepsQuery(s, ev, q);
    case _ =>
      assert QueryOk(s, q);
  }

  lemma AnswerStepKeepsQuery(s: State, ev: Event, q: Qid)
    requires ev.Callback? || ev.SetEvent? || ev.FinishHandlers?
    requires Inv(s) && Next(s, ev).Some? && q in s.qs
    ensures QueryOk(Next(s, ev).value, q)
  {
    assert QueryOk(s, q) && QueryOk(s, ev.q);
  }

  lemma CallerStepKeepsQuery(s: State, ev: Event, q: Qid)
    requires ev.CallSend? || ev.CheckHandle? || ev.ResetEvent? || ev.Wake? || ev.Return?
    requires Inv(s) && Next(s, ev).Some? && q in s.qs
    ensures QueryOk(Next(s, ev).value, q)
  {
    assert QueryOk(s, q) && ThreadOk(s, ev.t);
  }

  lemma SendStepKeepsQuery(s: State, ev: Event, q: Qid)
    requires ev.Register? || ev.NativeSend? || ev.AsyncRegister? || ev.AsyncNativeSend?
    requires Inv(s) && Next(s, ev).Some? && q in Next(s, ev).value.qs
    ensures QueryOk(Next(s, ev).value, q)
  {
    if ev.Register? || ev.NativeSend? {
      assert ThreadOk(s, ev.t);
    }
    if q in s.qs {
      assert QueryOk(s, q);
    }
  }

  lemma ReachableInv(run: seq<Event>)
    requires Exec(INITIAL, run).Some?
    ensures Inv(Exec(INITIAL, run).value)
  {
    InitialInv();
    forall s: State, ev: Event | Inv(s) && Next(s, ev).Some? ensures Inv(Next(s, ev).value) {
      StepKeepsInv(s, ev);
    }
    Runs.RunKeeps(Next, Inv, INITIAL, run);
  }

  // ----- what callers may rely on, in every run

  /** What no other step touches. */
  lemma StepFlags(s: State, ev: Event)
    requires Next(s, ev).Some?
    ensures Next(s, ev).value.disposed <==> s.disposed || ev == Dispose
    ensures Next(s, ev).value.epoch == s.epoch + if ev == Disconnect || ev == Stop then 1 else 0
    ensures Next(s, ev).value.created <==> ev != Stop && (s.created || ev == Start)
    ensures ev == Start ==> !s.disposed && s.owner == None
  {
  }

  lemma {:induction false} NoHandleStays(s: State, run: seq<Event>)
    requires Exec(s, run).Some? && !s.created && (s.disposed || Start !in run)
    ensures !Exec(s, run).value.created
    decreases run
  {
    hide Next;
    if run == [] {
    } else {
      assert run == [run[0]] + run[1..];
      StepFlags(s, run[0]);
      NoHandleStays(Next(s, run[0]).value, run[1..]);
    }
  }

  /** A stop takes the native handle away until the next start, and for good when
      the client is disposed. */
  lemma NoHandleAfterStop(s: State, after: seq<Event>)
    requires Exec(s, [Stop] + after).Some? && (s.disposed || Start !in after)
    ensures !Exec(s, [Stop] + after).value.created
  {
    hide Next;
    var run := [Stop] + after;
    assert run[0] == Stop && run[1..] == after;
    StepFlags(s, Stop);
    NoHandleStays(Next(s, Stop).value, after);
  }

  lemma {:induction false} DisposedExactly(s: State, run: seq<Event>)
    requires Exec(s, run).Some?
    ensures Exec(s, run).value.disposed <==> s.disposed || Dispose in run
    decreases run
  {
    hide Next;
    if run == [] {
    } else {
      assert run == [run[0]] + run[1..];
      StepFlags(s, run[0]);
      DisposedExactly(Next(s, run[0]).value, run[1..]);
    }
  }

  /** A reply is the one a callback of the query brought, or the refusal of a
      disposed client. */
  lemma {:induction false} ReplyOrigin(s: State, run: seq<Event>, q: Qid, r: Reply)
    requires Exec(s, run).Some?
    requires q in Exec(s, run).value.qs && Exec(s, run).value.qs[q].reply == Some(r)
    ensures || (q in s.qs && s.qs[q].reply == Some(r)) || Callback(q, r) in run
            || (r == Reply(-1, true) && (s.disposed || Dispose in run))
    decreases run
  {
    hide Next;
    if run == [] {
    } else {
      var s' := Next(s, run[0]).value;
      assert run == [run[0]] + run[1..];
      StepFlags(s, run[0]);
      ReplyOrigin(s', run[1..], q, r);
      if q in s'.qs && s'.qs[q].reply == Some(r) {
        ReplyStep(s, run[0], q, r);
      }
    }
  }

  lemma ReplyStep(s: State, ev: Event, q: Qid, r: Reply)
    requires Next(s, ev).Some? && q in Next(s, ev).value.qs && Next(s, ev).value.qs[q].reply == Some(r)
    ensures (q in s.qs && s.qs[q].reply == Some(r)) || ev == Callback(q, r) || (r == Reply(-1, true) && s.disposed)
  {
  }

  /** A Send that has returned either found no native handle, sent nothing and
      gave 0, or gave what its own query's callback brought: the result, or -1
      for an error. A disposed client counts as such an error. */
  lemma SendReturnsOwnResult(run: seq<Event>, t: Tid)
    requires Exec(INITIAL, run).Some? && PcOf(Exec(INITIAL, run).value, t).Returned?
    ensures var s := Exec(INITIAL, run).value;
            var pc := PcOf(s, t);
            if pc.q !in s.qs then pc.res == 0
            else
              && s.qs[pc.q].reply.Some?
              && var r := s.qs[pc.q].reply.value;
                 && (Callback(pc.q, r) in run || (r.failed && Dispose in run))
                 && pc.res == (if r.failed then -1 else r.result)
  {
    ReachableInv(run);
    var s := Exec(INITIAL, run).value;
    assert ThreadOk(s, t);
    if PcOf(s, t).q in s.qs {
      assert QueryOk(s, PcOf(s, t).q);
      ReplyOrigin(INITIAL, run, PcOf(s, t).q, s.qs[PcOf(s, t).q].reply.value);
    }
  }

  ghost predicate NothingBegun(s: State) {
    && !s.created
    && forall t :: PcOf(s, t).Idle? || PcOf(s, t).Locked? || (PcOf(s, t).Returned? && PcOf(s, t).res == 0)
  }

  lemma NothingBegunStep(s: State, ev: Event)
    requires NothingBegun(s) && ev != Start && Next(s, ev).Some?
    ensures NothingBegun(Next(s, ev).value)
  {
    var s' := Next(s, ev).value;
    forall t ensures PcOf(s', t).Idle? || PcOf(s', t).Locked? || (PcOf(s', t).Returned? && PcOf(s', t).res == 0) {
      assert PcOf(s, t).Idle? || PcOf(s, t).Locked? || (PcOf(s, t).Returned? && PcOf(s, t).res == 0);
    }
  }

  /** Until the client is started nothing is sent: every Send that returns gives
      0. */
  lemma NothingSentBeforeStart(run: seq<Event>, t: Tid)
    requires Exec(INITIAL, run).Some? && Start !in run
    ensures var pc := PcOf(Exec(INITIAL, run).value, t);
            pc.Idle? || pc.Locked? || (pc.Returned? && pc.res == 0)
  {
    var ok := (_: State, ev: Event) => ev != Start;
    forall s: State, ev: Event | NothingBegun(s) && ok(s, ev) && Next(s, ev).Some? ensures NothingBegun(Next(s, ev).value) {
      NothingBegunStep(s, ev);
    }
    Runs.AllowedAnywhere(Next, ok, INITIAL, run);
    Runs.AllowedRunKeeps(Next, ok, NothingBegun, INITIAL, run);
  }

  ghost predicate Refused(s: State, q: Qid) {
    && s.disposed
    && (q in s.qs ==>
          && !s.qs[q].tracked && s.qs[q].reply == Some(Reply(-1, true)) && s.qs[q].handle == -1
          && s.qs[q].phase != Registered && s.qs[q].phase != InFlight)
  }

  lemma RefusedStep(s: State, q: Qid, ev: Event)
    requires Inv(s) && Refused(s, q) && Next(s, ev).Some?
    ensures Refused(Next(s, ev).value, q)
  {
    if ev.NativeSend? {
      assert ThreadOk(s, ev.t);
    }
  }

  /** A disposed client answers every new query with the error -1, never hands it
      to the native library and never tracks it. */
  lemma DisposedClientRefuses(before: seq<Event>, after: seq<Event>, q: Qid)
    requires Exec(INITIAL, before).Some? && Dispose in before && q !in Exec(INITIAL, before).value.used
    requires Exec(Exec(INITIAL, before).value, after).Some?
    ensures var s := Exec(Exec(INITIAL, before).value, after).value;
            q !in s.queries && (q in s.qs ==> s.qs[q].phase != InFlight && s.qs[q].handle == -1)
  {
    hide Next;
    var start := Exec(INITIAL, before).value;
    ReachableInv(before);
    DisposedExactly(INITIAL, before);
    assert q in start.qs ==> QueryOk(start, q);
    var inv := (s: State) => Inv(s) && Refused(s, q);
    forall s: State, ev: Event | inv(s) && Next(s, ev).Some? ensures inv(Next(s, ev).value) {
      StepKeepsInv(s, ev);
      RefusedStep(s, q, ev);
    }
    Runs.RunKeeps(Next, inv, start, after);
    var s := Exec(start, after).value;
    if q in s.qs {
      assert QueryOk(s, q);
    }
  }

  /** The event only ever releases the caller it was set for, and a caller whose
      event was set is not left waiting: while t waits for q, the event is set
      exactly when q's own OnResult has set it. No other query is in a state to
      set it. */
  lemma EventReleasesOnlyItsCaller(run: seq<Event>, t: Tid, other: Qid)
    requires Exec(INITIAL, run).Some? && PcOf(Exec(INITIAL, run).value, t).Waiting?
    ensures var s := Exec(INITIAL, run).value;
            var q := PcOf(s, t).q;
            && q in s.qs && s.qs[q].caller == Some(t)
            && (Next(s, Wake(t)).Some? <==> Answered(s.qs[q]))
            && (Next(s, SetEvent(other)).Some? ==> other == q)
  {
    ReachableInv(run);
    var s := Exec(INITIAL, run).value;
    assert ThreadOk(s, t);
    if other in s.qs {
      assert QueryOk(s, other);
    }
  }

  /** The set holds exactly the queries added since it was last cleared whose
      handlers have not finished. */
  lemma QueriesAreThePendingOnes(run: seq<Event>, q: Qid)
    requires Exec(INITIAL, run).Some?
    ensures var s := Exec(INITIAL, run).value;
            q in s.queries <==>
              q in s.qs && s.qs[q].tracked && s.qs[q].phase != Finished && s.qs[q].epoch == s.epoch
  {
    ReachableInv(run);
    var s := Exec(INITIAL, run).value;
    if q in s.qs {
      assert QueryOk(s, q);
    }
  }

  /** What one expects of the set: the queries in flight that were sent since the
      last clearing. */
  predicate SentSinceClear(s: State, q: Qid) {
    q in s.qs && s.qs[q].phase == InFlight && s.qs[q].sentAt == Some(s.epoch)
  }

  /** Added since the last clearing and not yet sent, or answered with handlers
      still to finish. */
  predicate Between(s: State, q: Qid) {
    && q in s.qs && s.qs[q].tracked && s.qs[q].epoch == s.epoch
    && (s.qs[q].phase == Registered || s.qs[q].phase == Stored || s.qs[q].phase == Signalled)
  }

  /** Added before the last clearing and sent after it. */
  predicate SentAcrossClear(s: State, q: Qid) {
    q in s.qs && s.qs[q].phase == InFlight && s.qs[q].epoch < s.epoch && s.qs[q].sentAt == Some(s.epoch)
  }

  /** The set and the expectation agree on a query exactly outside these two
      windows: in the first the set has a query too many, in the second it misses
      one. */
  lemma SetMatchesExpectationIff(run: seq<Event>, q: Qid)
    requires Exec(INITIAL, run).Some?
    ensures var s := Exec(INITIAL, run).value;
            && (q in s.queries && !SentSinceClear(s, q) <==> Between(s, q))
            && (SentSinceClear(s, q) && q !in s.queries <==> SentAcrossClear(s, q))
  {
    ReachableInv(run);
    var s := Exec(INITIAL, run).value;
    if q in s.qs {
      assert QueryOk(s, q);
    }
  }

  /** How often the set was cleared: once by every disconnect and every stop. */
  lemma {:induction false} EpochCountsClearings(s: State, run: seq<Event>)
    requires Exec(s, run).Some?
    ensures Exec(s, run).value.epoch == s.epoch + multiset(run)[Disconnect] + multiset(run)[Stop]
    decreases run
  {
    hide Next;
    if run == [] {
    } else {
      assert run == [run[0]] + run[1..];
      StepFlags(s, run[0]);
      EpochCountsClearings(Next(s, run[0]).value, run[1..]);
    }
  }

  /** At most one thread is inside Send, and the client is not started meanwhile. */
  lemma SendIsExclusive(run: seq<Event>, t: Tid, u: Tid)
    requires Exec(INITIAL, run).Some?
    requires HoldsLock(PcOf(Exec(INITIAL, run).value, t)) && HoldsLock(PcOf(Exec(INITIAL, run).value, u))
    ensures t == u && Next(Exec(INITIAL, run).value, Start).None?
  {
    ReachableInv(run);
    assert ThreadOk(Exec(INITIAL, run).value, t) && ThreadOk(Exec(INITIAL, run).value, u);
  }

  // ----- two things one might expect of the set that do not hold

  /** A query is added before it is sent, so a disconnect in between leaves it
      in flight, sent after the disconnect, and yet not in the set. */
  lemma SentAfterDisconnectButNotTracked(q: Qid) returns (run: seq<Event>)
    ensures Exec(INITIAL, run).Some? && |run| >= 2 && run[|run| - 2..] == [Disconnect, AsyncNativeSend(q)]
    ensures var s := Exec(INITIAL, run).value;
            SentAcrossClear(s, q) && q !in s.queries
  {
    var s := INITIAL;
    run := [];
    run, s := Runs.Extend(Next, INITIAL, run, s, AsyncRegister(q));
    run, s := Runs.Extend(Next, INITIAL, run, s, Disconnect);
    run, s := Runs.Extend(Next, INITIAL, run, s, AsyncNativeSend(q));
  }

  /** A blocking call that waits for the native library's answer. */
  lemma ReachWaiting(t: Tid, q: Qid) returns (run: seq<Event>, s: State)
    ensures Exec(INITIAL, run) == Some(s)
    ensures PcOf(s, t) == Waiting(q) && q in s.queries
    ensures q in s.qs && s.qs[q].phase == InFlight && s.qs[q].caller == Some(t)
  {
    s := INITIAL;
    run := [];
    run, s := Runs.Extend(Next, INITIAL, run, s, Start);
    run, s := Runs.Extend(Next, INITIAL, run, s, CallSend(t, q));
    run, s := Runs.Extend(Next, INITIAL, run, s, CheckHandle(t));
    run, s := Runs.Extend(Next, INITIAL, run, s, ResetEvent(t));
    run, s := Runs.Extend(Next, INITIAL, run, s, Register(t));
    run, s := Runs.Extend(Next, INITIAL, run, s, NativeSend(t));
  }

  /** The event is set before the query is removed, so Send can return while its
      own query is still in the set. */
  lemma ReturnedButStillTracked(t: Tid, q: Qid, r: Reply) returns (run: seq<Event>)
    ensures Exec(INITIAL, run).Some?
    ensures var s := Exec(INITIAL, run).value;
            PcOf(s, t) == Returned(q, HandleOf(r)) && q in s.queries
  {
    var s: State;
    run, s := ReachWaiting(t, q);
    run, s := Runs.Extend(Next, INITIAL, run, s, Callback(q, r));
    run, s := Runs.Extend(Next, INITIAL, run, s, SetEvent(q));
    run, s := Runs.Extend(Next, INITIAL, run, s, Wake(t));
    run, s := Runs.Extend(Next, INITIAL, run, s, Return(t));
  }
}
