/** The lifecycle of requests that share one fetch, as a transition system. A call of
    `Lifecycle::on_event` is cut at its atomic actions: the `ended` swap or load, the delivery to the
    observer, the end of the outstanding work, and the signal. A lock section of `Shared` is one
    action. Any number of calls are in flight and their actions interleave in any order. */
module Lifecycle {
  import opened Text

  // ----- Events -----------------------------------------------------------------------------

  /** An error that carries a `NetError`, or a chain of messages. */
  datatype Fault = Net(error: nat) | Messages(chain: seq<string>)

  datatype Event =
    | Accepted(joined: bool)
    | Other(what: nat)
    | Progress(received: nat)
    | Finished(received: nat)
    | Failed(fault: Fault)
    | Cancelled(reason: string)

  predicate IsTerminal(ev: Event) {
    ev.Finished? || ev.Failed? || ev.Cancelled?
  }

  /** `copy`: the event for another request of the same fetch. */
  function Copy(ev: Event): Option<Event> {
    match ev
    case Progress(_) => Some(ev)
    case Finished(_) => Some(ev)
    case Cancelled(_) => Some(ev)
    case Failed(Net(_)) => Some(ev)
    case Failed(Messages(chain)) => Some(Failed(Messages([Join(chain, ": ")])))
    case _ => None
  }

  /** A copy is the event itself, but for a chain of messages: it becomes the one message it reads as. */
  predicate CopyOf(copy: Event, ev: Event) {
    || copy == ev
    || (&& ev.Failed? && ev.fault.Messages?
        && copy.Failed? && copy.fault.Messages?
        && |copy.fault.chain| == 1 && copy.fault.chain[0] == Join(ev.fault.chain, ": "))
  }

  /** Exactly the progress and the ends can be copied, a copy is of the same kind and copying it changes
      nothing more. */
  lemma CopyIsIdempotent(ev: Event)
    ensures Copy(ev).Some? <==> ev.Progress? || IsTerminal(ev)
    ensures Copy(ev).Some? ==> CopyOf(Copy(ev).value, ev)
    ensures Copy(ev).Some? ==> !Copy(ev).value.Accepted?
    ensures Copy(ev).Some? ==> Copy(Copy(ev).value) == Copy(ev) && (IsTerminal(Copy(ev).value) <==> IsTerminal(ev))
  {
  }

  function Ends(log: seq<Event>): nat {
    if log == [] then 0
    else Ends(log[..|log| - 1]) + (if IsTerminal(log[|log| - 1]) then 1 else 0)
  }

  lemma EndsSnoc(log: seq<Event>, ev: Event)
    ensures Ends(log + [ev]) == Ends(log) + (if IsTerminal(ev) then 1 else 0)
  {
    assert (log + [ev])[..|log|] == log;
  }

  /** Nothing comes after an end. */
  predicate EndComesLast(log: seq<Event>) {
    forall i | 0 <= i < |log| - 1 :: !IsTerminal(log[i])
  }

  // ----- State ------------------------------------------------------------------------------

  type Id = nat
  type CallId = nat

  /** A `Lifecycle`: its flag and signal, what its observer was told, and how often its work was
      begun and done. `ending` names the call that won the `ended` swap, until that call is over, and
      `endedByFetch` says whether the fetch made it. */
  datatype Request = Request(
    work: bool, ended: bool, signalled: bool, dropped: bool,
    log: seq<Event>, active: nat, done: nat, ending: Option<CallId>, endedByFetch: bool)

  /** Where a call is with the first request of its queue. */
  datatype Pc = Begin | Deliver | Finish | Signal

  /** A call in flight: an event and the requests it is still to be handed to. `ofFetch` says the
      fetch reported it rather than somebody holding the request. */
  datatype Call = Call(ev: Event, queue: seq<Id>, pc: Pc, ofFetch: bool)

  /** `leader`, `attached` and `end` are the `Shared` of the fetch while `open`; `held` are the
      requests somebody else holds. `joined` and `left` record which requests ever joined the fetch
      and which left it. */
  datatype State = State(
    requests: map<Id, Request>, calls: map<CallId, Call>, held: set<Id>,
    open: bool, leader: Id, attached: seq<Id>, end: Option<Event>,
    joined: set<Id>, left: set<Id>)

  datatype Step =
    | Accept(id: Id, joins: bool, work: bool)
    | Observe(call: CallId, id: Id, ev: Event)
    | Attach(call: CallId, id: Id)
    | Detach(id: Id)
    | Report(call: CallId, ev: Event)
    | Run(call: CallId)
    | Release(id: Id)
    | CloseShared
    | Drop(id: Id)

  function NewRequest(joins: bool, work: bool): Request {
    Request(work, false, false, false, [Accepted(joins)], if work then 1 else 0, 0, None, false)
  }

  /** A fetch just begun by its leader. */
  predicate Init(s: State) {
    && (s.requests == map[s.leader := NewRequest(false, false)] || s.requests == map[s.leader := NewRequest(false, true)])
    && s.calls == map[] && s.held == {s.leader} && s.open
    && s.attached == [s.leader] && s.end == None && s.joined == {s.leader} && s.left == {}
  }

  /** Some handle keeps the request alive. */
  predicate Referenced(s: State, id: Id) {
    || id in s.held
    || (s.open && (id == s.leader || id in s.attached))
    || exists c | c in s.calls :: id in s.calls[c].queue
  }

  predicate Enabled(s: State, step: Step) {
    match step
    case Accept(id, _, _) => id !in s.requests
    case Observe(c, id, ev) => c !in s.calls && id in s.held && !ev.Accepted?
    case Attach(c, id) => c !in s.calls && id in s.held && s.open
    case Detach(id) => id in s.held && s.open
    case Report(c, ev) => c !in s.calls && s.open && !ev.Accepted?
    case Run(c) => c in s.calls && s.calls[c].queue != [] && s.calls[c].queue[0] in s.requests
    case Release(id) => id in s.held
    case CloseShared => s.open
    case Drop(id) => id in s.requests && !s.requests[id].dropped && !Referenced(s, id)
  }

  function Without(ids: seq<Id>, id: Id): seq<Id> {
    if ids == [] then [] else (if ids[0] == id then [] else [ids[0]]) + Without(ids[1..], id)
  }

  /** A call that has begun, unless there is nobody to hand its event to. */
  function Started(calls: map<CallId, Call>, c: CallId, ev: Event, queue: seq<Id>, ofFetch: bool): map<CallId, Call> {
    if queue == [] then calls else calls[c := Call(ev, queue, Begin, ofFetch)]
  }

  /** The call once it is through with the first request of its queue. */
  function Passed(calls: map<CallId, Call>, c: CallId): map<CallId, Call>
    requires c in calls && calls[c].queue != []
  {
    var call := calls[c];
    if |call.queue| == 1 then calls - {c} else calls[c := call.(queue := call.queue[1..], pc := Begin)]
  }

  /** What the first request of the queue gets: the event itself when it is the only one left. */
  function Handed(call: Call): Option<Event> {
    if |call.queue| == 1 then Some(call.ev) else Copy(call.ev)
  }

  /** One action of a call of `Lifecycle::on_event`. */
  function RunCall(s: State, c: CallId): State
    requires Enabled(s, Run(c))
  {
    var call := s.calls[c];
    var id := call.queue[0];
    var r := s.requests[id];
    match call.pc
    case Begin =>
      if Handed(call).None? || r.ended then s.(calls := Passed(s.calls, c))
      else
        s.(calls := s.calls[c := call.(pc := Deliver)],
           requests := if !IsTerminal(call.ev) then s.requests
                       else s.requests[id := r.(ended := true, ending := Some(c), endedByFetch := call.ofFetch)])
    case Deliver =>
      var ev := match Handed(call) case Some(ev) => ev case None => call.ev;
      s.(calls := if IsTerminal(call.ev) then s.calls[c := call.(pc := Finish)] else Passed(s.calls, c),
         requests := s.requests[id := r.(log := r.log + [ev])])
    case Finish =>
      s.(calls := s.calls[c := call.(pc := Signal)],
         requests := s.requests[id := r.(done := if r.work then r.done + 1 else r.done)])
    case Signal =>
      s.(calls := Passed(s.calls, c),
         requests := s.requests[id := r.(signalled := true, ending := None)])
  }

  /** `Drop for Lifecycle`: a request let go of without an end is cancelled. */
  function DropRequest(s: State, id: Id): State
    requires id in s.requests
  {
    var r := s.requests[id];
    var gone := if r.ended then r
                else r.(log := r.log + [Cancelled("request dropped before it ended")],
                        done := if r.work then r.done + 1 else r.done);
    s.(requests := s.requests[id := gone.(dropped := true)])
  }

  function Apply(s: State, step: Step): State
    requires Enabled(s, step)
  {
    match step
    case Accept(id, joins, work) =>
      s.(requests := s.requests[id := NewRequest(joins, work)], held := s.held + {id})
    case Observe(c, id, ev) => s.(calls := Started(s.calls, c, ev, [id], false))
    case Attach(c, id) =>
      var t := s.(joined := s.joined + {id}, left := s.left - {id});
      (match s.end
       case Some(end) =>
         (match Copy(end)
          case Some(ev) => t.(calls := Started(s.calls, c, ev, [id], true))
          case None => t)
       case None => t.(attached := s.attached + [id]))
    case Detach(id) => s.(attached := Without(s.attached, id), left := s.left + {id})
    case Report(c, ev) =>
      if !(IsTerminal(ev) || ev.Progress?) then s.(calls := Started(s.calls, c, ev, [s.leader], true))
      else if IsTerminal(ev) then
        s.(end := Copy(ev), attached := [], calls := Started(s.calls, c, ev, s.attached, true))
      else s.(calls := Started(s.calls, c, ev, s.attached, true))
    case Run(c) => RunCall(s, c)
    case Release(id) => s.(held := s.held - {id})
    case CloseShared => s.(open := false, attached := [])
    case Drop(id) => DropRequest(s, id)
  }

  // ----- Runs -------------------------------------------------------------------------------

  /** The steps can be taken one after the other from `s`. */
  predicate CanRun(s: State, steps: seq<Step>)
    decreases |steps|
  {
    steps == [] || (Enabled(s, steps[0]) && CanRun(Apply(s, steps[0]), steps[1..]))
  }

  function After(s: State, steps: seq<Step>): State
    requires CanRun(s, steps)
    decreases |steps|
  {
    if steps == [] then s else After(Apply(s, steps[0]), steps[1..])
  }

  // ----- Invariant --------------------------------------------------------------------------

  /** The call won the `ended` swap of the first request of its queue and is not through with it. */
  predicate EndsHead(call: Call) {
    call.queue != [] && IsTerminal(call.ev) && call.pc != Begin
  }

  /** How far the end of a request has come, by the call that delivers it. */
  predicate EndedSoFar(r: Request, pc: Pc) {
    match pc
    case Begin => false
    case Deliver => Ends(r.log) == 0 && r.done == 0
    case Finish => Ends(r.log) == 1 && r.done == 0
    case Signal => Ends(r.log) == 1 && r.done == r.active
  }

  predicate RequestOk(r: Request, id: Id, calls: map<CallId, Call>) {
    && |r.log| > 0 && r.log[0].Accepted? && (forall i | 1 <= i < |r.log| :: !r.log[i].Accepted?)
    && r.active == (if r.work then 1 else 0)
    && (r.signalled <==> r.ended && r.ending.None?)
    && (match r.ending
        case None =>
          if r.ended || r.dropped then Ends(r.log) == 1 && r.done == r.active else Ends(r.log) == 0 && r.done == 0
        case Some(c) =>
          && r.ended && !r.dropped && c in calls && EndsHead(calls[c]) && calls[c].queue[0] == id
          && EndedSoFar(r, calls[c].pc))
  }

  predicate CallOk(call: Call, c: CallId, requests: map<Id, Request>) {
    && call.queue != [] && !call.ev.Accepted?
    && (forall i | 0 <= i < |call.queue| :: call.queue[i] in requests && !requests[call.queue[i]].dropped)
    && (call.pc in {Finish, Signal} ==> IsTerminal(call.ev))
    && (call.pc != Begin ==> Handed(call).Some?)
    && (EndsHead(call) ==> requests[call.queue[0]].ending == Some(c))
  }

  predicate Living(requests: map<Id, Request>, id: Id) {
    id in requests && !requests[id].dropped
  }

  /** Some call still has the request's end to hand over. */
  predicate Awaits(calls: map<CallId, Call>, id: Id) {
    exists c | c in calls :: IsTerminal(calls[c].ev) && id in calls[c].queue
  }

  predicate RequestsOk(s: State) {
    forall id | id in s.requests :: RequestOk(s.requests[id], id, s.calls)
  }

  predicate CallsOk(s: State) {
    forall c | c in s.calls :: CallOk(s.calls[c], c, s.requests)
  }

  predicate HandlesOk(s: State) {
    && (forall id | id in s.held :: Living(s.requests, id))
    && (s.open ==> Living(s.requests, s.leader) && forall i | 0 <= i < |s.attached| :: Living(s.requests, s.attached[i]))
    && (forall id | id in s.joined :: id in s.requests)
  }

  /** The fetch has reported its end to every request that joined it and did not leave: either the
      request has ended or a call is on its way to it. */
  predicate FetchOk(s: State) {
    && (s.end.Some? ==> s.attached == [] && IsTerminal(s.end.value))
    && (s.open && s.end.None? ==> forall id | id in s.joined - s.left :: id in s.attached)
    && (s.end.Some? ==>
          forall id | id in s.joined - s.left :: id in s.requests && (s.requests[id].ended || Awaits(s.calls, id)))
  }

  predicate Inv(s: State) {
    RequestsOk(s) && CallsOk(s) && HandlesOk(s) && FetchOk(s)
  }

  // ----- Every step keeps the invariant -----------------------------------------------------

  lemma InitHolds(s: State)
    requires Init(s)
    ensures Inv(s)
  {
    var r := s.requests[s.leader];
    assert r.log[..0] == [];
  }

  /** A call just begun has won nothing and hands its event to living requests only. */
  lemma StartedKeeps(s: State, c: CallId, ev: Event, queue: seq<Id>, ofFetch: bool)
    requires RequestsOk(s) && CallsOk(s) && c !in s.calls && !ev.Accepted?
    requires forall i | 0 <= i < |queue| :: Living(s.requests, queue[i])
    ensures var t := s.(calls := Started(s.calls, c, ev, queue, ofFetch)); RequestsOk(t) && CallsOk(t)
    ensures forall id | Awaits(s.calls, id) :: Awaits(Started(s.calls, c, ev, queue, ofFetch), id)
    ensures IsTerminal(ev) ==> forall id | id in queue :: Awaits(Started(s.calls, c, ev, queue, ofFetch), id)
  {
    hide Ends, Handed, EndedSoFar, IsTerminal;
    var calls := Started(s.calls, c, ev, queue, ofFetch);
    forall id | Awaits(s.calls, id)
      ensures Awaits(calls, id)
    {
      var d :| d in s.calls && IsTerminal(s.calls[d].ev) && id in s.calls[d].queue;
      assert calls[d] == s.calls[d];
    }
    forall id | IsTerminal(ev) && id in queue
      ensures Awaits(calls, id)
    {
      assert IsTerminal(calls[c].ev) && id in calls[c].queue;
    }
    assert forall d | d in s.calls :: d in calls && calls[d] == s.calls[d];
  }

  /** A step that touches one request and no call leaves the other requests as they were. */
  lemma UntouchedOk(s: State, t: State, id: Id)
    requires RequestsOk(s) && t.calls == s.calls && id in t.requests && RequestOk(t.requests[id], id, s.calls)
    requires t.requests == s.requests[id := t.requests[id]]
    ensures RequestsOk(t)
  {
    hide RequestOk;
  }

  lemma CallsUntouchedOk(s: State, t: State, id: Id)
    requires CallsOk(s) && t.calls == s.calls && id in t.requests && t.requests == s.requests[id := t.requests[id]]
    requires forall c | c in s.calls :: id !in s.calls[c].queue
    ensures CallsOk(t)
  {
    hide Handed;
    forall c | c in t.calls
      ensures CallOk(t.calls[c], c, t.requests)
    {
      assert CallOk(s.calls[c], c, s.requests);
      assert forall i | 0 <= i < |s.calls[c].queue| :: s.calls[c].queue[i] != id;
    }
  }

  lemma AcceptKeeps(s: State, id: Id, joins: bool, work: bool)
    requires Inv(s) && id !in s.requests
    ensures Inv(Apply(s, Accept(id, joins, work)))
  {
    hide RequestOk, CallOk, Awaits;
    var t := Apply(s, Accept(id, joins, work));
    NewRequestOk(id, joins, work, s.calls);
    UntouchedOk(s, t, id);
    UnknownUnqueued(s, id);
    CallsUntouchedOk(s, t, id);
  }

  lemma UnknownUnqueued(s: State, id: Id)
    requires CallsOk(s) && id !in s.requests
    ensures forall c | c in s.calls :: id !in s.calls[c].queue
  {
    forall c | c in s.calls
      ensures id !in s.calls[c].queue
    {
      assert CallOk(s.calls[c], c, s.requests);
    }
  }

  lemma NewRequestOk(id: Id, joins: bool, work: bool, calls: map<CallId, Call>)
    ensures RequestOk(NewRequest(joins, work), id, calls)
  {
    var r := NewRequest(joins, work);
    assert r.log[..0] == [];
    assert Ends(r.log) == 0;
  }

  lemma {:induction false} WithoutHas(ids: seq<Id>, id: Id)
    ensures forall x :: x in Without(ids, id) <==> x in ids && x != id
  {
    if ids != [] {
      WithoutHas(ids[1..], id);
    }
  }

  lemma DetachKeeps(s: State, id: Id)
    requires Inv(s) && Enabled(s, Detach(id))
    ensures Inv(Apply(s, Detach(id)))
  {
    hide RequestOk, CallOk, Awaits;
    WithoutHas(s.attached, id);
    var t := Apply(s, Detach(id));
    forall i | 0 <= i < |t.attached|
      ensures Living(t.requests, t.attached[i])
    {
      assert t.attached[i] in s.attached;
    }
  }

  lemma AttachKeeps(s: State, c: CallId, id: Id)
    requires Inv(s) && Enabled(s, Attach(c, id))
    ensures Inv(Apply(s, Attach(c, id)))
  {
    hide RequestOk, CallOk, Started, Awaits;
    var t := Apply(s, Attach(c, id));
    assert Living(s.requests, id);
    if s.end.Some? {
      CopyIsIdempotent(s.end.value);
      StartedKeeps(s, c, Copy(s.end.value).value, [id], true);
      assert RequestsOk(t) && CallsOk(t);
      assert id in [id];
    }
  }

  lemma ObserveKeeps(s: State, c: CallId, id: Id, ev: Event)
    requires Inv(s) && Enabled(s, Observe(c, id, ev))
    ensures Inv(Apply(s, Observe(c, id, ev)))
  {
    hide RequestOk, CallOk, Started, Awaits;
    assert Living(s.requests, id);
    StartedKeeps(s, c, ev, [id], false);
  }

  lemma ReportKeeps(s: State, c: CallId, ev: Event)
    requires Inv(s) && Enabled(s, Report(c, ev))
    ensures Inv(Apply(s, Report(c, ev)))
  {
    hide RequestOk, CallOk, Started, Awaits;
    CopyIsIdempotent(ev);
    if !(IsTerminal(ev) || ev.Progress?) {
      StartedKeeps(s, c, ev, [s.leader], true);
    } else {
      StartedKeeps(s, c, ev, s.attached, true);
    }
  }

  lemma CloseKeeps(s: State)
    requires Inv(s) && s.open
    ensures Inv(Apply(s, CloseShared))
  {
    hide RequestOk, CallOk, Awaits;
  }

  lemma ReleaseKeeps(s: State, id: Id)
    requires Inv(s) && Enabled(s, Release(id))
    ensures Inv(Apply(s, Release(id)))
  {
    hide RequestOk, CallOk, Awaits;
  }

  lemma DropKeeps(s: State, id: Id)
    requires Inv(s) && Enabled(s, Drop(id))
    ensures Inv(Apply(s, Drop(id)))
  {
    hide RequestOk, CallOk, Awaits;
    var t := Apply(s, Drop(id));
    DroppedOk(s, id);
    UntouchedOk(s, t, id);
    assert forall c | c in s.calls :: id !in s.calls[c].queue;
    CallsUntouchedOk(s, t, id);
  }

  lemma DroppedOk(s: State, id: Id)
    requires Inv(s) && Enabled(s, Drop(id))
    ensures RequestOk(Apply(s, Drop(id)).requests[id], id, s.calls)
  {
    hide Handed, Awaits, CallOk, FetchOk, HandlesOk;
    var r := s.requests[id];
    EndsSnoc(r.log, Cancelled("request dropped before it ended"));
    assert RequestOk(r, id, s.calls);
  }

  // ----- Actions of a call ------------------------------------------------------------------

  /** `t` is `s` with one call moved on, or over, and its first request changed. */
  predicate Moved(s: State, t: State, c: CallId, id: Id) {
    && c in s.calls && s.calls[c].queue != [] && s.calls[c].queue[0] == id
    && id in s.requests && id in t.requests
    && t.requests == s.requests[id := t.requests[id]]
    && (if c in t.calls then t.calls == s.calls[c := t.calls[c]] else t.calls == s.calls - {c})
    && t == s.(requests := t.requests, calls := t.calls)
    && t.requests[id].dropped == s.requests[id].dropped
    && (s.requests[id].ended ==> t.requests[id].ended)
  }

  lemma MovedKeepsRequests(s: State, t: State, c: CallId, id: Id)
    requires RequestsOk(s) && Moved(s, t, c, id) && RequestOk(t.requests[id], id, t.calls)
    ensures RequestsOk(t)
  {
    hide Ends, EndedSoFar;
    forall x | x in t.requests
      ensures RequestOk(t.requests[x], x, t.calls)
    {
      if x != id {
        assert RequestOk(s.requests[x], x, s.calls);
      }
    }
  }

  lemma MovedKeepsCalls(s: State, t: State, c: CallId, id: Id)
    requires CallsOk(s) && Moved(s, t, c, id)
    requires c in t.calls ==> CallOk(t.calls[c], c, t.requests)
    requires s.requests[id].ending in {None, Some(c), t.requests[id].ending}
    ensures CallsOk(t)
  {
    hide Handed;
    forall d | d in t.calls
      ensures CallOk(t.calls[d], d, t.requests)
    {
      if d != c {
        assert CallOk(s.calls[d], d, s.requests);
      }
    }
  }

  lemma MovedKeepsFetch(s: State, t: State, c: CallId, id: Id)
    requires HandlesOk(s) && FetchOk(s) && Moved(s, t, c, id)
    requires t.requests[id].ended || (c in t.calls && id in t.calls[c].queue) || !IsTerminal(s.calls[c].ev)
    requires c in t.calls ==> t.calls[c].ev == s.calls[c].ev
    requires forall x | x in s.calls[c].queue && x != id :: c in t.calls && x in t.calls[c].queue
    ensures HandlesOk(t) && FetchOk(t)
  {
    forall x | x in s.requests && Awaits(s.calls, x)
      ensures t.requests[x].ended || Awaits(t.calls, x)
    {
      var d :| d in s.calls && IsTerminal(s.calls[d].ev) && x in s.calls[d].queue;
      if d != c {
        assert t.calls[d] == s.calls[d];
      } else if x != id {
        assert IsTerminal(t.calls[c].ev) && x in t.calls[c].queue;
      } else if !t.requests[id].ended {
        assert IsTerminal(t.calls[c].ev) && id in t.calls[c].queue;
      }
    }
  }

  /** The call after its first request: in order, and begun anew with the next. */
  lemma PassedIsOk(s: State, t: State, c: CallId)
    requires CallsOk(s) && Enabled(s, Run(c)) && t.calls == Passed(s.calls, c)
    requires Moved(s, t, c, s.calls[c].queue[0])
    ensures c in t.calls ==> CallOk(t.calls[c], c, t.requests)
    ensures forall x | x in s.calls[c].queue && x != s.calls[c].queue[0] :: c in t.calls && x in t.calls[c].queue
  {
    var call := s.calls[c];
    assert CallOk(call, c, s.requests);
    assert call.queue == [call.queue[0]] + call.queue[1..];
    forall i | 0 <= i < |call.queue| - 1
      ensures Living(t.requests, call.queue[1..][i])
    {
      assert call.queue[1..][i] == call.queue[i + 1];
    }
  }

  lemma RunPassKeeps(s: State, c: CallId)
    requires Inv(s) && Enabled(s, Run(c)) && s.calls[c].pc == Begin
    requires s.requests[s.calls[c].queue[0]].ended || !IsTerminal(s.calls[c].ev)
    ensures Inv(s.(calls := Passed(s.calls, c)))
  {
    hide Ends, Awaits, Handed, EndedSoFar, HandlesOk, FetchOk;
    var t, id := s.(calls := Passed(s.calls, c)), s.calls[c].queue[0];
    assert CallOk(s.calls[c], c, s.requests) && RequestOk(s.requests[id], id, s.calls);
    assert s.requests == s.requests[id := s.requests[id]];
    PassedIsOk(s, t, c);
    MovedKeepsRequests(s, t, c, id);
    MovedKeepsCalls(s, t, c, id);
    MovedKeepsFetch(s, t, c, id);
  }

  /** The request once the call has won its swap, or seen it not ended. */
  lemma BegunOk(s: State, c: CallId)
    requires RequestsOk(s) && CallsOk(s) && Enabled(s, Run(c)) && s.calls[c].pc == Begin
    requires Handed(s.calls[c]).Some? && !s.requests[s.calls[c].queue[0]].ended
    ensures var t := RunCall(s, c);
            var id := s.calls[c].queue[0];
            RequestOk(t.requests[id], id, t.calls) && CallOk(t.calls[c], c, t.requests)
  {
    hide Ends, Copy;
    var id := s.calls[c].queue[0];
    assert CallOk(s.calls[c], c, s.requests) && RequestOk(s.requests[id], id, s.calls);
  }

  lemma RunBeginKeeps(s: State, c: CallId)
    requires Inv(s) && Enabled(s, Run(c)) && s.calls[c].pc == Begin
    ensures Inv(Apply(s, Run(c)))
  {
    hide Ends, Awaits, Copy, HandlesOk, FetchOk, RequestOk, CallOk, Passed;
    var call, t := s.calls[c], Apply(s, Run(c));
    var id := call.queue[0];
    CopyIsIdempotent(call.ev);
    if Handed(call).None? || s.requests[id].ended {
      RunPassKeeps(s, c);
    } else {
      BegunOk(s, c);
      assert s.requests == s.requests[id := s.requests[id]];
      UnendedHasNoEnding(s, id);
      MovedKeepsRequests(s, t, c, id);
      MovedKeepsCalls(s, t, c, id);
      MovedKeepsFetch(s, t, c, id);
    }
  }

  lemma UnendedHasNoEnding(s: State, id: Id)
    requires RequestsOk(s) && id in s.requests && !s.requests[id].ended
    ensures s.requests[id].ending == None
  {
    assert RequestOk(s.requests[id], id, s.calls);
  }

  lemma HandedIgnoresPc(call: Call, pc: Pc)
    ensures Handed(call.(pc := pc)) == Handed(call)
  {
  }

  lemma DeliveredEndOk(s: State, c: CallId)
    requires RequestsOk(s) && CallsOk(s) && Enabled(s, Run(c)) && s.calls[c].pc == Deliver && IsTerminal(s.calls[c].ev)
    ensures var t := RunCall(s, c);
            var id := s.calls[c].queue[0];
            RequestOk(t.requests[id], id, t.calls) && CallOk(t.calls[c], c, t.requests)
  {
    hide Ends, Copy, Handed, Passed, Started, IsTerminal, HandlesOk, FetchOk;
    var id := s.calls[c].queue[0];
    assert CallOk(s.calls[c], c, s.requests) && RequestOk(s.requests[id], id, s.calls);
    HandedKind(s.calls[c]);
    HandedIgnoresPc(s.calls[c], Finish);
    EndsSnoc(s.requests[id].log, Handed(s.calls[c]).value);
  }

  lemma DeliveredOtherOk(s: State, c: CallId)
    requires RequestsOk(s) && CallsOk(s) && Enabled(s, Run(c)) && s.calls[c].pc == Deliver && !IsTerminal(s.calls[c].ev)
    ensures var t := RunCall(s, c);
            var id := s.calls[c].queue[0];
            RequestOk(t.requests[id], id, t.calls)
  {
    hide Ends, Copy, Handed, EndedSoFar;
    var id := s.calls[c].queue[0];
    assert CallOk(s.calls[c], c, s.requests) && RequestOk(s.requests[id], id, s.calls);
    HandedKind(s.calls[c]);
    EndsSnoc(s.requests[id].log, Handed(s.calls[c]).value);
    EndedSoFarCounts(s.requests[id], Handed(s.calls[c]).value);
  }

  lemma EndedSoFarCounts(r: Request, ev: Event)
    requires !IsTerminal(ev)
    ensures forall pc :: EndedSoFar(r.(log := r.log + [ev]), pc) <==> EndedSoFar(r, pc)
  {
    hide Ends, IsTerminal;
    EndsSnoc(r.log, ev);
  }

  lemma HandedKind(call: Call)
    requires Handed(call).Some? && !call.ev.Accepted?
    ensures !Handed(call).value.Accepted? && (IsTerminal(Handed(call).value) <==> IsTerminal(call.ev))
  {
    CopyIsIdempotent(call.ev);
  }

  /** A call past its swap belongs to a request that has ended. */
  lemma EndingIsEnded(s: State, c: CallId)
    requires RequestsOk(s) && CallsOk(s) && Enabled(s, Run(c)) && EndsHead(s.calls[c])
    ensures s.requests[s.calls[c].queue[0]].ended
  {
    hide Ends, Handed;
    assert CallOk(s.calls[c], c, s.requests);
    assert RequestOk(s.requests[s.calls[c].queue[0]], s.calls[c].queue[0], s.calls);
  }

  lemma RunDeliverKeeps(s: State, c: CallId)
    requires Inv(s) && Enabled(s, Run(c)) && s.calls[c].pc == Deliver
    ensures Inv(Apply(s, Run(c)))
  {
    hide Ends, Awaits, Copy, HandlesOk, FetchOk, RequestOk, CallOk, Passed;
    var call, t := s.calls[c], Apply(s, Run(c));
    var id := call.queue[0];
    if IsTerminal(call.ev) {
      DeliveredEndOk(s, c);
      EndingIsEnded(s, c);
    } else {
      DeliveredOtherOk(s, c);
      DeliveredMoved(s, c);
      PassedIsOk(s, t, c);
    }
    MovedKeepsRequests(s, t, c, id);
    MovedKeepsCalls(s, t, c, id);
    MovedKeepsFetch(s, t, c, id);
  }

  lemma DeliveredMoved(s: State, c: CallId)
    requires Enabled(s, Run(c)) && s.calls[c].pc == Deliver && !IsTerminal(s.calls[c].ev)
    ensures var t := RunCall(s, c);
            t.calls == Passed(s.calls, c) && Moved(s, t, c, s.calls[c].queue[0])
            && (c in t.calls ==> t.calls[c].ev == s.calls[c].ev)
  {
    hide Handed;
  }

  lemma FinishedOk(s: State, c: CallId)
    requires RequestsOk(s) && CallsOk(s) && Enabled(s, Run(c)) && s.calls[c].pc == Finish
    ensures var t := RunCall(s, c);
            var id := s.calls[c].queue[0];
            RequestOk(t.requests[id], id, t.calls) && CallOk(t.calls[c], c, t.requests)
  {
    hide Ends, Handed, IsTerminal, Passed;
    HandedIgnoresPc(s.calls[c], Signal);
    var id := s.calls[c].queue[0];
    assert CallOk(s.calls[c], c, s.requests) && RequestOk(s.requests[id], id, s.calls);
  }

  lemma RunFinishKeeps(s: State, c: CallId)
    requires Inv(s) && Enabled(s, Run(c)) && s.calls[c].pc == Finish
    ensures Inv(Apply(s, Run(c)))
  {
    hide Ends, Awaits, Copy, HandlesOk, FetchOk, RequestOk, CallOk, Handed;
    var id := s.calls[c].queue[0];
    FinishedOk(s, c);
    MovedKeepsRequests(s, Apply(s, Run(c)), c, id);
    MovedKeepsCalls(s, Apply(s, Run(c)), c, id);
    MovedKeepsFetch(s, Apply(s, Run(c)), c, id);
  }

  lemma RunSignalKeeps(s: State, c: CallId)
    requires Inv(s) && Enabled(s, Run(c)) && s.calls[c].pc == Signal
    ensures Inv(Apply(s, Run(c)))
  {
    hide Ends, Awaits, Handed, HandlesOk, FetchOk;
    var call, t := s.calls[c], Apply(s, Run(c));
    var id := call.queue[0];
    assert CallOk(call, c, s.requests) && RequestOk(s.requests[id], id, s.calls);
    PassedIsOk(s, t, c);
    MovedKeepsRequests(s, t, c, id);
    MovedKeepsCalls(s, t, c, id);
    MovedKeepsFetch(s, t, c, id);
  }

  lemma StepKeeps(s: State, step: Step)
    requires Inv(s) && Enabled(s, step)
    ensures Inv(Apply(s, step))
  {
    hide Inv, RunCall, DropRequest, Started;
    match step
    case Accept(id, joins, work) => AcceptKeeps(s, id, joins, work);
    case Observe(c, id, ev) => ObserveKeeps(s, c, id, ev);
    case Attach(c, id) => AttachKeeps(s, c, id);
    case Detach(id) => DetachKeeps(s, id);
    case Report(c, ev) => ReportKeeps(s, c, ev);
    case Release(id) => ReleaseKeeps(s, id);
    case CloseShared => CloseKeeps(s);
    case Drop(id) => DropKeeps(s, id);
    case Run(c) =>
      match s.calls[c].pc {
        case Begin => RunBeginKeeps(s, c);
        case Deliver => RunDeliverKeeps(s, c);
        case Finish => RunFinishKeeps(s, c);
        case Signal => RunSignalKeeps(s, c);
      }
  }

  lemma {:induction false} RunsKeep(s: State, steps: seq<Step>)
    requires Inv(s) && CanRun(s, steps)
    ensures Inv(After(s, steps))
    decreases |steps|
  {
    hide Inv, Apply, Enabled;
    if steps != [] {
      StepKeeps(s, steps[0]);
      RunsKeep(Apply(s, steps[0]), steps[1..]);
    }
  }
}
