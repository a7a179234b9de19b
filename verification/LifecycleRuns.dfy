/** What the lifecycle protocol promises over every run: one end for each request, and nothing after it
    unless deliveries overlap. */
module LifecycleRuns {
  import opened Text
  import opened Lifecycle

  // ----- One end for every request ----------------------------------------------------------

  /** Over every run, every request is accepted once, told of at most one end, and has its work
      begun as often as it asked and done no more often than that. It has had exactly one end, and
      its work is done, once it has ended or been dropped and no call is still delivering that end. */
  lemma EveryRequestEndsOnce(begun: State, steps: seq<Step>, id: Id)
    requires Init(begun) && CanRun(begun, steps) && id in After(begun, steps).requests
    ensures var s := After(begun, steps);
            var r := s.requests[id];
            && |r.log| > 0 && r.log[0].Accepted? && (forall i | 1 <= i < |r.log| :: !r.log[i].Accepted?)
            && Ends(r.log) <= 1 && r.done <= r.active == (if r.work then 1 else 0)
            && (Ends(r.log) == 1 ==> r.ended || r.dropped)
            && (r.ending.None? ==>
                  if r.ended || r.dropped then Ends(r.log) == 1 && r.done == r.active
                  else Ends(r.log) == 0 && r.done == 0)
            && (r.ending.Some? ==>
                  && r.ending.value in s.calls && EndsHead(s.calls[r.ending.value])
                  && s.calls[r.ending.value].queue[0] == id)
  {
    hide Ends, Apply, Enabled, Handed;
    InitHolds(begun);
    RunsKeep(begun, steps);
    var s := After(begun, steps);
    assert RequestOk(s.requests[id], id, s.calls);
  }

  /** Once the fetch has ended and no call is in flight, every request that joined it and did not
      leave it, after its end as much as before, has had exactly one end and its work is done. */
  lemma FetchEndReachesEveryRequest(begun: State, steps: seq<Step>, id: Id)
    requires Init(begun) && CanRun(begun, steps)
    requires After(begun, steps).end.Some? && After(begun, steps).calls == map[]
    requires id in After(begun, steps).joined - After(begun, steps).left
    ensures var s := After(begun, steps);
            && id in s.requests && s.requests[id].ended && s.requests[id].signalled
            && Ends(s.requests[id].log) == 1 && s.requests[id].done == s.requests[id].active
  {
    hide Ends, Apply, Enabled, Handed;
    InitHolds(begun);
    RunsKeep(begun, steps);
    var s := After(begun, steps);
    assert RequestOk(s.requests[id], id, s.calls);
  }

  /** A request nobody holds can be dropped, and has had exactly one end when it is. */
  lemma UnheldRequestIsEndedByItsDrop(begun: State, steps: seq<Step>, id: Id)
    requires Init(begun) && CanRun(begun, steps)
    requires var s := After(begun, steps);
             id in s.requests && !s.requests[id].dropped && !Referenced(s, id)
    ensures var s := After(begun, steps);
            && Enabled(s, Drop(id))
            && Ends(Apply(s, Drop(id)).requests[id].log) == 1
            && Apply(s, Drop(id)).requests[id].done == s.requests[id].active
  {
    hide Ends, Handed;
    InitHolds(begun);
    RunsKeep(begun, steps);
    var s := After(begun, steps);
    assert Enabled(s, Drop(id));
    DropKeeps(s, id);
    assert RequestOk(Apply(s, Drop(id)).requests[id], id, s.calls);
  }

  // ----- Requests left alone ----------------------------------------------------------------

  predicate SameBut(before: map<Id, Request>, after: map<Id, Request>, one: Id) {
    forall id | id in before && id != one :: id in after && after[id] == before[id]
  }

  lemma SameButTwice(a: map<Id, Request>, b: map<Id, Request>, c: map<Id, Request>, one: Id)
    requires SameBut(a, b, one) && SameBut(b, c, one)
    ensures SameBut(a, c, one)
  {
  }

  // ----- Calls run out ----------------------------------------------------------------------

  /** The actions a call has left, at most. */
  function ActionsLeft(call: Call): nat {
    4 * |call.queue| - (match call.pc case Begin => 0 case Deliver => if call.queue == [] then 0 else 1
                        case Finish => if call.queue == [] then 0 else 2 case Signal => if call.queue == [] then 0 else 3)
  }

  predicate OnlyRuns(steps: seq<Step>) {
    forall i | 0 <= i < |steps| :: steps[i].Run?
  }

  lemma PassedShortens(calls: map<CallId, Call>, c: CallId)
    requires c in calls && calls[c].queue != []
    ensures var rest := Passed(calls, c);
            && rest.Keys <= calls.Keys && calls.Keys - {c} <= rest.Keys
            && (forall d | d in rest && d != c :: rest[d] == calls[d])
            && (c in rest ==> ActionsLeft(rest[c]) < ActionsLeft(calls[c]))
  {
  }

  lemma InFlightCanGoOn(s: State, c: CallId)
    requires Inv(s) && c in s.calls
    ensures Enabled(s, Run(c))
  {
    hide Handed, RequestsOk, HandlesOk, FetchOk, IsTerminal;
    assert CallOk(s.calls[c], c, s.requests);
  }

  lemma ActionShortensCall(s: State, c: CallId)
    requires Enabled(s, Run(c))
    ensures var t := RunCall(s, c);
            && t.calls.Keys <= s.calls.Keys && s.calls.Keys - {c} <= t.calls.Keys
            && (forall d | d in t.calls && d != c :: t.calls[d] == s.calls[d])
            && (c in t.calls ==> ActionsLeft(t.calls[c]) < ActionsLeft(s.calls[c]))
  {
    hide Handed, Passed, IsTerminal;
    PassedShortens(s.calls, c);
  }

  lemma ActionKeepsTheRest(s: State, c: CallId)
    requires Enabled(s, Run(c))
    ensures var t := RunCall(s, c);
            && t.end == s.end && t.joined == s.joined && t.left == s.left
            && t.held == s.held && t.open == s.open && t.requests.Keys == s.requests.Keys
  {
    hide Handed, Passed, IsTerminal;
  }

  /** A call in flight can always go on, and each action brings it nearer its end without touching
      any other call. */
  lemma RunShortensCall(s: State, c: CallId)
    requires Inv(s) && c in s.calls
    ensures Enabled(s, Run(c))
    ensures var t := Apply(s, Run(c));
            && t.calls.Keys <= s.calls.Keys && s.calls.Keys - {c} <= t.calls.Keys
            && (forall d | d in t.calls && d != c :: t.calls[d] == s.calls[d])
            && (c in t.calls ==> ActionsLeft(t.calls[c]) < ActionsLeft(s.calls[c]))
            && t.end == s.end && t.joined == s.joined && t.left == s.left
            && t.held == s.held && t.open == s.open && t.requests.Keys == s.requests.Keys
  {
    hide Inv, Enabled, RunCall, ActionsLeft;
    InFlightCanGoOn(s, c);
    ActionShortensCall(s, c);
    ActionKeepsTheRest(s, c);
  }

  lemma Then(s: State, step: Step, more: seq<Step>)
    requires Enabled(s, step) && CanRun(Apply(s, step), more)
    ensures CanRun(s, [step] + more) && After(s, [step] + more) == After(Apply(s, step), more)
  {
    hide Apply, Enabled;
    assert ([step] + more)[1..] == more;
  }

  lemma NoSteps(s: State)
    ensures CanRun(s, []) && After(s, []) == s
  {
  }

  /** A fetch just begun by request 0, which counts as no work. */
  function FetchOfZero(): State {
    State(map[0 := NewRequest(false, false)], map[], {0}, true, 0, [0], None, {0}, {})
  }

  lemma CanRunJoin(s: State, a: seq<Step>, b: seq<Step>)
    requires CanRun(s, a) && CanRun(After(s, a), b)
    ensures CanRun(s, a + b) && After(s, a + b) == After(After(s, a), b)
    decreases |a|
  {
    hide Apply, Enabled;
    if a == [] {
      assert a + b == b;
    } else {
      assert (a + b)[1..] == a[1..] + b && (a + b)[0] == a[0];
      CanRunJoin(Apply(s, a[0]), a[1..], b);
    }
  }

  /** Whatever is in flight, letting the calls go on empties them. */
  lemma CallsRunOut(s: State) returns (steps: seq<Step>)
    requires Inv(s)
    ensures OnlyRuns(steps) && CanRun(s, steps) && After(s, steps).calls == map[]
    ensures After(s, steps).end == s.end
    ensures After(s, steps).joined == s.joined && After(s, steps).left == s.left
    ensures After(s, steps).held == s.held && After(s, steps).open == s.open
    ensures After(s, steps).requests.Keys == s.requests.Keys
    decreases |s.calls.Keys|
  {
    if s.calls == map[] {
      return [];
    }
    var c :| c in s.calls;
    steps := CallRunsOut(s, c);
  }

  lemma CallRunsOut(s: State, c: CallId) returns (steps: seq<Step>)
    requires Inv(s) && c in s.calls
    ensures OnlyRuns(steps) && CanRun(s, steps) && After(s, steps).calls == map[]
    ensures After(s, steps).end == s.end
    ensures After(s, steps).joined == s.joined && After(s, steps).left == s.left
    ensures After(s, steps).held == s.held && After(s, steps).open == s.open
    ensures After(s, steps).requests.Keys == s.requests.Keys
    decreases |s.calls.Keys|, ActionsLeft(s.calls[c])
  {
    hide Inv, Enabled, Apply, ActionsLeft;
    RunShortensCall(s, c);
    StepKeeps(s, Run(c));
    var t := Apply(s, Run(c));
    var rest;
    if c in t.calls {
      assert t.calls.Keys == s.calls.Keys;
      rest := CallRunsOut(t, c);
    } else {
      assert t.calls.Keys == s.calls.Keys - {c} && c in s.calls.Keys;
      assert |t.calls.Keys| < |s.calls.Keys|;
      rest := CallsRunOut(t);
    }
    steps := [Run(c)] + rest;
    assert steps[1..] == rest;
  }

  /** From any state of any run in which the fetch has ended, the calls in flight bring every
      request that joined and stayed to exactly one end. */
  lemma EndedFetchEndsEveryRequest(begun: State, steps: seq<Step>) returns (more: seq<Step>)
    requires Init(begun) && CanRun(begun, steps) && After(begun, steps).end.Some?
    ensures OnlyRuns(more) && CanRun(begun, steps + more)
    ensures var s := After(begun, steps + more);
            && s.calls == map[]
            && forall id | id in After(begun, steps).joined - After(begun, steps).left ::
                 id in s.requests && Ends(s.requests[id].log) == 1 && s.requests[id].done == s.requests[id].active
  {
    hide Ends, Apply, Enabled, Inv;
    InitHolds(begun);
    RunsKeep(begun, steps);
    more := CallsRunOut(After(begun, steps));
    CanRunJoin(begun, steps, more);
    forall id | id in After(begun, steps).joined - After(begun, steps).left
      ensures var s := After(begun, steps + more);
              id in s.requests && Ends(s.requests[id].log) == 1 && s.requests[id].done == s.requests[id].active
    {
      FetchEndReachesEveryRequest(begun, steps + more, id);
    }
  }

  // ----- Everyone can be ended --------------------------------------------------------------

  /** Letting go of every request that somebody holds. */
  lemma {:induction false} HoldersCanLetGo(s: State) returns (steps: seq<Step>)
    requires Inv(s)
    ensures CanRun(s, steps) && After(s, steps) == s.(held := {})
    decreases |s.held|
  {
    hide Inv;
    if s.held == {} {
      NoSteps(s);
      return [];
    }
    var id :| id in s.held;
    StepKeeps(s, Release(id));
    var t := s.(held := s.held - {id});
    var rest := HoldersCanLetGo(t);
    Then(s, Release(id), rest);
    steps := [Release(id)] + rest;
  }

  function Undropped(s: State): set<Id> {
    set id | id in s.requests && !s.requests[id].dropped
  }

  lemma DroppingOne(s: State, id: Id)
    requires Inv(s) && s.calls == map[] && s.held == {} && !s.open && id in Undropped(s)
    ensures Enabled(s, Drop(id))
    ensures var t := Apply(s, Drop(id));
            && t.calls == map[] && t.held == {} && !t.open && t.requests.Keys == s.requests.Keys
            && Undropped(t) == Undropped(s) - {id}
  {
    hide Inv;
  }

  /** When nobody holds on to anything, every request can be dropped. */
  lemma {:induction false} AllCanBeDropped(s: State) returns (steps: seq<Step>)
    requires Inv(s) && s.calls == map[] && s.held == {} && !s.open
    ensures CanRun(s, steps)
    ensures After(s, steps).requests.Keys == s.requests.Keys && Undropped(After(s, steps)) == {}
    decreases |Undropped(s)|
  {
    hide Inv, Undropped, Apply;
    if Undropped(s) == {} {
      NoSteps(s);
      return [];
    }
    var id :| id in Undropped(s);
    DroppingOne(s, id);
    StepKeeps(s, Drop(id));
    var rest := AllCanBeDropped(Apply(s, Drop(id)));
    Then(s, Drop(id), rest);
    steps := [Drop(id)] + rest;
  }

  lemma SharedCanClose(s: State) returns (steps: seq<Step>)
    requires Inv(s)
    ensures CanRun(s, steps) && Inv(After(s, steps)) && !After(s, steps).open
    ensures After(s, steps).requests == s.requests && After(s, steps).held == s.held
  {
    hide Inv;
    NoSteps(s);
    steps := [];
    if s.open {
      StepKeeps(s, CloseShared);
      NoSteps(Apply(s, CloseShared));
      Then(s, CloseShared, []);
      steps := [CloseShared] + [];
    }
  }

  /** From any state, letting go of everything brings every request to be dropped. */
  lemma EveryoneCanBeDropped(s: State) returns (steps: seq<Step>)
    requires Inv(s)
    ensures CanRun(s, steps)
    ensures After(s, steps).requests.Keys == s.requests.Keys && Undropped(After(s, steps)) == {}
  {
    hide Inv, CanRun, After, Undropped;
    var a := HoldersCanLetGo(s);
    RunsKeep(s, a);
    var b := SharedCanClose(After(s, a));
    CanRunJoin(s, a, b);
    var t := After(s, a + b);
    var c := CallsRunOut(t);
    RunsKeep(t, c);
    CanRunJoin(s, a + b, c);
    var d := AllCanBeDropped(After(t, c));
    CanRunJoin(s, a + b + c, d);
    steps := a + b + c + d;
  }

  /** Every state of every run has a continuation after which every request there is has had exactly one
      end, and its work has been done as often as it was begun. */
  lemma EveryoneCanBeEnded(begun: State, steps: seq<Step>) returns (more: seq<Step>)
    requires Init(begun) && CanRun(begun, steps)
    ensures CanRun(begun, steps + more)
    ensures var s := After(begun, steps + more);
            && s.requests.Keys == After(begun, steps).requests.Keys
            && forall id | id in s.requests ::
                 Ends(s.requests[id].log) == 1 && s.requests[id].done == s.requests[id].active
  {
    hide Ends, Apply, Enabled, Inv;
    InitHolds(begun);
    RunsKeep(begun, steps);
    more := EveryoneCanBeDropped(After(begun, steps));
    CanRunJoin(begun, steps, more);
    RunsKeep(begun, steps + more);
    var s := After(begun, steps + more);
    forall id | id in s.requests
      ensures Ends(s.requests[id].log) == 1 && s.requests[id].done == s.requests[id].active
    {
      assert s.requests[id].dropped by {
        assert id !in Undropped(s);
      }
      DroppedHasEnded(s, id);
    }
  }

  lemma DroppedHasEnded(s: State, id: Id)
    requires Inv(s) && id in s.requests && s.requests[id].dropped
    ensures Ends(s.requests[id].log) == 1 && s.requests[id].done == s.requests[id].active
  {
    hide Ends, CallsOk, HandlesOk, FetchOk;
    assert RequestOk(s.requests[id], id, s.calls);
  }

  // ----- Nothing after the end --------------------------------------------------------------

  /** A call has seen the request not ended and still has an event to deliver to it. */
  predicate Overlaps(s: State, id: Id) {
    exists c | c in s.calls ::
      s.calls[c].queue != [] && s.calls[c].queue[0] == id && s.calls[c].pc == Deliver && !IsTerminal(s.calls[c].ev)
  }

  /** The request has ended, nothing came after its end and nothing is on its way. */
  predicate Sealed(s: State, id: Id) {
    id in s.requests && s.requests[id].ended && EndComesLast(s.requests[id].log) && !Overlaps(s, id)
  }

  lemma {:induction false} NoEndsNoTerminal(log: seq<Event>)
    requires Ends(log) == 0
    ensures forall i | 0 <= i < |log| :: !IsTerminal(log[i])
  {
    if log != [] {
      NoEndsNoTerminal(log[..|log| - 1]);
    }
  }

  lemma OtherCallsStay(s: State, c: CallId)
    requires Enabled(s, Run(c))
    ensures var t := Apply(s, Run(c));
            forall d | d in t.calls && d != c :: d in s.calls && t.calls[d] == s.calls[d]
  {
    hide Handed, IsTerminal;
    match s.calls[c].pc
    case Begin =>
    case Deliver =>
    case Finish =>
    case Signal =>
  }

  /** A call that looks at an ended request delivers nothing more to it. */
  lemma NoNewOverlap(s: State, id: Id, c: CallId)
    requires Enabled(s, Run(c)) && id in s.requests && s.requests[id].ended && !Overlaps(s, id)
    ensures !Overlaps(Apply(s, Run(c)), id)
  {
    hide Handed, IsTerminal;
    var t := Apply(s, Run(c));
    OtherCallsStay(s, c);
  }

  lemma SealedLog(s: State, id: Id, c: CallId)
    requires Inv(s) && Sealed(s, id) && Enabled(s, Run(c))
    ensures var t := Apply(s, Run(c));
            id in t.requests && t.requests[id].ended && EndComesLast(t.requests[id].log)
  {
    hide Inv, Handed, Passed;
    if s.calls[c].pc == Deliver && s.calls[c].queue[0] == id && IsTerminal(s.calls[c].ev) {
      NotYetEnded(s, c);
    }
  }

  /** While an end is still to be delivered none has been. */
  lemma NotYetEnded(s: State, c: CallId)
    requires Inv(s) && Enabled(s, Run(c)) && s.calls[c].pc == Deliver && IsTerminal(s.calls[c].ev)
    ensures forall i | 0 <= i < |s.requests[s.calls[c].queue[0]].log| ::
              !IsTerminal(s.requests[s.calls[c].queue[0]].log[i])
  {
    hide Handed, HandlesOk, FetchOk, Ends;
    var id := s.calls[c].queue[0];
    assert CallOk(s.calls[c], c, s.requests) && RequestOk(s.requests[id], id, s.calls);
    NoEndsNoTerminal(s.requests[id].log);
  }

  lemma StepKeepsSealed(s: State, step: Step, id: Id)
    requires Inv(s) && Sealed(s, id) && Enabled(s, step)
    ensures Sealed(Apply(s, step), id)
  {
    hide Inv, RunCall, EndComesLast;
    if step.Run? {
      hide Overlaps;
      SealedLog(s, id, step.call);
      NoNewOverlap(s, id, step.call);
    } else {
      var t := Apply(s, step);
      assert forall d | d in t.calls :: (d in s.calls && t.calls[d] == s.calls[d]) || t.calls[d].pc == Begin;
    }
  }

  lemma {:induction false} SealedForGood(s: State, steps: seq<Step>, id: Id)
    requires Inv(s) && Sealed(s, id) && CanRun(s, steps)
    ensures Sealed(After(s, steps), id)
    decreases |steps|
  {
    hide Inv, Sealed, Apply, Enabled;
    if steps != [] {
      StepKeeps(s, steps[0]);
      StepKeepsSealed(s, steps[0], id);
      SealedForGood(Apply(s, steps[0]), steps[1..], id);
    }
  }

  /** The call `c` is about to end its first request. */
  predicate AboutToEnd(s: State, c: CallId) {
    && Enabled(s, Run(c)) && s.calls[c].pc == Begin && IsTerminal(s.calls[c].ev)
    && !s.requests[s.calls[c].queue[0]].ended
  }

  lemma SwapSeals(s: State, c: CallId)
    requires Inv(s) && AboutToEnd(s, c) && !Overlaps(s, s.calls[c].queue[0])
    ensures Sealed(Apply(s, Run(c)), s.calls[c].queue[0])
  {
    hide Inv, Handed, EndComesLast;
    Swaps(s, c);
    SwapKeepsLog(s, c);
    var t := Apply(s, Run(c));
    assert forall d | d in t.calls && d != c :: t.calls[d] == s.calls[d];
  }

  lemma SwapKeepsLog(s: State, c: CallId)
    requires Inv(s) && AboutToEnd(s, c)
    ensures var r := Apply(s, Run(c)).requests[s.calls[c].queue[0]];
            r.ended && EndComesLast(r.log)
  {
    hide HandlesOk, FetchOk, Handed, Ends;
    EndIsHanded(s, c);
    var id := s.calls[c].queue[0];
    assert CallOk(s.calls[c], c, s.requests);
    assert RequestOk(s.requests[id], id, s.calls);
    NoEndsNoTerminal(s.requests[id].log);
  }

  lemma TwoSteps(s: State, a: Step, b: Step)
    requires Enabled(s, a) && Enabled(Apply(s, a), b)
    ensures CanRun(s, [a, b]) && After(s, [a, b]) == Apply(Apply(s, a), b)
  {
    hide Enabled, Apply;
    assert [a, b][1..] == [b] && [b][1..] == [];
    assert CanRun(Apply(s, a), [b]) && After(Apply(s, a), [b]) == Apply(Apply(s, a), b);
  }

  /** Delivering an event puts it at the end of the request's log and leaves other calls alone. */
  lemma Delivers(s: State, c: CallId)
    requires Enabled(s, Run(c)) && s.calls[c].pc == Deliver
    ensures var t := Apply(s, Run(c));
            var id := s.calls[c].queue[0];
            && id in t.requests && |t.requests[id].log| == |s.requests[id].log| + 1
            && t.requests[id].log[..|s.requests[id].log|] == s.requests[id].log
            && (Handed(s.calls[c]).Some? ==> t.requests[id].log[|s.requests[id].log|] == Handed(s.calls[c]).value)
            && forall d | d in s.calls && d != c :: d in t.calls && t.calls[d] == s.calls[d]
  {
    hide Handed;
  }

  lemma Swaps(s: State, c: CallId)
    requires Inv(s) && AboutToEnd(s, c)
    ensures var t := Apply(s, Run(c));
            && t.calls == s.calls[c := s.calls[c].(pc := Deliver)]
            && t.requests.Keys == s.requests.Keys
            && Handed(t.calls[c]).Some? && IsTerminal(Handed(t.calls[c]).value)
  {
    hide Inv, Handed;
    HandedIgnoresPc(s.calls[c], Deliver);
    EndIsHanded(s, c);
  }

  /** The swap, the delivery of the end, and then the delivery that had been under way. */
  lemma OverlapDeliversLate(s: State, c: CallId, d: CallId)
    requires Inv(s) && AboutToEnd(s, c)
    requires d in s.calls && s.calls[d].queue != [] && s.calls[d].queue[0] == s.calls[c].queue[0]
    requires s.calls[d].pc == Deliver && !IsTerminal(s.calls[d].ev)
    ensures var t := Apply(s, Run(c));
            var id := s.calls[c].queue[0];
            && CanRun(t, [Run(c), Run(d)])
            && id in After(t, [Run(c), Run(d)]).requests
            && !EndComesLast(After(t, [Run(c), Run(d)]).requests[id].log)
  {
    hide Inv, Apply, Handed;
    var id := s.calls[c].queue[0];
    Swaps(s, c);
    var first := Apply(s, Run(c));
    Delivers(first, c);
    var second := Apply(first, Run(c));
    Delivers(second, d);
    TwoSteps(first, Run(c), Run(d));
    var third := Apply(second, Run(d));
    var n := |first.requests[id].log|;
    assert third.requests[id].log[n] == second.requests[id].log[n];
  }

  lemma EndIsHanded(s: State, c: CallId)
    requires Inv(s) && AboutToEnd(s, c)
    ensures Handed(s.calls[c]).Some? && IsTerminal(Handed(s.calls[c]).value)
  {
    hide HandlesOk, FetchOk, RequestsOk;
    CopyIsIdempotent(s.calls[c].ev);
    assert CallOk(s.calls[c], c, s.requests);
    HandedKind(s.calls[c]);
  }

  /** The observer can be told something after a request's end exactly when, at the swap that ended
      it, another call had already seen the request not ended and not yet delivered its event. Where
      a call of `on_event` is not interrupted that never is: nothing comes after the end. */
  lemma LateEventIffDeliveryUnderWay(begun: State, steps: seq<Step>, c: CallId)
    requires Init(begun) && CanRun(begun, steps) && AboutToEnd(After(begun, steps), c)
    ensures var s := After(begun, steps);
            var id := s.calls[c].queue[0];
            Overlaps(s, id)
            <==> exists more ::
                   && CanRun(Apply(s, Run(c)), more)
                   && id in After(Apply(s, Run(c)), more).requests
                   && !EndComesLast(After(Apply(s, Run(c)), more).requests[id].log)
  {
    hide Inv, Apply;
    InitHolds(begun);
    RunsKeep(begun, steps);
    var s := After(begun, steps);
    var id := s.calls[c].queue[0];
    StepKeeps(s, Run(c));
    var t := Apply(s, Run(c));
    if Overlaps(s, id) {
      var d :| d in s.calls && s.calls[d].queue != [] && s.calls[d].queue[0] == id && s.calls[d].pc == Deliver
               && !IsTerminal(s.calls[d].ev);
      OverlapDeliversLate(s, c, d);
      LateWitness(t, [Run(c), Run(d)], id);
    } else {
      SwapSeals(s, c);
      forall more | CanRun(t, more) && id in After(t, more).requests
        ensures EndComesLast(After(t, more).requests[id].log)
      {
        SealedForGood(t, more, id);
      }
    }
  }

  lemma LateWitness(t: State, more: seq<Step>, id: Id)
    requires CanRun(t, more) && id in After(t, more).requests && !EndComesLast(After(t, more).requests[id].log)
    ensures exists more ::
              && CanRun(t, more) && id in After(t, more).requests
              && !EndComesLast(After(t, more).requests[id].log)
  {
  }

  /** The events an observer was told stand in order so far: nothing after an end, and once the request
      has ended or been dropped nothing on its way. */
  predicate Orderly(s: State, id: Id) {
    id in s.requests ==>
      && EndComesLast(s.requests[id].log)
      && (s.requests[id].ended || s.requests[id].dropped ==> !Overlaps(s, id))
  }

  /** A delivery is under way to a request that another call is just ending. */
  predicate Races(s: State, step: Step, id: Id) {
    step.Run? && AboutToEnd(s, step.call) && s.calls[step.call].queue[0] == id && Overlaps(s, id)
  }

  /** No call in flight is for a request that was dropped. */
  lemma DroppedIsLeftAlone(s: State, id: Id)
    requires Inv(s) && id in s.requests && s.requests[id].dropped
    ensures forall c | c in s.calls :: id !in s.calls[c].queue
    ensures !Overlaps(s, id)
  {
    hide RequestsOk, HandlesOk, FetchOk, Handed;
    forall c | c in s.calls
      ensures id !in s.calls[c].queue
    {
      assert CallOk(s.calls[c], c, s.requests);
    }
  }

  /** A request that has not ended and was not dropped was told of no end yet. */
  lemma OpenRequestHasNoEnd(s: State, id: Id)
    requires Inv(s) && id in s.requests && !s.requests[id].ended && !s.requests[id].dropped
    ensures forall i | 0 <= i < |s.requests[id].log| :: !IsTerminal(s.requests[id].log[i])
  {
    hide CallsOk, HandlesOk, FetchOk, Ends;
    assert RequestOk(s.requests[id], id, s.calls);
    NoEndsNoTerminal(s.requests[id].log);
  }

  /** What one step does to what a request was told: nothing, or one event more. */
  predicate TellsAtMostOne(before: Request, after: Request) {
    && (before.dropped ==> after.dropped)
    && (after.log == before.log
        || (|after.log| == |before.log| + 1 && after.log[..|before.log|] == before.log))
  }

  lemma RunTellsOne(s: State, c: CallId, id: Id)
    requires Enabled(s, Run(c)) && id in s.requests
    ensures var t := RunCall(s, c);
            && id in t.requests && TellsAtMostOne(s.requests[id], t.requests[id])
            && (t.requests[id].ended && !s.requests[id].ended ==> AboutToEnd(s, c) && s.calls[c].queue[0] == id)
            && (t.requests[id].log != s.requests[id].log ==> s.calls[c].queue[0] == id)
  {
    hide Handed, IsTerminal, Passed;
  }

  lemma OtherStepTellsOne(s: State, step: Step, id: Id)
    requires Enabled(s, step) && !step.Run? && id in s.requests
    ensures var t := Apply(s, step);
            && id in t.requests && TellsAtMostOne(s.requests[id], t.requests[id])
            && t.requests[id].ended == s.requests[id].ended
            && (t.requests[id].log != s.requests[id].log ==> step == Drop(id))
  {
    hide RunCall, IsTerminal, Copy, Started, Passed, Without;
  }

  /** One step tells a request of one event at most, and ends it by a swap only. */
  lemma StepTellsOne(s: State, step: Step, id: Id)
    requires Enabled(s, step) && id in s.requests
    ensures var t := Apply(s, step);
            && id in t.requests && TellsAtMostOne(s.requests[id], t.requests[id])
            && (t.requests[id].ended && !s.requests[id].ended ==>
                  step.Run? && AboutToEnd(s, step.call) && s.calls[step.call].queue[0] == id)
            && (t.requests[id].log != s.requests[id].log ==>
                  if step.Run? then s.calls[step.call].queue[0] == id else step == Drop(id))
  {
    hide RunCall, Enabled, TellsAtMostOne;
    if step.Run? {
      RunTellsOne(s, step.call, id);
    } else {
      OtherStepTellsOne(s, step, id);
    }
  }

  lemma StepKeepsOrder(s: State, step: Step, id: Id)
    requires Inv(s) && Enabled(s, step) && Orderly(s, id) && !Races(s, step, id)
    ensures Orderly(Apply(s, step), id)
  {
    hide Inv, Apply, Enabled, Overlaps, RunCall, IsTerminal;
    StepKeeps(s, step);
    var t := Apply(s, step);
    if id !in s.requests {
      if id in t.requests {
        NewRequestIsOrderly(s, step, id);
      }
    } else {
      StepTellsOne(s, step, id);
      if t.requests[id].dropped {
        DroppedIsLeftAlone(t, id);
      }
      if s.requests[id].ended && !s.requests[id].dropped {
        StepKeepsSealed(s, step, id);
      } else if s.requests[id].dropped {
        DroppedLogStays(s, step, id);
      } else {
        OpenRequestHasNoEnd(s, id);
        if t.requests[id].ended {
          SwapSeals(s, step.call);
          assert Sealed(t, id);
        }
      }
    }
  }

  lemma NewRequestIsOrderly(s: State, step: Step, id: Id)
    requires Inv(s) && Enabled(s, step) && id !in s.requests && id in Apply(s, step).requests
    ensures Orderly(Apply(s, step), id)
  {
    hide Inv, Handed, IsTerminal, Copy, Started, Passed;
  }

  lemma DroppedLogStays(s: State, step: Step, id: Id)
    requires Inv(s) && Enabled(s, step) && id in s.requests && s.requests[id].dropped
    ensures id in Apply(s, step).requests && Apply(s, step).requests[id].log == s.requests[id].log
  {
    hide Inv, Apply, IsTerminal;
    DroppedIsLeftAlone(s, id);
    StepTellsOne(s, step, id);
  }

  /** Whatever a request is told after an end, by a swap or by its drop, was under way when some swap
      of the run ended it: of two calls in flight one had looked and not yet delivered. */
  lemma {:induction false} LateEventWasUnderWay(s: State, steps: seq<Step>, id: Id) returns (n: nat)
    requires Inv(s) && Orderly(s, id) && CanRun(s, steps)
    requires id in After(s, steps).requests && !EndComesLast(After(s, steps).requests[id].log)
    ensures n < |steps| && CanRun(s, steps[..n]) && Races(After(s, steps[..n]), steps[n], id)
    decreases |steps|
  {
    hide Inv, Orderly, Races, Apply, Enabled, EndComesLast;
    n := 0;
    NoSteps(s);
    if steps == [] {
      OrderlyLog(s, id);
    } else if !Races(s, steps[0], id) {
      StepKeeps(s, steps[0]);
      StepKeepsOrder(s, steps[0], id);
      n := LateEventWasUnderWay(Apply(s, steps[0]), steps[1..], id);
      Then(s, steps[0], steps[1..][..n]);
      assert steps[..n + 1] == [steps[0]] + steps[1..][..n];
      n := n + 1;
    } else {
      assert steps[..0] == [];
    }
  }

  lemma OrderlyLog(s: State, id: Id)
    requires Orderly(s, id) && id in s.requests
    ensures EndComesLast(s.requests[id].log)
  {
  }

  /** Over every run: if an observer was told something after an end, then at some point of the run a
      call ended that request while another had looked and not yet delivered. */
  lemma LateEventNeedsARace(begun: State, steps: seq<Step>, id: Id)
    requires Init(begun) && CanRun(begun, steps)
    requires id in After(begun, steps).requests && !EndComesLast(After(begun, steps).requests[id].log)
    ensures exists n | 0 <= n < |steps| :: CanRun(begun, steps[..n]) && Races(After(begun, steps[..n]), steps[n], id)
  {
    hide Inv, Races, After;
    InitHolds(begun);
    assert Orderly(begun, id);
    var n := LateEventWasUnderWay(begun, steps, id);
  }

  /** A call that has looked at request 0, and another just begun that will end it. */
  lemma ARaceBegins() returns (steps: seq<Step>)
    ensures steps == [Report(1, Progress(5)), Run(1), Observe(2, 0, Cancelled("x"))] && CanRun(FetchOfZero(), steps)
    ensures var s := After(FetchOfZero(), steps);
            && s.calls == map[1 := Call(Progress(5), [0], Deliver, true), 2 := Call(Cancelled("x"), [0], Begin, false)]
            && s.requests == map[0 := NewRequest(false, false)]
  {
    hide CanRun, After, Join;
    var begun, observe := FetchOfZero(), Observe(2, 0, Cancelled("x"));
    var a := Apply(begun, Report(1, Progress(5)));
    assert a.calls == map[1 := Call(Progress(5), [0], Begin, true)];
    var b := Apply(a, Run(1));
    assert b.calls == map[1 := Call(Progress(5), [0], Deliver, true)];
    var c := Apply(b, observe);
    NoSteps(c);
    Then(b, observe, []);
    assert [observe] + [] == [observe];
    Then(a, Run(1), [observe]);
    assert [Run(1)] + [observe] == [Run(1), observe];
    Then(begun, Report(1, Progress(5)), [Run(1), observe]);
    steps := [Report(1, Progress(5)), Run(1), observe];
    assert [Report(1, Progress(5))] + [Run(1), observe] == steps;
  }

  /** The end is delivered first, and then what had been under way. */
  lemma TheRaceIsLost(s: State)
    requires s.calls == map[1 := Call(Progress(5), [0], Deliver, true), 2 := Call(Cancelled("x"), [0], Begin, false)]
    requires s.requests == map[0 := NewRequest(false, false)]
    ensures var steps := [Run(2), Run(2), Run(1)];
            && CanRun(s, steps) && 0 in After(s, steps).requests
            && After(s, steps).requests[0].log == [Accepted(false), Cancelled("x"), Progress(5)]
  {
    hide CanRun, After, Join;
    var progress, end := Call(Progress(5), [0], Deliver, true), Call(Cancelled("x"), [0], Begin, false);
    var t := Apply(s, Run(2));
    assert t.calls == map[1 := progress, 2 := end.(pc := Deliver)];
    var u := Apply(t, Run(2));
    assert u.calls == map[1 := progress, 2 := end.(pc := Finish)];
    assert u.requests[0].log == [Accepted(false), Cancelled("x")];
    var v := Apply(u, Run(1));
    NoSteps(v);
    Then(u, Run(1), []);
    assert [Run(1)] + [] == [Run(1)];
    Then(t, Run(2), [Run(1)]);
    assert [Run(2)] + [Run(1)] == [Run(2), Run(1)];
    Then(s, Run(2), [Run(2), Run(1)]);
    assert [Run(2)] + [Run(2), Run(1)] == [Run(2), Run(2), Run(1)];
  }

  /** A run to such a point, and on to an observer that is told something after the end. */
  lemma LateEventHappens()
    ensures Init(FetchOfZero())
    ensures var steps := [Report(1, Progress(5)), Run(1), Observe(2, 0, Cancelled("x"))];
            && CanRun(FetchOfZero(), steps)
            && AboutToEnd(After(FetchOfZero(), steps), 2) && Overlaps(After(FetchOfZero(), steps), 0)
    ensures var steps := [Report(1, Progress(5)), Run(1), Observe(2, 0, Cancelled("x")), Run(2), Run(2), Run(1)];
            && CanRun(FetchOfZero(), steps) && 0 in After(FetchOfZero(), steps).requests
            && After(FetchOfZero(), steps).requests[0].log == [Accepted(false), Cancelled("x"), Progress(5)]
            && !EndComesLast(After(FetchOfZero(), steps).requests[0].log)
  {
    hide CanRun, After;
    var head := ARaceBegins();
    var tail := [Run(2), Run(2), Run(1)];
    var s := After(FetchOfZero(), head);
    assert s.calls[1].pc == Deliver;
    TheRaceIsLost(s);
    CanRunJoin(FetchOfZero(), head, tail);
    assert head + tail == [Report(1, Progress(5)), Run(1), Observe(2, 0, Cancelled("x")), Run(2), Run(2), Run(1)];
    var log := [Accepted(false), Cancelled("x"), Progress(5)];
    assert IsTerminal(log[1]);
  }
}
