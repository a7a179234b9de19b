/** The objects of the lifecycle protocol, one whole call after another: what `Lifecycle` and `Shared`
    do when nothing interleaves. `Lifecycle` has the same calls cut at their atomic actions. */
module LifecycleObjects {
  import opened Text
  import P = Lifecycle
  import R = LifecycleRuns

  type Event = P.Event

  /** What a request is to those outside it. */
  datatype Account = Account(work: bool, ended: bool, signalled: bool, log: seq<Event>, active: nat, done: nat)

  function ViewOf(r: P.Request): Account {
    Account(r.work, r.ended, r.signalled, r.log, r.active, r.done)
  }

  /** A request once it has been told of an event, by one call from start to end. */
  function Told(v: Account, ev: Event): Account {
    if v.ended then v
    else if P.IsTerminal(ev) then
      v.(ended := true, signalled := true, log := v.log + [ev], done := if v.work then v.done + 1 else v.done)
    else v.(log := v.log + [ev])
  }

  function Accepted(joined: bool, work: bool): Account {
    ViewOf(P.NewRequest(joined, work))
  }

  class Lifecycle {
    const work: bool
    var ended: bool
    var signalled: bool
    var log: seq<Event>
    var active: nat
    var done: nat

    function View(): Account
      reads this
    {
      Account(work, ended, signalled, log, active, done)
    }

    constructor Accept(joined: bool, work: bool)
      ensures this.View() == Accepted(joined, work)
    {
      this.work, ended, signalled := work, false, false;
      active, done := if work then 1 else 0, 0;
      log := [P.Accepted(joined)];
    }

    method Done()
      modifies this`done
      ensures done == if work then old(done) + 1 else old(done)
    {
      if work {
        done := done + 1;
      }
    }

    method OnEvent(ev: Event)
      modifies this
      ensures View() == Told(old(View()), ev)
    {
      var terminal := P.IsTerminal(ev);
      if terminal {
        var swapped := ended;
        ended := true;
        if swapped {
          return;
        }
      } else if ended {
        return;
      }
      log := log + [ev];
      if terminal {
        Done();
        signalled := true;
      }
    }

    /** Letting go of a request without an end cancels it. */
    method Drop()
      modifies this
      ensures old(ended) ==> View() == old(View())
      ensures !old(ended) ==>
                View() == Told(old(View()), P.Cancelled("request dropped before it ended"))
                          .(ended := false, signalled := old(signalled))
    {
      if !ended {
        log := log + [P.Cancelled("request dropped before it ended")];
        Done();
      }
    }
  }

  // ----- The observer of a shared fetch -----------------------------------------------------

  /** The event a request of the list is handed: a copy, or the event itself for the last. */
  function HandedOn(ev: Event, last: bool): Option<Event> {
    if last then Some(ev) else P.Copy(ev)
  }

  /** A request once everyone in the queue has been handed the event. */
  function ToldFrom<T(==)>(v: Account, queue: seq<T>, request: T, ev: Event): Account
    decreases |queue|
  {
    if queue == [] then v
    else
      var next := if queue[0] != request then v
                  else match HandedOn(ev, |queue| == 1) case Some(handed) => Told(v, handed) case None => v;
      ToldFrom(next, queue[1..], request, ev)
  }

  /** The event concerns everyone attached. */
  predicate ForAll(ev: Event) {
    P.IsTerminal(ev) || ev.Progress?
  }

  /** Place `i` is where its request is told: the first it stands at, and the only one unless the
      event is an end. */
  predicate TellingPlace<T(==)>(queue: seq<T>, i: nat, ev: Event) {
    && i < |queue|
    && (forall j | 0 <= j < i :: queue[j] != queue[i])
    && (P.IsTerminal(ev) || forall j | i < j < |queue| :: queue[j] != queue[i])
  }

  /** A request that has ended is left alone; any other is told of one event more, a copy of `ev`, or `ev`
      itself if it is the last; and an end ends it, with its work done and its signal given. */
  predicate TellsOnce(before: Account, after: Account, ev: Event, last: bool) {
    if before.ended then after == before
    else
      && |after.log| == |before.log| + 1 && after.log[..|before.log|] == before.log
      && (var told := after.log[|before.log|];
          && P.CopyOf(told, ev) && (last ==> told == ev)
          && (told.Finished? <==> ev.Finished?) && (told.Failed? <==> ev.Failed?)
          && (told.Cancelled? <==> ev.Cancelled?) && (told.Progress? <==> ev.Progress?))
      && after.work == before.work && after.active == before.active
      && (if ev.Finished? || ev.Failed? || ev.Cancelled? then
            after.ended && after.signalled && after.done == before.done + (if before.work then 1 else 0)
          else
            !after.ended && after.signalled == before.signalled && after.done == before.done)
  }

  lemma TellsOnceWhenHanded(v: Account, ev: Event, last: bool)
    requires ForAll(ev)
    ensures HandedOn(ev, last).Some?
    ensures TellsOnce(v, Told(v, HandedOn(ev, last).value), ev, last)
  {
    hide Join;
    P.CopyIsIdempotent(ev);
  }

  lemma {:induction false} NotInQueueNotTold<T>(v: Account, queue: seq<T>, request: T, ev: Event)
    requires v.ended || request !in queue
    ensures ToldFrom(v, queue, request, ev) == v
    decreases |queue|
  {
    hide HandedOn;
    if queue != [] {
      NotInQueueNotTold(v, queue[1..], request, ev);
    }
  }

  /** Whoever is attached and has not ended is told of the event exactly once. */
  lemma {:induction false} EveryoneIsToldOnce<T>(v: Account, queue: seq<T>, ev: Event, at: nat)
    requires ForAll(ev) && TellingPlace(queue, at, ev)
    ensures TellsOnce(v, ToldFrom(v, queue, queue[at], ev), ev, at + 1 == |queue|)
    decreases |queue|
  {
    hide Told, HandedOn, TellsOnce;
    var request, rest := queue[at], queue[1..];
    if at > 0 {
      assert rest[at - 1] == request && queue[0] != request;
      assert TellingPlace(rest, at - 1, ev) by {
        assert forall j | 0 <= j < |rest| :: rest[j] == queue[j + 1];
      }
      EveryoneIsToldOnce(v, rest, ev, at - 1);
    } else {
      TellsOnceWhenHanded(v, ev, |queue| == 1);
      var next := Told(v, HandedOn(ev, |queue| == 1).value);
      TellingEnds(v, next, ev, |queue| == 1);
      if !P.IsTerminal(ev) {
        assert forall j | 0 <= j < |rest| :: rest[j] == queue[j + 1];
      }
      NotInQueueNotTold(next, rest, request, ev);
    }
  }

  lemma TellingEnds(before: Account, after: Account, ev: Event, last: bool)
    requires TellsOnce(before, after, ev, last)
    ensures P.IsTerminal(ev) ==> after.ended
  {
  }

  class Shared {
    const leader: Lifecycle
    var attached: seq<Lifecycle>
    var end: Option<Event>

    constructor (leader: Lifecycle)
      ensures this.leader == leader && attached == [leader] && end == None
    {
      this.leader, attached, end := leader, [leader], None;
    }

    /** One that joins a fetch that has ended is told that end at once. */
    method Attach(request: Lifecycle)
      modifies this`attached, request
      ensures match end
              case None => attached == old(attached) + [request] && request.View() == old(request.View())
              case Some(end) =>
                && attached == old(attached)
                && request.View() == match P.Copy(end)
                                     case Some(ev) => Told(old(request.View()), ev)
                                     case None => old(request.View())
    {
      var told: Option<Event> := None;
      match end {
        case Some(ev) => told := P.Copy(ev);
        case None => attached := attached + [request];
      }
      if told.Some? {
        request.OnEvent(told.value);
      }
    }

    method Detach(request: Lifecycle)
      modifies this`attached
      ensures attached == Others(old(attached), request)
    {
      attached := Others(attached, request);
    }

    /** Progress and the end go to every request attached, the rest to the leader alone; an end is
        kept, and nobody is attached any more. */
    method OnEvent(ev: Event)
      modifies this, leader, attached
      ensures !ForAll(ev) ==>
                && leader.View() == Told(old(leader.View()), ev)
                && (forall r | r in old(attached) && r != leader :: r.View() == old(r.View()))
      ensures ForAll(ev) ==>
                && (forall r | r in old(attached) :: r.View() == ToldFrom(old(r.View()), old(attached), r, ev))
                && (leader !in old(attached) ==> leader.View() == old(leader.View()))
      ensures ForAll(ev) ==>
                forall i | 0 <= i < |old(attached)| && TellingPlace(old(attached), i, ev) ::
                  TellsOnce(old(attached[i].View()), old(attached)[i].View(), ev, i + 1 == |old(attached)|)
      ensures if P.IsTerminal(ev) then attached == [] && end == P.Copy(ev)
              else attached == old(attached) && end == old(end)
    {
      hide Told, TellsOnce, P.Copy, ToldFrom, TellingPlace;
      var shared := P.IsTerminal(ev) || ev.Progress?;
      if !shared {
        leader.OnEvent(ev);
        return;
      }
      var queue := attached;
      if P.IsTerminal(ev) {
        attached, end := [], P.Copy(ev);
      }
      HandOut(queue, ev);
      forall k | 0 <= k < |queue| && TellingPlace(queue, k, ev)
        ensures TellsOnce(old(attached[k].View()), queue[k].View(), ev, k + 1 == |queue|)
      {
        EveryoneIsToldOnce(old(attached[k].View()), queue, ev, k);
      }
    }
  }

  /** The loop over everyone who was attached. */
  method HandOut(queue: seq<Lifecycle>, ev: Event)
    modifies queue
    ensures forall r | r in queue :: r.View() == ToldFrom(old(r.View()), queue, r, ev)
  {
    hide Told, P.Copy;
    var i := 0;
    assert queue[0..] == queue;
    while i < |queue|
      invariant 0 <= i <= |queue|
      invariant forall r | r in queue ::
                  ToldFrom(r.View(), queue[i..], r, ev) == ToldFrom(old(r.View()), queue, r, ev)
    {
      assert queue[i..][1..] == queue[i + 1..];
      var handed := HandedOn(ev, i + 1 == |queue|);
      if handed.Some? {
        queue[i].OnEvent(handed.value);
      }
      i := i + 1;
    }
    assert queue[i..] == [];
  }

  function Others(requests: seq<Lifecycle>, request: Lifecycle): (r: seq<Lifecycle>)
    ensures forall i | 0 <= i < |r| :: r[i] in requests && r[i] != request
    ensures forall i | 0 <= i < |requests| && requests[i] != request :: requests[i] in r
  {
    if requests == [] then []
    else
      assert requests == [requests[0]] + requests[1..];
      (if requests[0] == request then [] else [requests[0]]) + Others(requests[1..], request)
  }

  // ----- Nothing after the end --------------------------------------------------------------

  function ToldAll(v: Account, evs: seq<Event>): Account {
    if evs == [] then v else Told(ToldAll(v, evs[..|evs| - 1]), evs[|evs| - 1])
  }

  /** The events up to and with the first end. */
  function UntilEnd(evs: seq<Event>): seq<Event> {
    if evs == [] then []
    else if P.IsTerminal(evs[0]) then [evs[0]]
    else [evs[0]] + UntilEnd(evs[1..])
  }

  predicate HasEnd(evs: seq<Event>) {
    exists i | 0 <= i < |evs| :: P.IsTerminal(evs[i])
  }

  lemma {:induction false} UntilEndSnoc(evs: seq<Event>, ev: Event)
    ensures HasEnd(evs + [ev]) <==> HasEnd(evs) || P.IsTerminal(ev)
    ensures UntilEnd(evs + [ev]) == if HasEnd(evs) then UntilEnd(evs) else UntilEnd(evs) + [ev]
  {
    hide P.IsTerminal;
    var more := evs + [ev];
    assert more[|evs|] == ev && forall i | 0 <= i < |evs| :: more[i] == evs[i];
    if evs == [] {
      assert more == [ev] && more[1..] == [];
    } else {
      assert more[1..] == evs[1..] + [ev];
      UntilEndSnoc(evs[1..], ev);
      assert HasEnd(evs) <==> P.IsTerminal(evs[0]) || HasEnd(evs[1..]) by {
        assert forall i | 0 <= i < |evs| - 1 :: evs[1..][i] == evs[i + 1];
        if HasEnd(evs) && !P.IsTerminal(evs[0]) {
          var i :| 0 <= i < |evs| && P.IsTerminal(evs[i]);
          assert P.IsTerminal(evs[1..][i - 1]);
        }
      }
      if HasEnd(evs) {
        var i :| 0 <= i < |evs| && P.IsTerminal(evs[i]);
        assert P.IsTerminal(more[i]);
      }
    }
  }

  /** When calls do not overlap, the observer of a request sees it accepted and then exactly the
      events up to its first end, whatever comes after, and its work is done with that end. */
  lemma {:induction false} NothingAfterTheEnd(joined: bool, work: bool, evs: seq<Event>)
    ensures var v := ToldAll(Accepted(joined, work), evs);
            && v.log == [P.Accepted(joined)] + UntilEnd(evs)
            && (v.ended <==> HasEnd(evs)) && (v.signalled <==> HasEnd(evs))
            && v.work == work && v.active == (if work then 1 else 0)
            && v.done == (if work && HasEnd(evs) then 1 else 0)
  {
    hide HasEnd, UntilEnd, P.IsTerminal;
    if evs == [] {
      NothingTold();
    } else {
      var front, last := evs[..|evs| - 1], evs[|evs| - 1];
      assert evs == front + [last];
      NothingAfterTheEnd(joined, work, front);
      UntilEndSnoc(front, last);
    }
  }

  lemma NothingTold()
    ensures UntilEnd([]) == [] && !HasEnd([])
  {
  }

  // ----- Calls that nothing interleaves with ------------------------------------------------

  /** How many actions a call takes with the first request of its queue. */
  function Actions(s: P.State, c: P.CallId): nat
    requires P.Enabled(s, P.Run(c))
  {
    var call := s.calls[c];
    if P.Handed(call).None? || s.requests[call.queue[0]].ended then 1
    else if P.IsTerminal(call.ev) then 4
    else 2
  }

  function Runs(c: P.CallId, n: nat): seq<P.Step> {
    seq(n, _ => P.Run(c))
  }

  lemma RunsOn(s: P.State, c: P.CallId, n: nat)
    requires n > 0 && P.Enabled(s, P.Run(c)) && P.CanRun(P.RunCall(s, c), Runs(c, n - 1))
    ensures P.CanRun(s, Runs(c, n)) && P.After(s, Runs(c, n)) == P.After(P.RunCall(s, c), Runs(c, n - 1))
  {
    hide P.RunCall, P.Enabled;
    assert P.Apply(s, P.Run(c)) == P.RunCall(s, c);
    assert Runs(c, n)[1..] == Runs(c, n - 1);
  }

  /** One action: where the call and its first request are after it. */
  lemma OneAction(s: P.State, c: P.CallId)
    requires P.Enabled(s, P.Run(c)) && (s.calls[c].pc == P.Deliver ==> P.Handed(s.calls[c]).Some?)
    ensures var call, t := s.calls[c], P.RunCall(s, c);
            var id := call.queue[0];
            && id in t.requests
            && R.SameBut(s.requests, t.requests, id)
            && match call.pc
               case Begin =>
                 if P.Handed(call).None? || s.requests[id].ended then
                   t.calls == P.Passed(s.calls, c) && t.requests == s.requests
                 else
                   && t.calls == s.calls[c := call.(pc := P.Deliver)]
                   && ViewOf(t.requests[id]) == ViewOf(s.requests[id]).(ended := P.IsTerminal(call.ev))
               case Deliver =>
                 && ViewOf(t.requests[id]) == ViewOf(s.requests[id]).(log := s.requests[id].log + [P.Handed(call).value])
                 && t.calls == if P.IsTerminal(call.ev) then s.calls[c := call.(pc := P.Finish)] else P.Passed(s.calls, c)
               case Finish =>
                 && t.calls == s.calls[c := call.(pc := P.Signal)]
                 && var r := s.requests[id];
                    ViewOf(t.requests[id]) == ViewOf(r).(done := if r.work then r.done + 1 else r.done)
               case Signal =>
                 && t.calls == P.Passed(s.calls, c)
                 && ViewOf(t.requests[id]) == ViewOf(s.requests[id]).(signalled := true)
  {
    hide P.Handed, P.IsTerminal, P.Passed;
  }

  lemma PassedIgnoresPc(calls: map<P.CallId, P.Call>, c: P.CallId, pc: P.Pc)
    requires c in calls && calls[c].queue != []
    ensures P.Passed(calls[c := calls[c].(pc := pc)], c) == P.Passed(calls, c)
  {
    assert calls[c := calls[c].(pc := pc)] - {c} == calls - {c};
  }

  /** The whole call, by how many actions it takes. */
  ghost predicate TellsAfter(s: P.State, c: P.CallId, n: nat)
    requires P.Enabled(s, P.Run(c))
  {
    var id := s.calls[c].queue[0];
    && P.CanRun(s, Runs(c, n)) && id in P.After(s, Runs(c, n)).requests
    && P.After(s, Runs(c, n)).calls == P.Passed(s.calls, c)
    && R.SameBut(s.requests, P.After(s, Runs(c, n)).requests, id)
    && ViewOf(P.After(s, Runs(c, n)).requests[id])
       == match P.Handed(s.calls[c])
          case Some(ev) => Told(ViewOf(s.requests[id]), ev)
          case None => ViewOf(s.requests[id])
  }

  lemma OneActionTells(s: P.State, c: P.CallId)
    requires P.Enabled(s, P.Run(c)) && s.calls[c].pc == P.Begin
    requires P.Handed(s.calls[c]).None? || s.requests[s.calls[c].queue[0]].ended
    ensures TellsAfter(s, c, 1)
  {
    hide P.Handed, P.IsTerminal, P.Passed, P.RunCall, Runs;
    OneAction(s, c);
    NoMoreRuns(P.RunCall(s, c), c);
    RunsOn(s, c, 1);
  }

  lemma TwoActionsTell(s: P.State, c: P.CallId)
    requires P.Enabled(s, P.Run(c)) && s.calls[c].pc == P.Begin && !s.requests[s.calls[c].queue[0]].ended
    requires P.Handed(s.calls[c]).Some? && !P.IsTerminal(s.calls[c].ev) && !P.IsTerminal(P.Handed(s.calls[c]).value)
    ensures TellsAfter(s, c, 2)
  {
    hide P.Handed, P.IsTerminal, P.Passed, P.RunCall, Runs, R.SameBut;
    OneAction(s, c);
    var t := P.RunCall(s, c);
    P.HandedIgnoresPc(s.calls[c], P.Deliver);
    PassedIgnoresPc(s.calls, c, P.Deliver);
    OneAction(t, c);
    R.SameButTwice(s.requests, t.requests, P.RunCall(t, c).requests, s.calls[c].queue[0]);
    NoMoreRuns(P.RunCall(t, c), c);
    RunsOn(t, c, 1);
    RunsOn(s, c, 2);
  }

  lemma FourActionsTell(s: P.State, c: P.CallId)
    requires P.Enabled(s, P.Run(c)) && s.calls[c].pc == P.Begin && !s.requests[s.calls[c].queue[0]].ended
    requires P.Handed(s.calls[c]).Some? && P.IsTerminal(s.calls[c].ev) && P.IsTerminal(P.Handed(s.calls[c]).value)
    ensures TellsAfter(s, c, 4)
  {
    hide P.Handed, P.IsTerminal, P.Passed, P.RunCall, Runs, R.SameBut;
    var call, id := s.calls[c], s.calls[c].queue[0];
    OneAction(s, c);
    var t := P.RunCall(s, c);
    P.HandedIgnoresPc(call, P.Deliver);
    OneAction(t, c);
    var u := P.RunCall(t, c);
    assert u.calls == s.calls[c := call.(pc := P.Finish)];
    OneAction(u, c);
    var v := P.RunCall(u, c);
    assert v.calls == s.calls[c := call.(pc := P.Signal)];
    OneAction(v, c);
    R.SameButTwice(s.requests, t.requests, u.requests, id);
    R.SameButTwice(s.requests, u.requests, v.requests, id);
    R.SameButTwice(s.requests, v.requests, P.RunCall(v, c).requests, id);
    PassedIgnoresPc(s.calls, c, P.Signal);
    NoMoreRuns(P.RunCall(v, c), c);
    RunsOn(v, c, 1);
    RunsOn(u, c, 2);
    RunsOn(t, c, 3);
    RunsOn(s, c, 4);
  }

  /** A call run without a break tells the request what one whole call of the object tells it, in one
      action if there is nothing to tell, in two if the event is no end, in four if it is. */
  lemma UnbrokenCallTells(s: P.State, c: P.CallId)
    requires P.Inv(s) && P.Enabled(s, P.Run(c)) && s.calls[c].pc == P.Begin
    ensures TellsAfter(s, c, Actions(s, c))
  {
    hide P.Inv, P.Handed, P.IsTerminal, TellsAfter;
    HandsAnEnd(s, c);
    match Actions(s, c) {
      case 1 => OneActionTells(s, c);
      case 2 => TwoActionsTell(s, c);
      case _ => FourActionsTell(s, c);
    }
  }

  lemma NoMoreRuns(s: P.State, c: P.CallId)
    ensures P.CanRun(s, Runs(c, 0)) && P.After(s, Runs(c, 0)) == s
  {
  }

  lemma HandsAnEnd(s: P.State, c: P.CallId)
    requires P.Inv(s) && P.Enabled(s, P.Run(c))
    ensures P.Handed(s.calls[c]).Some? ==> (P.IsTerminal(P.Handed(s.calls[c]).value) <==> P.IsTerminal(s.calls[c].ev))
  {
    hide P.HandlesOk, P.FetchOk, P.Handed, P.IsTerminal;
    assert P.CallOk(s.calls[c], c, s.requests);
    if P.Handed(s.calls[c]).Some? {
      P.HandedKind(s.calls[c]);
    }
  }

  /** The rest of the queue, told by the call that is through with its first request. */
  lemma {:induction false} UnbrokenQueueTells(s: P.State, c: P.CallId) returns (n: nat)
    requires P.Inv(s) && c in s.calls && s.calls[c].pc == P.Begin
    ensures P.CanRun(s, Runs(c, n)) && P.After(s, Runs(c, n)).calls == s.calls - {c}
    ensures forall id | id in s.requests ::
              && id in P.After(s, Runs(c, n)).requests
              && ViewOf(P.After(s, Runs(c, n)).requests[id])
                 == ToldFrom(ViewOf(s.requests[id]), s.calls[c].queue, id, s.calls[c].ev)
    decreases |s.calls[c].queue|
  {
    hide P.Inv, P.Enabled, P.RunCall, P.CanRun, P.After, Told, P.Copy, Actions;
    R.InFlightCanGoOn(s, c);
    QueueIsNotEmpty(s, c);
    var call := s.calls[c];
    var first := Actions(s, c);
    UnbrokenCallTells(s, c);
    var t := P.After(s, Runs(c, first));
    P.RunsKeep(s, Runs(c, first));
    if |call.queue| == 1 {
      n := first;
      assert call.queue[1..] == [];
    } else {
      assert t.calls[c] == call.(queue := call.queue[1..], pc := P.Begin);
      var more := UnbrokenQueueTells(t, c);
      R.CanRunJoin(s, Runs(c, first), Runs(c, more));
      n := first + more;
      assert Runs(c, n) == Runs(c, first) + Runs(c, more);
      assert t.calls - {c} == s.calls - {c};
    }
  }

  lemma QueueIsNotEmpty(s: P.State, c: P.CallId)
    requires P.Inv(s) && c in s.calls
    ensures s.calls[c].queue != []
  {
    hide P.RequestsOk, P.HandlesOk, P.FetchOk, P.Handed;
    assert P.CallOk(s.calls[c], c, s.requests);
  }

  lemma {:induction false} RunsLeaveTheList(s: P.State, c: P.CallId, n: nat)
    requires P.CanRun(s, Runs(c, n))
    ensures var t := P.After(s, Runs(c, n)); t.attached == s.attached && t.end == s.end
    decreases n
  {
    hide P.RunCall;
    if n > 0 {
      assert Runs(c, n)[1..] == Runs(c, n - 1);
      RunLeavesTheList(s, c);
      RunsLeaveTheList(P.RunCall(s, c), c, n - 1);
    }
  }

  lemma RunLeavesTheList(s: P.State, c: P.CallId)
    requires P.Enabled(s, P.Run(c))
    ensures P.RunCall(s, c).attached == s.attached && P.RunCall(s, c).end == s.end
  {
  }

  /** A report of the fetch run without a break does in the transition system what the one call of
      the object does: everyone attached is told of progress or an end, the leader alone of anything
      else, and an end is kept and empties the list. */
  lemma UnbrokenReportTells(s: P.State, c: P.CallId, ev: Event) returns (n: nat)
    requires P.Inv(s) && P.Enabled(s, P.Report(c, ev))
    ensures var steps := [P.Report(c, ev)] + Runs(c, n);
            && P.CanRun(s, steps) && P.After(s, steps).calls == s.calls
            && (forall id | id in s.requests ::
                  && id in P.After(s, steps).requests
                  && ViewOf(P.After(s, steps).requests[id])
                     == ToldFrom(ViewOf(s.requests[id]), if ForAll(ev) then s.attached else [s.leader], id, ev))
            && P.After(s, steps).attached == (if P.IsTerminal(ev) then [] else s.attached)
            && P.After(s, steps).end == (if P.IsTerminal(ev) then P.Copy(ev) else s.end)
  {
    hide P.Inv, P.RunCall, P.CanRun, P.After, Told, P.Copy, P.IsTerminal;
    var t := P.Apply(s, P.Report(c, ev));
    P.StepKeeps(s, P.Report(c, ev));
    if c in t.calls {
      n := UnbrokenQueueTells(t, c);
      assert t.calls - {c} == s.calls;
    } else {
      n := 0;
      NoMoreRuns(t, c);
    }
    R.Then(s, P.Report(c, ev), Runs(c, n));
    RunsLeaveTheList(t, c, n);
  }
}
