/** One end for all of a fetch: every request it ends, early or late, is told a copy of one end exactly
    as long as what it reports as its end stays the same. */
module LifecycleEnds {
  import opened Collections
  import opened Text
  import opened Lifecycle
  import opened LifecycleRuns

  // ----- Reports that agree -----------------------------------------------------------------

  /** The end an observer was told of first. */
  function EndOf(log: seq<Event>): Option<Event> {
    if log == [] then None
    else
      var earlier := EndOf(log[..|log| - 1]);
      if earlier.Some? then earlier else if IsTerminal(log[|log| - 1]) then Some(log[|log| - 1]) else None
  }

  predicate ReportsEnd(step: Step) {
    step.Report? && IsTerminal(step.ev)
  }

  /** An end reported while one is kept copies to the kept one. */
  predicate ReportAgrees(s: State, step: Step) {
    ReportsEnd(step) && s.end.Some? ==> Copy(step.ev) == s.end
  }

  predicate ReportsAgree(s: State, steps: seq<Step>)
    requires CanRun(s, steps)
    decreases |steps|
  {
    steps == [] || (ReportAgrees(s, steps[0]) && ReportsAgree(Apply(s, steps[0]), steps[1..]))
  }

  /** Whatever the fetch hands out as an end is a copy of the one it reported. */
  predicate CallAgrees(s: State, call: Call) {
    && (call.ofFetch && IsTerminal(call.ev) ==> s.end.Some? && Copy(call.ev) == s.end)
    && (EndsHead(call) && call.queue[0] in s.requests ==> s.requests[call.queue[0]].endedByFetch == call.ofFetch)
  }

  predicate RequestAgrees(r: Request, end: Option<Event>) {
    r.endedByFetch ==> r.ended && end.Some? && (EndOf(r.log).Some? ==> Copy(EndOf(r.log).value) == end)
  }

  predicate EndsAgree(s: State) {
    && (s.end.Some? ==> Copy(s.end.value) == s.end)
    && (forall c | c in s.calls :: CallAgrees(s, s.calls[c]))
    && (forall id | id in s.requests :: RequestAgrees(s.requests[id], s.end))
  }

  lemma {:induction false} NoEndsNoEnd(log: seq<Event>)
    ensures Ends(log) == 0 <==> EndOf(log).None?
  {
    if log != [] {
      NoEndsNoEnd(log[..|log| - 1]);
    }
  }

  lemma EndOfSnoc(log: seq<Event>, ev: Event)
    ensures EndOf(log + [ev])
         == if EndOf(log).Some? then EndOf(log) else if IsTerminal(ev) then Some(ev) else None
  {
    assert (log + [ev])[..|log|] == log;
  }

  lemma RunKeepsAgreement(s: State, c: CallId)
    requires Inv(s) && EndsAgree(s) && Enabled(s, Run(c))
    ensures EndsAgree(Apply(s, Run(c)))
  {
    hide HandlesOk, FetchOk, Copy, Ends, EndOf;
    var call, t := s.calls[c], Apply(s, Run(c));
    var id := call.queue[0];
    var r := s.requests[id];
    assert CallOk(call, c, s.requests) && RequestOk(r, id, s.calls) && CallAgrees(s, call);
    CopyIsIdempotent(call.ev);
    NoEndsNoEnd(r.log);
    if call.pc == Deliver {
      HandedKind(call);
      EndOfSnoc(r.log, Handed(call).value);
    }
    assert RequestAgrees(r, s.end);
    assert RequestAgrees(t.requests[id], t.end);
    OtherCallsAgree(s, t, c, id);
  }

  /** Only a swap says who ended a request, and before it nobody had. */
  lemma WhoEnded(s: State, c: CallId)
    requires Enabled(s, Run(c))
    ensures var t := Apply(s, Run(c));
            var id := s.calls[c].queue[0];
            && t.end == s.end && t.requests.Keys == s.requests.Keys
            && (forall x | x in s.requests && x != id :: t.requests[x] == s.requests[x])
            && (t.requests[id].endedByFetch == s.requests[id].endedByFetch
                || (!s.requests[id].ended && t.requests[id].endedByFetch == s.calls[c].ofFetch))
  {
    hide Handed, IsTerminal, Passed;
    match s.calls[c].pc
    case Begin =>
    case Deliver =>
    case Finish =>
    case Signal =>
  }

  lemma SwapSaysWhoEnded(s: State, c: CallId)
    requires Enabled(s, Run(c)) && CallAgrees(s, s.calls[c])
    ensures c in Apply(s, Run(c)).calls ==> CallAgrees(Apply(s, Run(c)), Apply(s, Run(c)).calls[c])
  {
    hide Handed, Copy;
  }

  lemma OtherCallsAgree(s: State, t: State, c: CallId, id: Id)
    requires Inv(s) && EndsAgree(s) && Enabled(s, Run(c)) && t == Apply(s, Run(c)) && id == s.calls[c].queue[0]
    ensures forall d | d in t.calls :: CallAgrees(t, t.calls[d])
  {
    hide HandlesOk, FetchOk, Copy, Ends, Handed, RequestAgrees, Apply, EndedSoFar;
    WhoEnded(s, c);
    OtherCallsStay(s, c);
    assert CallAgrees(s, s.calls[c]) && RequestOk(s.requests[id], id, s.calls);
    SwapSaysWhoEnded(s, c);
    forall d | d in t.calls
      ensures CallAgrees(t, t.calls[d])
    {
      if d != c {
        assert CallAgrees(s, s.calls[d]) && CallOk(s.calls[d], d, s.requests);
      }
    }
  }

  lemma StepKeepsAgreement(s: State, step: Step)
    requires Inv(s) && EndsAgree(s) && Enabled(s, step)
    requires ReportAgrees(s, step)
    ensures EndsAgree(Apply(s, step))
  {
    hide RequestsOk, CallsOk, HandlesOk, RunCall, Copy, EndOf, Without;
    match step
    case Run(c) => RunKeepsAgreement(s, c);
    case Report(_, ev) => CopyIsIdempotent(ev);
    case Accept(id, _, _) => UnknownUnqueued(s, id);
    case Drop(id) => assert RequestAgrees(s.requests[id], s.end);
    case _ =>
  }

  lemma {:induction false} RunsKeepAgreement(s: State, steps: seq<Step>)
    requires Inv(s) && EndsAgree(s) && CanRun(s, steps) && ReportsAgree(s, steps)
    ensures EndsAgree(After(s, steps))
    decreases |steps|
  {
    hide Inv, EndsAgree, Apply, Enabled;
    if steps != [] {
      StepKeepsAgreement(s, steps[0]);
      StepKeeps(s, steps[0]);
      RunsKeepAgreement(Apply(s, steps[0]), steps[1..]);
    }
  }

  /** While the reports agree, every request the fetch ends is told a copy of the end it keeps, whether
      the request joined before or after. */
  lemma AgreeingReportsGiveOneEnd(begun: State, steps: seq<Step>, id: Id)
    requires Init(begun) && CanRun(begun, steps) && ReportsAgree(begun, steps)
    requires id in After(begun, steps).requests && After(begun, steps).requests[id].endedByFetch
    ensures var s := After(begun, steps);
            s.end.Some? && (EndOf(s.requests[id].log).Some? ==> Copy(EndOf(s.requests[id].log).value) == s.end)
  {
    hide Inv, Apply, Enabled, Copy, EndOf;
    InitHolds(begun);
    InitAgrees(begun);
    RunsKeep(begun, steps);
    RunsKeepAgreement(begun, steps);
  }

  lemma InitAgrees(s: State)
    requires Init(s)
    ensures EndsAgree(s)
  {
  }

  // ----- Joining late -----------------------------------------------------------------------

  /** A request that joins once an end is kept, and has not ended, is told a copy of that end. */
  lemma LateJoinerIsToldTheKeptEnd(s: State, d: CallId, late: Id)
    requires Inv(s) && Enabled(s, Attach(d, late)) && s.end.Some? && !s.requests[late].ended
    ensures var steps := [Attach(d, late), Run(d), Run(d)];
            && CanRun(s, steps) && late in After(s, steps).requests
            && var r := After(s, steps).requests[late];
               r.endedByFetch && EndOf(r.log).Some? && EndOf(r.log) == Copy(s.end.value)
    ensures SameBut(s.requests, After(s, [Attach(d, late), Run(d), Run(d)]).requests, late)
  {
    hide Inv, EndOf, Ends;
    HeldIsLiving(s, late);
    UntoldHasNoEnd(s, late);
    CopyIsIdempotent(s.end.value);
    KeptEndIsTerminal(s);
    var told := Copy(s.end.value).value;
    var t := Apply(s, Attach(d, late));
    assert t.calls[d] == Call(told, [late], Begin, true);
    var u := Apply(t, Run(d));
    assert u.calls[d] == Call(told, [late], Deliver, true);
    var v := Apply(u, Run(d));
    assert v.requests[late].log == s.requests[late].log + [told];
    EndOfSnoc(s.requests[late].log, told);
    NoSteps(v);
    Then(u, Run(d), []);
    assert [Run(d)] + [] == [Run(d)];
    Then(t, Run(d), [Run(d)]);
    assert [Run(d)] + [Run(d)] == [Run(d), Run(d)];
    Then(s, Attach(d, late), [Run(d), Run(d)]);
    assert [Attach(d, late)] + [Run(d), Run(d)] == [Attach(d, late), Run(d), Run(d)];
  }

  lemma HeldIsLiving(s: State, id: Id)
    requires Inv(s) && id in s.held
    ensures Living(s.requests, id)
  {
    hide RequestsOk, CallsOk, FetchOk;
  }

  lemma UntoldHasNoEnd(s: State, id: Id)
    requires Inv(s) && id in s.held && id in s.requests && !s.requests[id].ended
    ensures EndOf(s.requests[id].log) == None
  {
    hide CallsOk, FetchOk, Ends, EndOf;
    assert RequestOk(s.requests[id], id, s.calls) && Living(s.requests, id);
    NoEndsNoEnd(s.requests[id].log);
  }

  lemma KeptEndIsTerminal(s: State)
    requires Inv(s) && s.end.Some?
    ensures IsTerminal(s.end.value)
  {
    hide RequestsOk, CallsOk, HandlesOk;
  }

  /** A second reported end takes the place of the first, whatever that was: a request that has not
      ended and joins after it is told a copy of the second. */
  lemma SecondReportReplacesTheEnd(s: State, c: CallId, ev: Event, d: CallId, late: Id)
    requires Inv(s) && Enabled(s, Report(c, ev)) && IsTerminal(ev)
    requires d != c && d !in s.calls && late in s.held && late in s.requests && !s.requests[late].ended
    ensures var steps := [Report(c, ev), Attach(d, late), Run(d), Run(d)];
            && CanRun(s, steps) && late in After(s, steps).requests
            && var r := After(s, steps).requests[late];
               r.endedByFetch && EndOf(r.log).Some? && EndOf(r.log) == Copy(ev)
    ensures SameBut(s.requests, After(s, [Report(c, ev), Attach(d, late), Run(d), Run(d)]).requests, late)
  {
    hide Inv, EndOf, Copy;
    StepKeeps(s, Report(c, ev));
    CopyIsIdempotent(ev);
    var t := Apply(s, Report(c, ev));
    assert Enabled(t, Attach(d, late)) && t.end == Copy(ev);
    LateJoinerIsToldTheKeptEnd(t, d, late);
    Then(s, Report(c, ev), [Attach(d, late), Run(d), Run(d)]);
    assert [Report(c, ev)] + [Attach(d, late), Run(d), Run(d)] == [Report(c, ev), Attach(d, late), Run(d), Run(d)];
  }

  // ----- One end for all --------------------------------------------------------------------

  /** Steps in which the fetch reports no end. */
  predicate Quiet(steps: seq<Step>) {
    forall i | 0 <= i < |steps| :: !ReportsEnd(steps[i])
  }

  /** Every request the fetch has ended and told so was told a copy of `e`. */
  predicate ToldOnly(s: State, e: Event) {
    forall id | id in s.requests && s.requests[id].endedByFetch && EndOf(s.requests[id].log).Some? ::
      Copy(EndOf(s.requests[id].log).value) == Some(e)
  }

  /** Whoever joins, leaves or ends from here on, as long as the fetch reports no other end. */
  ghost predicate TellsOnly(s: State, e: Event) {
    forall more | CanRun(s, more) && Quiet(more) :: ToldOnly(After(s, more), e)
  }

  ghost predicate TellsOnlyThroughout(s: State, steps: seq<Step>, e: Event)
    requires CanRun(s, steps)
    decreases |steps|
  {
    TellsOnly(s, e) && (steps == [] || TellsOnlyThroughout(Apply(s, steps[0]), steps[1..], e))
  }

  /** From the moment the run keeps an end, only that end is told, at every point of the run and in
      everything that can follow there. */
  ghost predicate OneEndForAll(s: State, steps: seq<Step>)
    requires CanRun(s, steps)
    decreases |steps|
  {
    if s.end.Some? then TellsOnlyThroughout(s, steps, s.end.value)
    else steps == [] || OneEndForAll(Apply(s, steps[0]), steps[1..])
  }

  lemma QuietStepKeepsEnd(s: State, step: Step)
    requires Enabled(s, step) && !ReportsEnd(step)
    ensures Apply(s, step).end == s.end
  {
    hide Handed, Copy, IsTerminal, Started, Without;
    if step.Run? {
      WhoEnded(s, step.call);
    }
  }

  lemma {:induction false} QuietRunsKeepEnd(s: State, steps: seq<Step>)
    requires CanRun(s, steps) && Quiet(steps)
    ensures After(s, steps).end == s.end && ReportsAgree(s, steps)
    decreases |steps|
  {
    hide Apply, Enabled, Copy, ReportsEnd;
    if steps != [] {
      assert !ReportsEnd(steps[0]);
      QuietStepKeepsEnd(s, steps[0]);
      assert forall i | 0 <= i < |steps| - 1 :: steps[1..][i] == steps[i + 1];
      QuietRunsKeepEnd(Apply(s, steps[0]), steps[1..]);
    }
  }

  lemma AgreementTellsOnly(s: State)
    requires Inv(s) && EndsAgree(s) && s.end.Some?
    ensures TellsOnly(s, s.end.value)
  {
    hide Inv, CanRun, After, Copy, EndOf, CallAgrees;
    forall more | CanRun(s, more) && Quiet(more)
      ensures ToldOnly(After(s, more), s.end.value)
    {
      QuietRunsKeepEnd(s, more);
      RunsKeepAgreement(s, more);
      var t := After(s, more);
      assert forall id | id in t.requests :: RequestAgrees(t.requests[id], t.end);
    }
  }

  /** Once another end is kept, some request still to come would be told that one. */
  lemma OtherEndIsTold(s: State, e: Event)
    requires Inv(s) && s.open && s.end.Some? && Copy(s.end.value) != Some(e) && Copy(s.end.value) == s.end
    ensures !TellsOnly(s, e)
  {
    hide Inv, EndOf, Copy;
    var late := FreshNat(s.requests.Keys);
    var d := FreshNat(s.calls.Keys);
    StepKeeps(s, Accept(late, true, false));
    var t := Apply(s, Accept(late, true, false));
    LateJoinerIsToldTheKeptEnd(t, d, late);
    var more := [Attach(d, late), Run(d), Run(d)];
    Then(s, Accept(late, true, false), more);
    assert Quiet([Accept(late, true, false)] + more);
    assert !ToldOnly(After(s, [Accept(late, true, false)] + more), e);
  }

  /** A reported end leaves the fetch telling only what it kept exactly when it copies to that. */
  lemma ReportTellsOnlyIffItAgrees(s: State, step: Step)
    requires Inv(s) && EndsAgree(s) && s.end.Some? && Enabled(s, step)
    ensures TellsOnly(Apply(s, step), s.end.value) <==> ReportAgrees(s, step)
    ensures ReportAgrees(s, step) ==> Apply(s, step).end == s.end
  {
    hide Inv, TellsOnly, CallAgrees, RequestAgrees, Copy, Started, Handed;
    StepKeeps(s, step);
    var t := Apply(s, step);
    if ReportAgrees(s, step) {
      StepKeepsAgreement(s, step);
      if !ReportsEnd(step) {
        QuietStepKeepsEnd(s, step);
      }
      AgreementTellsOnly(t);
    } else {
      CopyIsIdempotent(step.ev);
      OtherEndIsTold(t, s.end.value);
    }
  }

  lemma {:induction false} ThroughoutIffReportsAgree(s: State, steps: seq<Step>)
    requires Inv(s) && EndsAgree(s) && s.end.Some? && CanRun(s, steps)
    ensures TellsOnlyThroughout(s, steps, s.end.value) <==> ReportsAgree(s, steps)
    decreases |steps|
  {
    hide Inv, EndsAgree, TellsOnly, ReportAgrees, Apply, Enabled;
    AgreementTellsOnly(s);
    if steps != [] {
      ReportTellsOnlyIffItAgrees(s, steps[0]);
      if ReportAgrees(s, steps[0]) {
        StepKeeps(s, steps[0]);
        StepKeepsAgreement(s, steps[0]);
        ThroughoutIffReportsAgree(Apply(s, steps[0]), steps[1..]);
      }
    }
  }

  lemma {:induction false} OneEndIffReportsAgreeFrom(s: State, steps: seq<Step>)
    requires Inv(s) && EndsAgree(s) && CanRun(s, steps)
    ensures OneEndForAll(s, steps) <==> ReportsAgree(s, steps)
    decreases |steps|
  {
    hide Inv, EndsAgree, TellsOnlyThroughout, Apply, Enabled;
    if s.end.Some? {
      ThroughoutIffReportsAgree(s, steps);
    } else if steps != [] {
      StepKeeps(s, steps[0]);
      StepKeepsAgreement(s, steps[0]);
      OneEndIffReportsAgreeFrom(Apply(s, steps[0]), steps[1..]);
    }
  }

  /** Over every run: every request the fetch ends, early or late and whatever can still follow, is
      told a copy of the end first kept exactly when each end reported later copies to it. */
  lemma OneEndForAllIffReportsAgree(begun: State, steps: seq<Step>)
    requires Init(begun) && CanRun(begun, steps)
    ensures OneEndForAll(begun, steps) <==> ReportsAgree(begun, steps)
  {
    InitHolds(begun);
    InitAgrees(begun);
    OneEndIffReportsAgreeFrom(begun, steps);
  }

  /** Request 0 is told the first end. */
  lemma ZeroIsToldTheFirst(first: Event) returns (steps: seq<Step>)
    requires IsTerminal(first)
    ensures steps == [Report(1, first), Run(1), Run(1)] && CanRun(FetchOfZero(), steps)
    ensures var s := After(FetchOfZero(), steps);
            && Inv(s) && s.open && s.requests.Keys == {0} && s.calls.Keys == {1}
            && s.requests[0].endedByFetch && EndOf(s.requests[0].log) == Some(first)
  {
    hide Inv, EndOf, Ends, CanRun, After, Copy;
    var begun := FetchOfZero();
    InitHolds(begun);
    var s := Apply(begun, Report(1, first));
    assert s.calls == map[1 := Call(first, [0], Begin, true)];
    var t := Apply(s, Run(1));
    assert t.calls == map[1 := Call(first, [0], Deliver, true)];
    var u := Apply(t, Run(1));
    assert u.requests[0].log == [Accepted(false)] + [first];
    StepKeeps(begun, Report(1, first));
    StepKeeps(s, Run(1));
    StepKeeps(t, Run(1));
    EndOfFirst(Accepted(false), first);
    NoSteps(u);
    Then(t, Run(1), []);
    assert [Run(1)] + [] == [Run(1)];
    Then(s, Run(1), [Run(1)]);
    assert [Run(1)] + [Run(1)] == [Run(1), Run(1)];
    Then(begun, Report(1, first), [Run(1), Run(1)]);
    steps := [Report(1, first), Run(1), Run(1)];
    assert [Report(1, first)] + [Run(1), Run(1)] == steps;
  }

  lemma EndOfFirst(opening: Event, end: Event)
    requires !IsTerminal(opening) && IsTerminal(end)
    ensures EndOf([opening] + [end]) == Some(end)
  {
    EndOfSnoc([opening], end);
    EndOfSnoc([], opening);
    assert [] + [opening] == [opening];
  }

  /** A run in which the fetch reports two ends and two requests are told different ones. */
  lemma TwoReportsTwoEnds()
    ensures Init(FetchOfZero())
    ensures var steps := [Report(1, Finished(5)), Run(1), Run(1),
                          Accept(1, true, false), Report(2, Cancelled("x")), Attach(3, 1), Run(3), Run(3)];
            && CanRun(FetchOfZero(), steps)
            && var requests := After(FetchOfZero(), steps).requests;
               && 0 in requests && requests[0].endedByFetch && EndOf(requests[0].log) == Some(Finished(5))
               && 1 in requests && requests[1].endedByFetch && EndOf(requests[1].log) == Some(Cancelled("x"))
  {
    hide Inv, EndOf, CanRun, After, RunCall;
    var head := ZeroIsToldTheFirst(Finished(5));
    var s := After(FetchOfZero(), head);
    StepKeeps(s, Accept(1, true, false));
    var t := Apply(s, Accept(1, true, false));
    var more := [Report(2, Cancelled("x")), Attach(3, 1), Run(3), Run(3)];
    SecondReportReplacesTheEnd(t, 2, Cancelled("x"), 3, 1);
    Then(s, Accept(1, true, false), more);
    CanRunJoin(FetchOfZero(), head, [Accept(1, true, false)] + more);
    assert head + ([Accept(1, true, false)] + more)
        == [Report(1, Finished(5)), Run(1), Run(1),
            Accept(1, true, false), Report(2, Cancelled("x")), Attach(3, 1), Run(3), Run(3)];
  }
}
