/** The reader a caller takes the rest of a body from: it counts the bytes and reports the end. */
module ProgressReaders {
  import opened Text
  import B = BodyTop

  datatype Event = Progress(received: nat) | Finished(received: nat) | Failed | Cancelled

  /** What the reader underneath answers: not yet, so many bytes (none is the end), or an error. */
  datatype Poll = Pending | Gave(n: nat) | Broke

  /** One poll, and whether the request was cancelled as it began and as it ended. */
  datatype Input = Input(cancelledBefore: bool, poll: Poll, cancelledAfter: bool)

  /** A reader as its log has it: the flags the reader keeps say what is in the log. */
  datatype State = State(received: nat, events: seq<Event>)
  {
    predicate CancelEmitted() {
      Cancelled in events
    }

    predicate FinishedEmitted() {
      exists i | 0 <= i < |events| :: events[i].Finished?
    }

    predicate FailedEmitted() {
      Failed in events
    }

    predicate EndEmitted() {
      CancelEmitted() || FinishedEmitted() || FailedEmitted()
    }
  }

  /** The bytes a poll hands on: none once the request was cancelled. */
  function BytesOf(input: Input): nat {
    if !input.cancelledBefore && input.poll.Gave? then input.poll.n else 0
  }

  /** What a poll reports: each kind of end if it was not yet, a cancellation only if no end was. */
  function Reported(s: State, input: Input): seq<Event> {
    if input.cancelledBefore then (if s.EndEmitted() then [] else [Cancelled])
    else if BytesOf(input) > 0 then [Progress(s.received + BytesOf(input))]
    else if input.poll.Gave? then (if s.FinishedEmitted() then [] else [Finished(s.received)])
    else if input.poll.Broke? && !input.cancelledAfter then (if s.FailedEmitted() then [] else [Failed])
    else []
  }

  function Polled(s: State, input: Input): State {
    State(s.received + BytesOf(input), s.events + Reported(s, input))
  }

  /** A body whose declared length has arrived is finished, any other abandoned. */
  function Dropped(s: State, expected: Option<nat>): State {
    if s.EndEmitted() then s
    else
      var complete := expected.Some? && s.received >= expected.value;
      s.(events := s.events + [if complete then Finished(s.received) else Cancelled])
  }

  class ProgressReader {
    const expected: Option<nat>
    var received: nat
    var cancelEmitted: bool
    var finishedEmitted: bool
    var failedEmitted: bool
    var events: seq<Event>

    function View(): State
      reads this
    {
      State(received, events)
    }

    predicate Valid()
      reads this
    {
      && (cancelEmitted <==> View().CancelEmitted())
      && (finishedEmitted <==> View().FinishedEmitted())
      && (failedEmitted <==> View().FailedEmitted())
    }

    constructor (expected: Option<nat>, alreadyReceived: nat)
      ensures this.expected == expected && Valid() && View() == Fresh(alreadyReceived)
    {
      this.expected, received, events := expected, alreadyReceived, [];
      cancelEmitted, finishedEmitted, failedEmitted := false, false, false;
    }

    method Emit(event: Event)
      modifies this`events
      ensures events == old(events) + [event]
      ensures View().CancelEmitted() <==> old(View().CancelEmitted()) || event.Cancelled?
      ensures View().FinishedEmitted() <==> old(View().FinishedEmitted()) || event.Finished?
      ensures View().FailedEmitted() <==> old(View().FailedEmitted()) || event.Failed?
    {
      EmittedSnoc(received, events, event);
      events := events + [event];
    }

    method PollRead(input: Input)
      requires Valid()
      modifies this
      ensures Valid() && View() == Polled(old(View()), input)
    {
      hide State.CancelEmitted, State.FinishedEmitted, State.FailedEmitted;
      assert events + [] == events;
      if input.cancelledBefore {
        if !cancelEmitted && !finishedEmitted && !failedEmitted {
          Emit(Cancelled);
          cancelEmitted := true;
        }
        return;
      }
      if input.poll.Gave? {
        var n := input.poll.n;
        if n == 0 && !finishedEmitted {
          finishedEmitted := true;
          Emit(Finished(received));
        }
        if n > 0 {
          EmittedIgnoresReceived(View(), received + n);
          received := received + n;
          Emit(Progress(received));
        }
      }
      if input.poll.Broke? {
        if !failedEmitted && !input.cancelledAfter {
          failedEmitted := true;
          Emit(Failed);
        }
      }
    }

    method Drop()
      requires Valid()
      modifies this
      ensures View() == Dropped(old(View()), expected)
    {
      if finishedEmitted || cancelEmitted || failedEmitted {
        return;
      }
      var complete := expected.Some? && received >= expected.value;
      Emit(if complete then Finished(received) else Cancelled);
    }
  }

  lemma EmittedSnoc(received: nat, events: seq<Event>, event: Event)
    ensures var s, t := State(received, events), State(received, events + [event]);
            && (t.CancelEmitted() <==> s.CancelEmitted() || event.Cancelled?)
            && (t.FinishedEmitted() <==> s.FinishedEmitted() || event.Finished?)
            && (t.FailedEmitted() <==> s.FailedEmitted() || event.Failed?)
  {
    var more := events + [event];
    assert more[|events|] == event && forall i | 0 <= i < |events| :: more[i] == events[i];
    if i :| 0 <= i < |events| && events[i].Finished? {
      assert more[i].Finished?;
    }
  }

  // ----- Whole lives ------------------------------------------------------------------------

  function Fresh(already: nat): State {
    State(already, [])
  }

  function After(already: nat, inputs: seq<Input>): State {
    if inputs == [] then Fresh(already) else Polled(After(already, inputs[..|inputs| - 1]), inputs[|inputs| - 1])
  }

  /** A request once cancelled stays cancelled. */
  predicate CancelsForGood(inputs: seq<Input>) {
    && (forall i | 0 <= i < |inputs| && inputs[i].cancelledBefore :: inputs[i].cancelledAfter)
    && (forall i | 0 <= i < |inputs| - 1 && inputs[i].cancelledAfter :: inputs[i + 1].cancelledBefore)
  }

  /** Some poll reached the end of the body. */
  predicate SawEnd(inputs: seq<Input>) {
    exists i | 0 <= i < |inputs| :: !inputs[i].cancelledBefore && inputs[i].poll == Gave(0)
  }

  /** Some poll failed, and not for being cancelled. */
  predicate SawFailure(inputs: seq<Input>) {
    exists i | 0 <= i < |inputs| :: !inputs[i].cancelledBefore && inputs[i].poll == Broke && !inputs[i].cancelledAfter
  }

  predicate SawCancel(inputs: seq<Input>) {
    inputs != [] && inputs[|inputs| - 1].cancelledBefore
  }

  function Ends(events: seq<Event>): nat {
    if events == [] then 0
    else (if events[|events| - 1].Progress? then 0 else 1) + Ends(events[..|events| - 1])
  }

  function BytesGiven(inputs: seq<Input>): nat {
    if inputs == [] then 0
    else
      BytesGiven(inputs[..|inputs| - 1]) + BytesOf(inputs[|inputs| - 1])
  }

  function Count(b: bool): nat {
    if b then 1 else 0
  }

  lemma EndsSnoc(events: seq<Event>, e: Event)
    ensures Ends(events + [e]) == Ends(events) + Count(!e.Progress?)
  {
    assert (events + [e])[..|events|] == events;
  }

  lemma SawSnoc(front: seq<Input>, last: Input)
    ensures SawEnd(front + [last]) <==> SawEnd(front) || (!last.cancelledBefore && last.poll == Gave(0))
    ensures SawFailure(front + [last])
            <==> SawFailure(front) || (!last.cancelledBefore && last.poll == Broke && !last.cancelledAfter)
  {
    var inputs := front + [last];
    assert inputs[|front|] == last && forall i | 0 <= i < |front| :: inputs[i] == front[i];
    if SawEnd(front) {
      var i :| 0 <= i < |front| && !front[i].cancelledBefore && front[i].poll == Gave(0);
      assert inputs[i] == front[i];
    }
    if SawFailure(front) {
      var i :| 0 <= i < |front| && !front[i].cancelledBefore && front[i].poll == Broke && !front[i].cancelledAfter;
      assert inputs[i] == front[i];
    }
  }

  lemma CancelsForGoodFront(front: seq<Input>, last: Input)
    requires CancelsForGood(front + [last])
    ensures CancelsForGood(front)
    ensures SawCancel(front) ==> last.cancelledBefore
  {
    var inputs := front + [last];
    forall i | 0 <= i < |front| - 1 && front[i].cancelledAfter
      ensures front[i + 1].cancelledBefore
    {
      assert inputs[i] == front[i] && inputs[i + 1] == front[i + 1];
    }
    forall i | 0 <= i < |front| && front[i].cancelledBefore
      ensures front[i].cancelledAfter
    {
      assert inputs[i] == front[i];
    }
    if SawCancel(front) {
      assert inputs[|front| - 1] == front[|front| - 1] && inputs[|front|] == last;
    }
  }

  /** What a reader remembers of its polls. */
  ghost predicate Remembers(s: State, already: nat, inputs: seq<Input>) {
    && s.received == already + BytesGiven(inputs)
    && (s.FinishedEmitted() <==> SawEnd(inputs))
    && (s.FailedEmitted() <==> SawFailure(inputs))
    && (s.CancelEmitted() <==> SawCancel(inputs) && !SawEnd(inputs) && !SawFailure(inputs))
    && Ends(s.events) == Count(s.FinishedEmitted()) + Count(s.FailedEmitted()) + Count(s.CancelEmitted())
  }

  lemma {:induction false} ReaderRemembers(already: nat, inputs: seq<Input>)
    requires CancelsForGood(inputs)
    ensures Remembers(After(already, inputs), already, inputs)
  {
    hide SawEnd, SawFailure, CancelsForGood, Ends, State.CancelEmitted, State.FinishedEmitted, State.FailedEmitted;
    if inputs == [] {
      NothingSeen();
    } else {
      var front, last := inputs[..|inputs| - 1], inputs[|inputs| - 1];
      assert inputs == front + [last];
      CancelsForGoodFront(front, last);
      ReaderRemembers(already, front);
      SawSnoc(front, last);
      var before := After(already, front);
      if Reported(before, last) != [] {
        var event := Reported(before, last)[0];
        EndsSnoc(before.events, event);
        EmittedSnoc(before.received, before.events, event);
        EmittedSnoc(before.received + BytesOf(last), before.events, event);
        EmittedIgnoresReceived(before, before.received + BytesOf(last));
        assert Reported(before, last) == [event];
      } else {
        assert before.events + [] == before.events;
        EmittedIgnoresReceived(before, before.received + BytesOf(last));
      }
    }
  }

  lemma EmittedIgnoresReceived(s: State, received: nat)
    ensures var t := s.(received := received);
            && t.CancelEmitted() == s.CancelEmitted()
            && t.FinishedEmitted() == s.FinishedEmitted()
            && t.FailedEmitted() == s.FailedEmitted()
  {
  }

  lemma NothingSeen()
    ensures !SawEnd([]) && !SawFailure([]) && Ends([]) == 0
    ensures forall n :: !Fresh(n).EndEmitted()
  {
  }

  /** Over any polls and then the drop a reader reports one end, unless it was polled on past an end
      or a failure into the other: then it reports both. */
  lemma EndsOnceUnlessPolledIntoBoth(already: nat, inputs: seq<Input>, expected: Option<nat>)
    requires CancelsForGood(inputs)
    ensures var ends := Ends(Dropped(After(already, inputs), expected).events);
            && (ends == 1 <==> !(SawEnd(inputs) && SawFailure(inputs)))
            && 1 <= ends <= 2
  {
    hide SawEnd, SawFailure, CancelsForGood, Ends, After;
    ReaderRemembers(already, inputs);
    var s := After(already, inputs);
    EndsSnoc(s.events, Finished(s.received));
    EndsSnoc(s.events, Cancelled);
  }

  /** A poll reports the count of all bytes so far when it hands some on, and else the end it comes to,
      unless an end of that kind was reported, or, for a cancellation, any. */
  lemma PollReportsWhatItComesTo(already: nat, inputs: seq<Input>, input: Input)
    requires CancelsForGood(inputs)
    ensures var s, t := After(already, inputs), After(already, inputs + [input]);
            var count := already + BytesGiven(inputs);
            var reported :=
              if input.cancelledBefore then
                if SawEnd(inputs) || SawFailure(inputs) || SawCancel(inputs) then [] else [Cancelled]
              else
                match input.poll
                case Gave(n) =>
                  if n > 0 then [Progress(count + n)] else if SawEnd(inputs) then [] else [Finished(count)]
                case Broke => if input.cancelledAfter || SawFailure(inputs) then [] else [Failed]
                case Pending => [];
            t.events == s.events + reported
  {
    hide SawEnd, SawFailure, SawCancel, CancelsForGood, Ends, State.CancelEmitted, State.FinishedEmitted,
      State.FailedEmitted;
    assert (inputs + [input])[..|inputs|] == inputs;
    ReaderRemembers(already, inputs);
  }

  /** Letting go of a reader that came to no end reports one: that the body is finished exactly when all
      of its declared length has arrived, and that it was abandoned otherwise. */
  lemma DropReportsWhetherAllArrived(already: nat, inputs: seq<Input>, expected: Option<nat>)
    requires CancelsForGood(inputs)
    ensures var s := After(already, inputs);
            var count := already + BytesGiven(inputs);
            Dropped(s, expected).events
            == if SawEnd(inputs) || SawFailure(inputs) || SawCancel(inputs) then s.events
               else if expected.Some? && count >= expected.value then s.events + [Finished(count)]
               else s.events + [Cancelled]
  {
    hide SawEnd, SawFailure, SawCancel, CancelsForGood, Ends, State.CancelEmitted, State.FinishedEmitted,
      State.FailedEmitted, After, BytesGiven;
    ReaderRemembers(already, inputs);
  }

  /** Polling on after a failure does reach both. */
  lemma PolledIntoBoth()
    ensures Ends(Dropped(After(0, [Input(false, Broke, false), Input(false, Gave(0), false)]), None).events) == 2
  {
    var first, second := Input(false, Broke, false), Input(false, Gave(0), false);
    assert [first, second][..1] == [first] && [first][..0] == [];
    assert After(0, [first]) == Polled(After(0, []), first);
    var s := After(0, [first, second]);
    assert s.events == [Failed] + [Finished(0)];
    EndsSnoc([Failed], Finished(0));
    EndsSnoc([], Failed);
    assert [] + [Failed] == [Failed];
  }

  // ----- Counting ---------------------------------------------------------------------------

  /** The counts reported, in order. */
  function Counts(events: seq<Event>): seq<nat> {
    if events == [] then []
    else
      var last := events[|events| - 1];
      Counts(events[..|events| - 1]) + if last.Progress? || last.Finished? then [last.received] else []
  }

  predicate NeverDecreases(counts: seq<nat>) {
    forall i, j | 0 <= i < j < |counts| :: counts[i] <= counts[j]
  }

  predicate AllWithin(counts: seq<nat>, low: nat, high: nat) {
    forall i | 0 <= i < |counts| :: low <= counts[i] <= high
  }

  lemma CountsSnoc(events: seq<Event>, e: Event)
    ensures Counts(events + [e]) == Counts(events) + if e.Progress? || e.Finished? then [e.received] else []
  {
    assert (events + [e])[..|events|] == events;
  }

  /** The counts reported start at no less than what was received before and never go back, and the
      count is of all the bytes given. */
  lemma {:induction false} CountsNeverGoBack(already: nat, inputs: seq<Input>)
    ensures var s := After(already, inputs);
            && s.received == already + BytesGiven(inputs)
            && NeverDecreases(Counts(s.events)) && AllWithin(Counts(s.events), already, s.received)
  {
    hide Counts, State.CancelEmitted, State.FinishedEmitted, State.FailedEmitted;
    if inputs == [] {
      NothingCounted();
    } else {
      var before, last := After(already, inputs[..|inputs| - 1]), inputs[|inputs| - 1];
      CountsNeverGoBack(already, inputs[..|inputs| - 1]);
      if Reported(before, last) == [] {
        assert before.events + [] == before.events;
      } else {
        assert Reported(before, last) == [Reported(before, last)[0]];
        CountsSnoc(before.events, Reported(before, last)[0]);
      }
    }
  }

  lemma NothingCounted()
    ensures Counts([]) == []
  {
  }

  /** Letting go reports no count below those before. */
  lemma DropNeverGoesBack(already: nat, inputs: seq<Input>, expected: Option<nat>)
    ensures var s := After(already, inputs);
            var counts := Counts(Dropped(s, expected).events);
            NeverDecreases(counts) && AllWithin(counts, already, s.received)
  {
    hide Counts, After, State.EndEmitted;
    var s := After(already, inputs);
    CountsNeverGoBack(already, inputs);
    CountsSnoc(s.events, Finished(s.received));
    CountsSnoc(s.events, Cancelled);
  }

  /** Over a whole fetch, the counts reported while peeking, then by the reader of the rest, which starts
      at what was delivered with the top, and last by letting go of it, never go back. */
  lemma WholeFetchNeverGoesBack(
    stream: B.Stream, steps: seq<B.Step>, declared: Option<nat>, bodiless: bool, max: Option<nat>,
    progress: seq<nat>, inputs: seq<Input>, expected: Option<nat>)
    requires B.TopOf(stream, steps, declared, bodiless, max).Ready?
    requires |progress| <= |stream.chunks|
    requires forall i | 0 <= i < |progress| :: progress[i] == Min(B.PEEK_MAX, |Flat(stream.chunks[..i + 1])|)
    ensures var delivered := |B.TopOf(stream, steps, declared, bodiless, max).peek|;
            && NeverDecreases(progress + Counts(After(delivered, inputs).events))
            && NeverDecreases(progress + Counts(Dropped(After(delivered, inputs), expected).events))
  {
    hide Counts, After, Dropped, Flat, Min, B.Peek, B.CutInto;
    var delivered := |B.TopOf(stream, steps, declared, bodiless, max).peek|;
    B.PeekCutsTheBody([], stream.chunks, stream.close, steps);
    assert [] + Flat(stream.chunks) == Flat(stream.chunks);
    CountsNeverGoBack(delivered, inputs);
    DropNeverGoesBack(delivered, inputs, expected);
    forall i | 0 <= i < |progress|
      ensures progress[i] <= delivered
    {
      B.PeekCountsRise(stream.chunks, i + 1, |stream.chunks|);
      assert stream.chunks[..|stream.chunks|] == stream.chunks;
    }
    forall i, j | 0 <= i < j < |progress|
      ensures progress[i] <= progress[j]
    {
      B.PeekCountsRise(stream.chunks, i + 1, j + 1);
    }
  }
}
