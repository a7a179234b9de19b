/** The body pump: it drains a source into a shared body, a file, or both, and the two fail apart. */
module Pump {
  import opened NetErrors
  import opened Text

  /** What the pump waits for: bytes (none of them is the end of the body), a read error, or one of
      the timers and the cancellation it races the read against. */
  datatype Event = Got(chunk: Bytes) | Broke(error: NetError) | IdleExpired | DeadlinePassed | CancelRequested

  datatype Ending = Clean | Failed(error: NetError)

  datatype Outcome = Running | Saved | Done | Gave(error: NetError)

  // ----- Targets ----------------------------------------------------------------------------

  datatype Call = Push(chunk: Bytes) | Finish | Error(error: NetError)

  /** The shared body, as the calls made to it. */
  class SharedBody {
    var calls: seq<Call>

    constructor ()
      ensures calls == []
    {
      calls := [];
    }

    method Record(call: Call)
      modifies this
      ensures calls == old(calls) + [call]
    {
      calls := calls + [call];
    }
  }

  /** What goes wrong with a file: setting it up, each of its writes, the last flush, the rename. */
  datatype Faults = Faults(
    setup: Option<NetError>, writes: seq<Option<NetError>>, flush: Option<NetError>, rename: Option<NetError>)
  {
    function Write(n: nat): Option<NetError> {
      if n < |writes| then writes[n] else None
    }
  }

  /** A file target: the temporary file the pump writes, and what the destination holds. */
  class FileTarget {
    const faults: Faults
    var staged: Bytes
    var writes: nat
    var contents: Option<Bytes>

    constructor (faults: Faults, contents: Option<Bytes>)
      ensures this.faults == faults && this.contents == contents && writes == 0
    {
      this.faults, this.contents := faults, contents;
      staged, writes := [], 0;
    }

    method SetUp(peek: Bytes) returns (fault: Option<NetError>)
      modifies this`staged, this`writes
      ensures fault == faults.setup && staged == peek && writes == 0
    {
      fault, staged, writes := faults.setup, peek, 0;
    }

    method Write(chunk: Bytes) returns (fault: Option<NetError>)
      modifies this`staged, this`writes
      ensures fault == faults.Write(old(writes)) && writes == old(writes) + 1
      ensures fault.None? ==> staged == old(staged) + chunk
    {
      fault, writes := faults.Write(writes), writes + 1;
      if fault.None? {
        staged := staged + chunk;
      }
    }

    method Rename() returns (fault: Option<NetError>)
      modifies this`contents
      ensures fault == faults.rename
      ensures contents == if fault.None? then Some(staged) else old(contents)
    {
      fault := faults.rename;
      if fault.None? {
        contents := Some(staged);
      }
    }
  }

  // ----- What a run is ----------------------------------------------------------------------

  /** How one event ends the transfer, if it does. */
  function EndOf(event: Event): Option<Ending> {
    match event
    case Got(chunk) => if chunk == [] then Some(Clean) else None
    case Broke(error) => Some(Failed(error))
    case IdleExpired => Some(Failed(Timeout("Pump idle timeout")))
    case DeadlinePassed => Some(Failed(Timeout("Pump total timeout")))
    case CancelRequested => Some(Failed(Cancelled("Pump cancelled")))
  }

  /** How the first event that ends the transfer ends it; those after it never happen. */
  function EndingOf(events: seq<Event>): Option<Ending> {
    if events == [] then None
    else if EndOf(events[0]).Some? then EndOf(events[0])
    else EndingOf(events[1..])
  }

  /** The bytes the source gave before the transfer ended. */
  function Received(events: seq<Event>): Bytes {
    if events == [] || EndOf(events[0]).Some? then [] else events[0].chunk + Received(events[1..])
  }

  /** How many chunks it gave them in. */
  function Chunks(events: seq<Event>): nat {
    if events == [] || EndOf(events[0]).Some? then 0 else 1 + Chunks(events[1..])
  }

  function EndCall(ending: Ending): Call {
    match ending case Clean => Finish case Failed(error) => Error(error)
  }

  function CallOf(event: Event): Call {
    if EndOf(event).Some? then EndCall(EndOf(event).value) else Push(event.chunk)
  }

  function TailCalls(events: seq<Event>): seq<Call> {
    if events == [] then []
    else if EndOf(events[0]).Some? then [CallOf(events[0])]
    else [CallOf(events[0])] + TailCalls(events[1..])
  }

  function PeekCalls(peek: Bytes): seq<Call> {
    if peek == [] then [] else [Push(peek)]
  }

  /** The calls a shared body gets, whatever becomes of the file. */
  function Calls(peek: Bytes, events: seq<Event>): seq<Call> {
    PeekCalls(peek) + TailCalls(events)
  }

  /** The first thing that went wrong with the file by its `n`th write. */
  function FirstFault(faults: Faults, n: nat): Option<NetError> {
    if n == 0 then faults.setup
    else if FirstFault(faults, n - 1).Some? then FirstFault(faults, n - 1)
    else faults.Write(n - 1)
  }

  /** The first thing that went wrong with the file of a run that ended cleanly. */
  function FileFault(faults: Faults, events: seq<Event>): Option<NetError> {
    var fault := FirstFault(faults, Chunks(events));
    if fault.Some? then fault
    else if faults.flush.Some? then faults.flush
    else faults.rename
  }

  function OutcomeOf(events: seq<Event>, shared: bool, file: Option<Faults>): Outcome {
    if file.Some? && !shared && file.value.setup.Some? then Gave(file.value.setup.value)
    else
      match EndingOf(events)
      case None => Running
      case Some(Failed(error)) => Gave(error)
      case Some(Clean) =>
        if file.None? then Done
        else match FileFault(file.value, events) case Some(error) => Gave(error) case None => Saved
  }

  // ----- The pump ---------------------------------------------------------------------------

  lemma {:induction false} SnocEvent(before: seq<Event>, event: Event)
    requires EndingOf(before).None?
    ensures var events := before + [event];
            && EndingOf(events) == EndOf(event)
            && Received(events) == Received(before) + (if EndOf(event).None? then event.chunk else [])
            && Chunks(events) == Chunks(before) + (if EndOf(event).None? then 1 else 0)
            && TailCalls(events) == TailCalls(before) + [CallOf(event)]
  {
    hide EndOf, CallOf;
    var events := before + [event];
    if before == [] {
      assert events == [event] && events[1..] == [];
    } else {
      assert events[1..] == before[1..] + [event];
      SnocEvent(before[1..], event);
    }
  }

  lemma NextEvent(peek: Bytes, seen: seq<Event>, event: Event, told: seq<Call>)
    requires EndingOf(seen).None?
    ensures EndingOf(seen + [event]) == EndOf(event)
    ensures EndOf(event).None? ==>
              && peek + Received(seen + [event]) == peek + Received(seen) + event.chunk
              && Chunks(seen + [event]) == Chunks(seen) + 1
    ensures EndOf(event).Some? ==>
              Received(seen + [event]) == Received(seen) && Chunks(seen + [event]) == Chunks(seen)
    ensures told + TailCalls(seen + [event]) == told + TailCalls(seen) + [CallOf(event)]
  {
    hide EndingOf, Received, Chunks, TailCalls, EndOf, CallOf;
    SnocEvent(seen, event);
  }

  /** Nothing after the end of the transfer counts. */
  lemma {:induction false} EndedEvents(ended: seq<Event>, more: seq<Event>)
    requires EndingOf(ended).Some?
    ensures var events := ended + more;
            && EndingOf(events) == EndingOf(ended) && Received(events) == Received(ended)
            && Chunks(events) == Chunks(ended) && TailCalls(events) == TailCalls(ended)
  {
    hide EndOf, CallOf;
    if EndOf(ended[0]).None? {
      assert (ended + more)[1..] == ended[1..] + more;
      EndedEvents(ended[1..], more);
    }
  }

  lemma NothingYet(faults: Faults)
    ensures EndingOf([]).None? && Received([]) == [] && Chunks([]) == 0 && TailCalls([]) == []
    ensures FirstFault(faults, 0) == faults.setup
  {
  }

  lemma NextFault(faults: Faults, n: nat)
    ensures FirstFault(faults, n + 1)
         == if FirstFault(faults, n).Some? then FirstFault(faults, n) else faults.Write(n)
  {
  }

  /** Where the file stands after `chunks` writes of what makes up `body`. */
  ghost predicate FileStands(
    writer: FileTarget?, fileError: Option<NetError>, file: FileTarget?, body: Bytes, chunks: nat)
    reads if file == null then {} else {file}
  {
    if file == null then writer == null && fileError.None?
    else
      && fileError == FirstFault(file.faults, chunks)
      && (if writer == null then fileError.Some? else writer == file)
      && (fileError.None? ==> file.writes == chunks && file.staged == body)
  }

  /** Where the file stands once it has been flushed. */
  ghost predicate FileFlushed(
    writer: FileTarget?, fileError: Option<NetError>, file: FileTarget?, body: Bytes, chunks: nat)
    reads if file == null then {} else {file}
  {
    if file == null then writer == null && fileError.None?
    else
      var fault := FirstFault(file.faults, chunks);
      && fileError == (if fault.Some? then fault else file.faults.flush)
      && (if writer == null then fileError.Some? else writer == file)
      && (fileError.None? ==> file.staged == body)
  }

  /** Setting the file up: with a shared body to serve, a failure only costs the file. */
  method SetUpFile(file: FileTarget, peek: Bytes) returns (writer: FileTarget?, fileError: Option<NetError>)
    modifies file`staged, file`writes
    ensures FileStands(writer, fileError, file, peek, 0)
  {
    NothingYet(file.faults);
    fileError := file.SetUp(peek);
    writer := if fileError.None? then file else null;
  }

  /** `write_to_file`: write while the writes succeed, and keep the first failure. */
  method WriteToFile(
    writer: FileTarget?, fileError: Option<NetError>, chunk: Bytes,
    ghost file: FileTarget?, ghost body: Bytes, ghost chunks: nat)
    returns (error: Option<NetError>)
    requires FileStands(writer, fileError, file, body, chunks)
    modifies if writer == null then {} else {writer}
    ensures FileStands(writer, error, file, body + chunk, chunks + 1)
    ensures file != null ==> file.contents == old(file.contents)
  {
    hide FirstFault;
    if file != null {
      NextFault(file.faults, chunks);
    }
    error := fileError;
    if fileError.Some? {
      return;
    }
    if writer != null {
      error := writer.Write(chunk);
    }
  }

  method FlushFile(
    writer: FileTarget?, fileError: Option<NetError>, ghost file: FileTarget?, ghost body: Bytes, ghost chunks: nat)
    returns (error: Option<NetError>)
    requires FileStands(writer, fileError, file, body, chunks)
    ensures FileFlushed(writer, error, file, body, chunks)
  {
    hide FirstFault;
    error := fileError;
    if fileError.None? && writer != null && writer.faults.flush.Some? {
      error := writer.faults.flush;
    }
  }

  /** What is left once the transfer has ended cleanly: move the file into place. */
  method Conclude(
    writer: FileTarget?, fileError: Option<NetError>, file: FileTarget?,
    ghost body: Bytes, ghost events: seq<Event>, ghost shared: bool)
    returns (outcome: Outcome)
    requires FileFlushed(writer, fileError, file, body, Chunks(events)) && EndingOf(events) == Some(Clean)
    requires file == null || shared || file.faults.setup.None?
    modifies if file == null then {} else {file}
    ensures outcome == OutcomeOf(events, shared, if file == null then None else Some(file.faults))
    ensures file != null ==> file.contents == if outcome.Saved? then Some(body) else old(file.contents)
  {
    hide EndingOf, Chunks, FirstFault;
    if file == null {
      return Done;
    }
    if fileError.Some? {
      return Gave(fileError.value);
    }
    if writer == null {
      // A file was asked for and nothing failed, so there is a writer.
      assert false;
    } else {
      var renamed := writer.Rename();
      outcome := if renamed.Some? then Gave(renamed.value) else Saved;
    }
  }

  lemma OutcomeUnlessClean(events: seq<Event>, shared: bool, file: Option<Faults>)
    requires file.None? || shared || file.value.setup.None?
    ensures EndingOf(events) == None ==> OutcomeOf(events, shared, file) == Running
    ensures forall e :: EndingOf(events) == Some(Failed(e)) ==> OutcomeOf(events, shared, file) == Gave(e)
  {
    hide EndingOf;
  }

  /** The loop of the pump, up to where the transfer ends. A failure is told to subscribers after. */
  method Transfer(
    events: seq<Event>, shared: SharedBody?, writer: FileTarget?, setUp: Option<NetError>,
    ghost file: FileTarget?, ghost peek: Bytes)
    returns (transfer: Option<Ending>, fileError: Option<NetError>)
    requires FileStands(writer, setUp, file, peek, 0)
    modifies if shared == null then {} else {shared}, if writer == null then {} else {writer}
    ensures transfer == EndingOf(events)
    ensures shared != null ==>
              shared.calls + UntoldOf(transfer) == old(shared.calls) + TailCalls(events)
    ensures transfer == Some(Clean) ==>
              FileFlushed(writer, fileError, file, peek + Received(events), Chunks(events))
    ensures file != null ==> file.contents == old(file.contents)
  {
    hide EndingOf, Received, Chunks, TailCalls, FirstFault, FileStands, FileFlushed;
    fileError, transfer := setUp, None;
    ghost var seen: seq<Event>, body := [], peek;
    NothingYet(Faults(None, [], None, None));
    var buf: Bytes := [];
    var i := 0;
    while i < |events| && transfer.None?
      invariant 0 <= i <= |events| && seen == events[..i] && body == peek + Received(seen)
      invariant buf == []
      invariant transfer == EndingOf(seen)
      invariant shared != null ==> shared.calls + UntoldOf(transfer) == old(shared.calls) + TailCalls(seen)
      invariant transfer == None ==> FileStands(writer, fileError, file, body, Chunks(seen))
      invariant transfer == Some(Clean) ==> FileFlushed(writer, fileError, file, body, Chunks(seen))
      invariant file != null ==> file.contents == old(file.contents)
    {
      var event := events[i];
      i := i + 1;
      NextEvent(peek, seen, event, if shared == null then [] else old(shared.calls));
      match event {
        case Got(chunk) =>
          if chunk == [] {
            if buf != [] {
              // Each read is split off whole, so nothing is left over to flush.
              assert false;
            }
            fileError := FlushFile(writer, fileError, file, body, Chunks(seen));
            if shared != null {
              shared.Record(Finish);
            }
            transfer := Some(Clean);
          } else {
            buf := buf + chunk;
            var part := buf;
            buf := [];
            assert part == chunk;
            if shared != null {
              shared.Record(Push(part));
            }
            fileError := WriteToFile(writer, fileError, part, file, body, Chunks(seen));
          }
        case Broke(error) => transfer := Some(Failed(error));
        case IdleExpired => transfer := Some(Failed(Timeout("Pump idle timeout")));
        case DeadlinePassed => transfer := Some(Failed(Timeout("Pump total timeout")));
        case CancelRequested => transfer := Some(Failed(Cancelled("Pump cancelled")));
      }
      seen, body := seen + [event], if EndOf(event).None? then body + event.chunk else body;
    }
    if transfer.Some? {
      EndedEvents(seen, events[i..]);
    }
    assert seen + events[i..] == events;
    assert transfer.None? ==> seen == events;
  }

  /** What subscribers have still to be told when the loop is left. */
  function UntoldOf(transfer: Option<Ending>): seq<Call> {
    match transfer case Some(Failed(error)) => [Error(error)] case _ => []
  }

  /** `spawn_pump`, over the events its waits come out with. */
  method Run(events: seq<Event>, shared: SharedBody?, file: FileTarget?, peek: Bytes) returns (outcome: Outcome)
    modifies if shared == null then {} else {shared}, if file == null then {} else {file}
    ensures outcome == OutcomeOf(events, shared != null, if file == null then None else Some(file.faults))
    ensures shared != null ==> shared.calls == old(shared.calls) + Calls(peek, events)
    ensures file != null ==>
              file.contents == if outcome.Saved? then Some(peek + Received(events)) else old(file.contents)
    ensures outcome.Saved? || outcome.Done? ==> exists i: nat :: FirstEnd(events, i, Got([]))
  {
    hide EndingOf, Received, Chunks, TailCalls, FirstFault, FileStands, FileFlushed, OutcomeOf, FirstEnd;
    var fileError: Option<NetError> := None;
    var writer: FileTarget? := null;
    if file == null {
      NoFileStands(peek);
    } else {
      writer, fileError := SetUpFile(file, peek);
      SetUpStands(writer, fileError, file, peek);
      if fileError.Some? && shared == null {
        SetUpFails(events, file.faults);
        return Gave(fileError.value);
      }
    }
    if shared != null && peek != [] {
      shared.Record(Push(peek));
    }
    assert shared != null ==> shared.calls == old(shared.calls) + PeekCalls(peek);
    var transfer;
    transfer, fileError := Transfer(events, shared, writer, fileError, file, peek);
    OutcomeUnlessClean(events, shared != null, if file == null then None else Some(file.faults));
    assert shared != null ==> shared.calls + UntoldOf(transfer) == old(shared.calls) + Calls(peek, events);
    if transfer.None? {
      return Running;
    }
    if transfer.value.Failed? {
      if shared != null {
        shared.Record(Error(transfer.value.error));
      }
      return Gave(transfer.value.error);
    }
    CleanEndsAreEmptyReads(events);
    outcome := Conclude(writer, fileError, file, peek + Received(events), events, shared != null);
  }

  lemma NoFileStands(body: Bytes)
    ensures FileStands(null, None, null, body, 0)
  {
  }

  lemma SetUpStands(writer: FileTarget?, fileError: Option<NetError>, file: FileTarget, body: Bytes)
    requires FileStands(writer, fileError, file, body, 0)
    ensures fileError == file.faults.setup && (writer == null || writer == file)
  {
  }

  lemma SetUpFails(events: seq<Event>, faults: Faults)
    requires faults.setup.Some?
    ensures OutcomeOf(events, false, Some(faults)) == Gave(faults.setup.value)
  {
  }

  // ----- What subscribers see ---------------------------------------------------------------

  function Pushed(calls: seq<Call>): Bytes {
    if calls == [] then []
    else (if calls[0].Push? then calls[0].chunk else []) + Pushed(calls[1..])
  }

  lemma {:induction false} PushedConcat(a: seq<Call>, b: seq<Call>)
    ensures Pushed(a + b) == Pushed(a) + Pushed(b)
  {
    if a == [] {
      assert a + b == b;
    } else {
      assert (a + b)[1..] == a[1..] + b;
      PushedConcat(a[1..], b);
    }
  }

  lemma {:induction false} TailCallsPush(events: seq<Event>)
    ensures Pushed(TailCalls(events)) == Received(events)
    ensures var calls := TailCalls(events);
            if EndingOf(events).Some? then
              && calls != [] && calls[|calls| - 1] == EndCall(EndingOf(events).value)
              && forall i | 0 <= i < |calls| - 1 :: calls[i].Push?
            else forall i | 0 <= i < |calls| :: calls[i].Push?
  {
    if events != [] {
      var calls := TailCalls(events);
      if EndOf(events[0]).Some? {
        assert calls[1..] == [];
      } else {
        TailCallsPush(events[1..]);
        assert calls[1..] == TailCalls(events[1..]);
      }
    }
  }

  lemma PeekCallsPush(peek: Bytes)
    ensures Pushed(PeekCalls(peek)) == peek && forall i | 0 <= i < |PeekCalls(peek)| :: PeekCalls(peek)[i].Push?
  {
    if peek != [] {
      assert [Push(peek)][1..] == [];
    }
  }

  /** At any moment of a run subscribers hold a prefix of the peek and what the source gave; they
      are told of one end at most, after all of it, and exactly when the transfer has ended. */
  lemma SubscribersSeeTheBody(peek: Bytes, events: seq<Event>, n: nat)
    requires n <= |Calls(peek, events)|
    ensures var calls := Calls(peek, events);
            && Pushed(calls) == peek + Received(events)
            && Pushed(calls[..n]) <= peek + Received(events)
            && (forall i | 0 <= i < |calls| - 1 :: calls[i].Push?)
            && (EndingOf(events).Some? ==> calls != [] && calls[|calls| - 1] == EndCall(EndingOf(events).value))
            && (EndingOf(events).None? ==> forall i | 0 <= i < |calls| :: calls[i].Push?)
  {
    hide TailCalls, PeekCalls, Pushed, Received, EndingOf;
    var calls := Calls(peek, events);
    TailCallsPush(events);
    PeekCallsPush(peek);
    PushedConcat(PeekCalls(peek), TailCalls(events));
    assert calls == calls[..n] + calls[n..];
    PushedConcat(calls[..n], calls[n..]);
  }

  /** However the source cuts its bytes into chunks, the body and the outcome are the same, as long
      as no single file write fails: only the failures themselves tell runs apart. */
  lemma ChunkingDoesNotMatter(a: seq<Event>, b: seq<Event>, peek: Bytes, shared: bool, file: Option<Faults>)
    requires Received(a) == Received(b) && EndingOf(a) == EndingOf(b)
    requires file.Some? ==> file.value.writes == []
    ensures Pushed(Calls(peek, a)) == Pushed(Calls(peek, b))
    ensures OutcomeOf(a, shared, file) == OutcomeOf(b, shared, file)
  {
    SubscribersSeeTheBody(peek, a, 0);
    SubscribersSeeTheBody(peek, b, 0);
    if file.Some? {
      OnlySetupFails(file.value, Chunks(a));
      OnlySetupFails(file.value, Chunks(b));
    }
  }

  lemma {:induction false} OnlySetupFails(faults: Faults, n: nat)
    requires faults.writes == []
    ensures FirstFault(faults, n) == faults.setup
  {
    if n > 0 {
      OnlySetupFails(faults, n - 1);
    }
  }

  lemma {:induction false} NoFaultByThen(faults: Faults, n: nat)
    ensures FirstFault(faults, n).None? <==> faults.setup.None? && forall k | 0 <= k < n :: faults.Write(k).None?
  {
    if n > 0 {
      NoFaultByThen(faults, n - 1);
    }
  }

  /** The run reports the file saved exactly when the source ended cleanly and nothing went wrong
      with the file; without a file that is `Done`, and with one `Done` never happens. */
  lemma SavedMeansNothingFailed(events: seq<Event>, shared: bool, faults: Faults)
    ensures OutcomeOf(events, shared, Some(faults)) == Saved
            <==> && EndingOf(events) == Some(Clean) && faults.setup.None?
                 && (forall k | 0 <= k < Chunks(events) :: faults.Write(k).None?)
                 && faults.flush.None? && faults.rename.None?
    ensures OutcomeOf(events, shared, Some(faults)) != Done
    ensures OutcomeOf(events, shared, None) != Saved
  {
    hide EndingOf, Chunks, FirstFault;
    NoFaultByThen(faults, Chunks(events));
  }

  // ----- Runs by what ended them ------------------------------------------------------------

  /** Reads that each gave some bytes. */
  function Reads(chunks: seq<Bytes>): seq<Event> {
    seq(|chunks|, i requires 0 <= i < |chunks| => Got(chunks[i]))
  }

  function Pushes(chunks: seq<Bytes>): seq<Call> {
    seq(|chunks|, i requires 0 <= i < |chunks| => Push(chunks[i]))
  }

  predicate NoneEmpty(chunks: seq<Bytes>) {
    forall i | 0 <= i < |chunks| :: chunks[i] != []
  }

  lemma {:induction false} OfReads(chunks: seq<Bytes>)
    requires NoneEmpty(chunks)
    ensures var events := Reads(chunks);
            && EndingOf(events).None? && Received(events) == Flat(chunks) && Chunks(events) == |chunks|
            && TailCalls(events) == Pushes(chunks)
  {
    if chunks != [] {
      OfReads(chunks[1..]);
      assert Reads(chunks)[1..] == Reads(chunks[1..]);
      assert Pushes(chunks) == [Push(chunks[0])] + Pushes(chunks[1..]);
    }
  }

  /** All that happens to the file of a run that ends cleanly, in its order. */
  function Steps(faults: Faults, n: nat): seq<Option<NetError>> {
    [faults.setup] + seq(n, k requires 0 <= k < n => faults.Write(k)) + [faults.flush, faults.rename]
  }

  predicate FirstToFail(steps: seq<Option<NetError>>, i: nat, error: NetError) {
    i < |steps| && steps[i] == Some(error) && forall j | 0 <= j < i :: steps[j].None?
  }

  lemma {:induction false} FirstFaultIsFirst(faults: Faults, n: nat) returns (i: nat)
    requires FirstFault(faults, n).Some?
    ensures i <= n && FirstToFail(Steps(faults, n), i, FirstFault(faults, n).value)
  {
    var steps := Steps(faults, n);
    if n == 0 {
      i := 0;
    } else if FirstFault(faults, n - 1).Some? {
      i := FirstFaultIsFirst(faults, n - 1);
      assert steps[..n] == Steps(faults, n - 1)[..n];
      assert forall j | 0 <= j <= i :: steps[j] == steps[..n][j] == Steps(faults, n - 1)[j];
    } else {
      i := n;
      NoFaultByThen(faults, n - 1);
      assert forall j | 0 < j <= n :: steps[j] == faults.Write(j - 1);
    }
  }

  /** How a run ends whose source ends its body. */
  ghost predicate EndsCleanly(outcome: Outcome, n: nat, file: Option<Faults>) {
    if file.None? then outcome == Done
    else
      var steps := Steps(file.value, n);
      || (outcome == Saved && forall i | 0 <= i < |steps| :: steps[i].None?)
      || (outcome.Gave? && exists i :: FirstToFail(steps, i, outcome.error))
  }

  lemma CleanRunEndsCleanly(events: seq<Event>, shared: bool, file: Option<Faults>)
    requires EndingOf(events) == Some(Clean) && (file.None? || shared || file.value.setup.None?)
    ensures EndsCleanly(OutcomeOf(events, shared, file), Chunks(events), file)
  {
    hide EndingOf, Chunks, FirstFault;
    if file.Some? {
      var faults, n := file.value, Chunks(events);
      var steps := Steps(faults, n);
      assert steps[n + 1] == faults.flush && steps[n + 2] == faults.rename && |steps| == n + 3;
      if FirstFault(faults, n).Some? {
        var i := FirstFaultIsFirst(faults, n);
      } else {
        NoFaultByThen(faults, n);
        assert forall j | 0 <= j <= n :: steps[j] == if j == 0 then faults.setup else faults.Write(j - 1);
        if faults.flush.Some? {
          assert FirstToFail(steps, n + 1, faults.flush.value);
        } else if faults.rename.Some? {
          assert FirstToFail(steps, n + 2, faults.rename.value);
        }
      }
    }
  }

  lemma RunToItsEnd(chunks: seq<Bytes>, event: Event, more: seq<Event>)
    requires NoneEmpty(chunks) && EndOf(event).Some?
    ensures var events := Reads(chunks) + [event] + more;
            && EndingOf(events) == EndOf(event) && Received(events) == Flat(chunks) && Chunks(events) == |chunks|
            && TailCalls(events) == Pushes(chunks) + [CallOf(event)]
  {
    hide EndingOf, Received, Chunks, TailCalls, EndOf, CallOf, Reads, Pushes, NoneEmpty, Flat;
    OfReads(chunks);
    SnocEvent(Reads(chunks), event);
    EndedEvents(Reads(chunks) + [event], more);
    assert Flat(chunks) + [] == Flat(chunks);
  }

  lemma CallsToItsEnd(chunks: seq<Bytes>, event: Event, more: seq<Event>, peek: Bytes)
    requires NoneEmpty(chunks) && EndOf(event).Some?
    ensures Calls(peek, Reads(chunks) + [event] + more) == PeekCalls(peek) + Pushes(chunks) + [CallOf(event)]
  {
    hide EndingOf, Received, Chunks, TailCalls, EndOf, CallOf, Reads, Pushes, NoneEmpty, Flat, PeekCalls;
    RunToItsEnd(chunks, event, more);
    var a, b, c := PeekCalls(peek), Pushes(chunks), [CallOf(event)];
    assert a + (b + c) == (a + b) + c;
  }

  /** What the first thing other than bytes makes of a run: an empty read ends the body, and a read
      error, a timer or the cancellation fails it, with the error subscribers and the caller are given. */
  lemma RunEndsByItsFirstEnd(
    chunks: seq<Bytes>, event: Event, more: seq<Event>, peek: Bytes, shared: bool, file: Option<Faults>)
    requires NoneEmpty(chunks) && (event.Got? ==> event.chunk == [])
    requires file.None? || shared || file.value.setup.None?
    ensures var events := Reads(chunks) + [event] + more;
            var calls, outcome := Calls(peek, events), OutcomeOf(events, shared, file);
            var told := (if peek == [] then [] else [Push(peek)]) + Pushes(chunks);
            && Received(events) == Flat(chunks)
            && match event
               case Got(_) => calls == told + [Finish] && EndsCleanly(outcome, |chunks|, file)
               case Broke(error) => calls == told + [Error(error)] && outcome == Gave(error)
               case IdleExpired =>
                 calls == told + [Error(Timeout("Pump idle timeout"))] && outcome == Gave(Timeout("Pump idle timeout"))
               case DeadlinePassed =>
                 calls == told + [Error(Timeout("Pump total timeout"))] && outcome == Gave(Timeout("Pump total timeout"))
               case CancelRequested =>
                 calls == told + [Error(Cancelled("Pump cancelled"))] && outcome == Gave(Cancelled("Pump cancelled"))
  {
    hide EndingOf, Received, Chunks, EndsCleanly, Reads, Pushes, NoneEmpty, Flat, Calls, OutcomeOf;
    var events := Reads(chunks) + [event] + more;
    RunToItsEnd(chunks, event, more);
    CallsToItsEnd(chunks, event, more, peek);
    if event.Got? {
      CleanRunEndsCleanly(events, shared, file);
    } else {
      OutcomeUnlessClean(events, shared, file);
    }
  }

  /** While nothing but bytes comes the run goes on, and has told subscribers of each; and a run for a
      file alone that cannot set it up ends with that, whatever comes. */
  lemma RunGoesOnWhileBytesCome(
    chunks: seq<Bytes>, events: seq<Event>, peek: Bytes, shared: bool, file: Option<Faults>)
    requires NoneEmpty(chunks)
    ensures Received(Reads(chunks)) == Flat(chunks)
    ensures Calls(peek, Reads(chunks)) == (if peek == [] then [] else [Push(peek)]) + Pushes(chunks)
    ensures file.None? || shared || file.value.setup.None? ==> OutcomeOf(Reads(chunks), shared, file) == Running
    ensures file.Some? && !shared && file.value.setup.Some? ==>
              OutcomeOf(events, shared, file) == Gave(file.value.setup.value)
  {
    hide EndingOf, Received, Chunks, TailCalls;
    OfReads(chunks);
  }

  /** The `i`th event is the first that is not some bytes. */
  predicate FirstEnd(events: seq<Event>, i: nat, event: Event) {
    && i < |events| && events[i] == event && (event.Got? ==> event.chunk == [])
    && forall j | 0 <= j < i :: events[j].Got? && events[j].chunk != []
  }

  lemma {:induction false} EndsAtItsFirstEnd(events: seq<Event>) returns (i: nat)
    requires EndingOf(events).Some?
    ensures i < |events| && FirstEnd(events, i, events[i]) && EndingOf(events) == EndOf(events[i])
  {
    if EndOf(events[0]).Some? {
      i := 0;
    } else {
      i := EndsAtItsFirstEnd(events[1..]);
      i := i + 1;
    }
  }

  lemma CleanEndsAreEmptyReads(events: seq<Event>)
    requires EndingOf(events) == Some(Clean)
    ensures exists i: nat :: FirstEnd(events, i, Got([]))
  {
    var i := EndsAtItsFirstEnd(events);
    assert FirstEnd(events, i, Got([]));
  }
}
