/** Reading a response body: the peek window at its start, what was read past it, and the rest, and
    how a complete fetch holds the whole of it to a maximum size. */
module BodyTop {
  import opened NetErrors
  import opened Text

  const PEEK_MAX := 5 * 1024

  datatype Close = Clean | Broken(error: NetError)

  /** What a server sends: chunks of any size, and how they end if they do. */
  datatype Stream = Stream(chunks: seq<Bytes>, close: Option<Close>)

  /** What one wait comes out with: the stream moves on (a read then has room for `room` bytes more
      than one), or a timer or the cancellation it races wins. A stream that has nothing to give and
      has not closed leaves the wait as it is. */
  datatype Step = Go(room: nat) | IdleExpired | DeadlinePassed | CancelRequested

  datatype Problem = TooLarge | Because(error: NetError)

  // ----- The top ----------------------------------------------------------------------------

  /** The top of a response: the peek, what a chunk held past it, and the chunks still to come. */
  datatype Top =
    | Waiting
    | Refused(problem: Problem)
    | Ready(peek: Bytes, excess: Option<Bytes>, rest: seq<Bytes>, steps: seq<Step>)

  function ExcessBytes(excess: Option<Bytes>): Bytes {
    if excess.Some? then excess.value else []
  }

  predicate Over(body: Bytes, max: Option<nat>) {
    max.Some? && |body| > max.value
  }

  predicate OnlyReads(steps: seq<Step>) {
    forall i | 0 <= i < |steps| :: steps[i].Go?
  }

  /** A declared length over the maximum, of a response that may have a body. */
  predicate DeclaredTooLarge(declared: Option<nat>, bodiless: bool, max: Option<nat>) {
    declared.Some? && max.Some? && !bodiless && declared.value > max.value
  }

  /** The bytes so far are cut into a peek, an excess past a full one, and what is left. */
  predicate CutInto(whole: Bytes, peek: Bytes, excess: Option<Bytes>, left: Bytes) {
    && whole == peek + ExcessBytes(excess) + left
    && |peek| <= PEEK_MAX && excess != Some([]) && (excess.Some? ==> |peek| == PEEK_MAX)
  }

  /** A chunk goes to the peek as far as there is room, and the rest of it is kept. */
  lemma CutTakes(whole: Bytes, peek: Bytes, chunk: Bytes, left: Bytes)
    requires CutInto(whole, peek, None, chunk + left)
    ensures var need := PEEK_MAX - |peek|;
            if |chunk| <= need then CutInto(whole, peek + chunk, None, left)
            else CutInto(whole, peek + chunk[..need], Some(chunk[need..]), left)
  {
    var need := PEEK_MAX - |peek|;
    assert peek + [] + (chunk + left) == peek + chunk + [] + left;
    if |chunk| > need {
      assert chunk == chunk[..need] + chunk[need..];
      assert peek + chunk + [] + left == peek + chunk[..need] + chunk[need..] + left;
    }
  }

  /** Filling the peek window from `peek` on. */
  function Peek(peek: Bytes, chunks: seq<Bytes>, close: Option<Close>, steps: seq<Step>): Top
    decreases |steps|
  {
    if |peek| >= PEEK_MAX then Ready(peek, None, chunks, steps)
    else if steps == [] then Waiting
    else
      match steps[0]
      case CancelRequested => Refused(Because(Cancelled("peek stream cancelled")))
      case IdleExpired => Refused(Because(Timeout("read idle timeout")))
      case DeadlinePassed => Refused(Because(Timeout("total body timeout")))
      case Go(_) =>
        if chunks == [] then
          match close
          case None => Peek(peek, chunks, close, steps[1..])
          case Some(Clean) => Ready(peek, None, [], steps[1..])
          case Some(Broken(error)) => Refused(Because(error))
        else
          var chunk, need := chunks[0], PEEK_MAX - |peek|;
          if |chunk| <= need then Peek(peek + chunk, chunks[1..], close, steps[1..])
          else Ready(peek + chunk[..need], Some(chunk[need..]), chunks[1..], steps[1..])
  }

  /** The top of a response off the network. */
  function TopOf(stream: Stream, steps: seq<Step>, declared: Option<nat>, bodiless: bool, max: Option<nat>): Top {
    if DeclaredTooLarge(declared, bodiless, max) then Refused(TooLarge)
    else
      var top := Peek([], stream.chunks, stream.close, steps);
      if top.Ready? && Over(top.peek, max) then Refused(TooLarge) else top
  }

  /** The body part of `fetch_response_top_inner`: each chunk taken is counted as far as it went into
      the peek, and what counts as delivered with the top is the peek. */
  method ReadTop(stream: Stream, steps: seq<Step>, declared: Option<nat>, bodiless: bool, max: Option<nat>)
    returns (top: Top, progress: seq<nat>, delivered: nat)
    ensures top == TopOf(stream, steps, declared, bodiless, max)
    ensures |progress| <= |stream.chunks|
    ensures forall i | 0 <= i < |progress| :: progress[i] == Min(PEEK_MAX, |Flat(stream.chunks[..i + 1])|)
    ensures top.Ready? ==> |progress| == |stream.chunks| - |top.rest| && delivered == |top.peek|
  {
    hide Flat, Min, Peek;
    progress, delivered := [], 0;
    var received := 0;
    if DeclaredTooLarge(declared, bodiless, max) {
      return Refused(TooLarge), progress, 0;
    }
    var peek: Bytes, excess: Option<Bytes> := [], None;
    var at, i, ended := 0, 0, false;
    assert stream.chunks[0..] == stream.chunks && steps[0..] == steps;
    ghost var expected := Peek([], stream.chunks, stream.close, steps);
    NothingFlat(stream.chunks);
    while |peek| < PEEK_MAX && !ended
      invariant 0 <= at <= |stream.chunks| && 0 <= i <= |steps|
      invariant if ended || excess.Some? then expected == Ready(peek, excess, stream.chunks[at..], steps[i..])
                else expected == Peek(peek, stream.chunks[at..], stream.close, steps[i..])
      invariant |peek| == Min(PEEK_MAX, |Flat(stream.chunks[..at])|)
      invariant excess.Some? ==> |peek| == PEEK_MAX
      invariant received == |peek| + |ExcessBytes(excess)|
      invariant |progress| == at
      invariant forall j | 0 <= j < at :: progress[j] == Min(PEEK_MAX, |Flat(stream.chunks[..j + 1])|)
      decreases |steps| - i
    {
      PeekStep(peek, stream.chunks, at, stream.close, steps, i);
      if i == |steps| {
        return Waiting, progress, 0;
      }
      var step := steps[i];
      i := i + 1;
      match step {
        case CancelRequested => return Refused(Because(Cancelled("peek stream cancelled"))), progress, 0;
        case IdleExpired => return Refused(Because(Timeout("read idle timeout"))), progress, 0;
        case DeadlinePassed => return Refused(Because(Timeout("total body timeout"))), progress, 0;
        case Go(_) =>
      }
      if at < |stream.chunks| {
        var chunk := stream.chunks[at];
        PeekCounts(stream.chunks, at);
        at := at + 1;
        received := received + |chunk|;
        var need := PEEK_MAX - |peek|;
        if |chunk| <= need {
          peek := peek + chunk;
        } else {
          // The peek is full now, which ends the loop.
          peek, excess := peek + chunk[..need], Some(chunk[need..]);
        }
        progress := progress + [|peek|];
      } else if stream.close.Some? {
        if stream.close.value.Broken? {
          return Refused(Because(stream.close.value.error)), progress, 0;
        }
        ended := true;
      }
    }
    if !ended && excess.None? {
      PeekFull(peek, stream.chunks[at..], stream.close, steps[i..]);
    }
    if Over(peek, max) {
      return Refused(TooLarge), progress, 0;
    }
    delivered := received - |ExcessBytes(excess)|;
    top := Ready(peek, excess, stream.chunks[at..], steps[i..]);
  }

  /** So the counts of the top never go back, and what the reader of the rest starts at is the last. */
  lemma PeekCountsRise(chunks: seq<Bytes>, i: nat, j: nat)
    requires i <= j <= |chunks|
    ensures Min(PEEK_MAX, |Flat(chunks[..i])|) <= Min(PEEK_MAX, |Flat(chunks[..j])|)
  {
    assert chunks[..j][..i] == chunks[..i];
    FlatPrefix(chunks[..j], i);
  }

  lemma NothingFlat(chunks: seq<Bytes>)
    ensures |Flat(chunks[..0])| == 0 && Min(PEEK_MAX, 0) == 0
  {
  }

  lemma PeekFull(peek: Bytes, chunks: seq<Bytes>, close: Option<Close>, steps: seq<Step>)
    requires |peek| >= PEEK_MAX
    ensures Peek(peek, chunks, close, steps) == Ready(peek, None, chunks, steps)
  {
  }

  lemma PeekStep(peek: Bytes, chunks: seq<Bytes>, at: nat, close: Option<Close>, steps: seq<Step>, i: nat)
    requires |peek| < PEEK_MAX && at <= |chunks| && i <= |steps|
    ensures Peek(peek, chunks[at..], close, steps[i..])
         == if i == |steps| then Waiting
            else
              match steps[i]
              case CancelRequested => Refused(Because(Cancelled("peek stream cancelled")))
              case IdleExpired => Refused(Because(Timeout("read idle timeout")))
              case DeadlinePassed => Refused(Because(Timeout("total body timeout")))
              case Go(_) =>
                if at == |chunks| then
                  match close
                  case None => Peek(peek, chunks[at..], close, steps[i + 1..])
                  case Some(Clean) => Ready(peek, None, chunks[at..], steps[i + 1..])
                  case Some(Broken(error)) => Refused(Because(error))
                else
                  var need := PEEK_MAX - |peek|;
                  if |chunks[at]| <= need then Peek(peek + chunks[at], chunks[at + 1..], close, steps[i + 1..])
                  else Ready(peek + chunks[at][..need], Some(chunks[at][need..]), chunks[at + 1..], steps[i + 1..])
  {
    if i < |steps| {
      assert steps[i..][1..] == steps[i + 1..];
    }
    if at < |chunks| {
      assert chunks[at..][1..] == chunks[at + 1..];
    }
  }

  lemma PeekCounts(chunks: seq<Bytes>, at: nat)
    requires at < |chunks|
    ensures var before := Min(PEEK_MAX, |Flat(chunks[..at])|);
            Min(PEEK_MAX, |Flat(chunks[..at + 1])|) == Min(PEEK_MAX, before + |chunks[at]|)
            && (before + |chunks[at]| <= PEEK_MAX ==> Min(PEEK_MAX, before + |chunks[at]|) == before + |chunks[at]|)
            && (before + |chunks[at]| > PEEK_MAX ==> Min(PEEK_MAX, before + |chunks[at]|) == PEEK_MAX)
  {
    hide Flat;
    assert chunks[..at + 1] == chunks[..at] + [chunks[at]];
    FlatSnoc(chunks[..at], chunks[at]);
  }

  /** Peek, excess and rest are the body, cut at the end of the window or of the body; a body is only
      given up for a wait or a stream that fails; and with reads enough the top gets ready. */
  lemma {:induction false} PeekCutsTheBody(peek: Bytes, chunks: seq<Bytes>, close: Option<Close>, steps: seq<Step>)
    requires |peek| <= PEEK_MAX
    ensures var top, body := Peek(peek, chunks, close, steps), peek + Flat(chunks);
            && (top.Ready? ==>
                  && CutInto(body, top.peek, top.excess, Flat(top.rest))
                  && |top.peek| == Min(PEEK_MAX, |body|)
                  && (|top.peek| < PEEK_MAX ==> top.rest == [] && top.excess == None && close == Some(Clean)))
            && top != Refused(TooLarge)
            && (OnlyReads(steps) && |steps| > |chunks| && close == Some(Clean) ==>
                  top.Ready? && OnlyReads(top.steps) && |top.steps| >= |steps| - |chunks| - 1)
    decreases |steps|
  {
    var body := peek + Flat(chunks);
    if |peek| >= PEEK_MAX {
      assert peek + [] + Flat(chunks) == body;
    } else if steps != [] && steps[0].Go? {
      if chunks == [] {
        assert peek + [] + [] == body;
        PeekCutsTheBody(peek, chunks, close, steps[1..]);
      } else {
        var chunk, rest := chunks[0], Flat(chunks[1..]);
        CutTakes(body, peek, chunk, rest);
        assert peek + chunk + rest == body;
        if |chunk| <= PEEK_MAX - |peek| {
          PeekCutsTheBody(peek + chunk, chunks[1..], close, steps[1..]);
        }
      }
    }
  }

  // ----- The whole --------------------------------------------------------------------------

  datatype Complete = Unfinished | NotFetched(problem: Problem) | Fetched(body: Bytes)

  /** What becomes of the body in hand, with `left` still to be read off a stream that closes so. */
  function Completed(body: Bytes, left: Bytes, close: Option<Close>, steps: seq<Step>, max: Option<nat>): Complete
    decreases |steps|
  {
    if steps == [] then Unfinished
    else
      match steps[0]
      case CancelRequested => NotFetched(Because(Cancelled("body read cancelled")))
      case DeadlinePassed => NotFetched(Because(Timeout("total body timeout")))
      case IdleExpired => NotFetched(Because(Timeout("read idle timeout")))
      case Go(room) =>
        if left == [] then
          match close
          case None => Completed(body, left, close, steps[1..], max)
          case Some(Clean) => Fetched(body)
          case Some(Broken(error)) => NotFetched(Because(error))
        else
          var n := Min(room + 1, |left|);
          if Over(body + left[..n], max) then NotFetched(TooLarge)
          else Completed(body + left[..n], left[n..], close, steps[1..], max)
  }

  /** The read loop of `fetch_response_complete`. */
  method ReadRest(peek: Bytes, rest: Bytes, close: Option<Close>, steps: seq<Step>, max: Option<nat>)
    returns (r: Complete)
    ensures r == Completed(peek, rest, close, steps, max)
  {
    hide Over;
    var body, left, i := peek, rest, 0;
    while i < |steps|
      invariant 0 <= i <= |steps|
      invariant Completed(body, left, close, steps[i..], max) == Completed(peek, rest, close, steps, max)
    {
      assert steps[i..][1..] == steps[i + 1..];
      var step := steps[i];
      i := i + 1;
      match step {
        case CancelRequested => return NotFetched(Because(Cancelled("body read cancelled")));
        case DeadlinePassed => return NotFetched(Because(Timeout("total body timeout")));
        case IdleExpired => return NotFetched(Because(Timeout("read idle timeout")));
        case Go(room) =>
          if left == [] {
            match close {
              case None =>
              case Some(Clean) => return Fetched(body);
              case Some(Broken(error)) => return NotFetched(Because(error));
            }
          } else {
            var n := Min(room + 1, |left|);
            body, left := body + left[..n], left[n..];
            if Over(body, max) {
              return NotFetched(TooLarge);
            }
          }
      }
    }
    r := Unfinished;
  }

  /** What is fetched is all of it, within the maximum if anything was read; what is refused is over
      the maximum; and with reads enough and nothing else one of the two happens. */
  lemma {:induction false} ReadsAllOrRefuses(
    body: Bytes, left: Bytes, close: Option<Close>, steps: seq<Step>, max: Option<nat>)
    ensures var r := Completed(body, left, close, steps, max);
            && (r.Fetched? ==> r.body == body + left && close == Some(Clean) && (left != [] ==> !Over(body + left, max)))
            && (r == NotFetched(TooLarge) ==> left != [] && Over(body + left, max))
            && (OnlyReads(steps) && |steps| > |left| && close == Some(Clean) ==>
                  r == if left != [] && Over(body + left, max) then NotFetched(TooLarge) else Fetched(body + left))
    decreases |steps|
  {
    if steps != [] && steps[0].Go? {
      if left == [] {
        assert body + left == body;
        ReadsAllOrRefuses(body, left, close, steps[1..], max);
      } else {
        var n := Min(steps[0].room + 1, |left|);
        assert left == left[..n] + left[n..];
        assert body + left[..n] + left[n..] == body + left;
        ReadsAllOrRefuses(body + left[..n], left[n..], close, steps[1..], max);
      }
    }
  }

  /** A complete fetch off the network. */
  function CompleteOf(
    stream: Stream, steps: seq<Step>, declared: Option<nat>, bodiless: bool, max: Option<nat>): Complete
  {
    match TopOf(stream, steps, declared, bodiless, max)
    case Waiting => Unfinished
    case Refused(problem) => NotFetched(problem)
    case Ready(peek, excess, rest, left) =>
      Completed(peek, ExcessBytes(excess) + Flat(rest), stream.close, left, max)
  }

  method FetchComplete(stream: Stream, steps: seq<Step>, declared: Option<nat>, bodiless: bool, max: Option<nat>)
    returns (r: Complete)
    ensures r == CompleteOf(stream, steps, declared, bodiless, max)
  {
    var top, _, _ := ReadTop(stream, steps, declared, bodiless, max);
    match top {
      case Waiting => r := Unfinished;
      case Refused(problem) => r := NotFetched(problem);
      case Ready(peek, excess, rest, left) =>
        r := ReadRest(peek, ExcessBytes(excess) + Flat(rest), stream.close, left, max);
    }
  }

  /** What a complete fetch gives is the whole body, within the maximum; what it refuses for its size
      declares or has a body over it; and with reads enough and nothing else a body that ends is given
      or refused by its size alone, however it is cut into chunks. */
  lemma FetchedBodyIsWholeAndWithinMaximum(
    stream: Stream, steps: seq<Step>, declared: Option<nat>, bodiless: bool, max: Option<nat>)
    ensures var r, body := CompleteOf(stream, steps, declared, bodiless, max), Flat(stream.chunks);
            var tooLarge := max.Some? && (max.value < |body| || (declared.Some? && !bodiless && max.value < declared.value));
            && (r.Fetched? ==> r.body == body && stream.close == Some(Clean) && !tooLarge)
            && (r == NotFetched(TooLarge) ==> tooLarge)
            && (OnlyReads(steps) && |steps| > |stream.chunks| + |body| + 1 && stream.close == Some(Clean) ==>
                  r == if tooLarge then NotFetched(TooLarge) else Fetched(body))
  {
    hide Peek, Completed, Flat, OnlyReads, Min;
    var body := Flat(stream.chunks);
    PeekCutsTheBody([], stream.chunks, stream.close, steps);
    assert [] + body == body;
    var top := Peek([], stream.chunks, stream.close, steps);
    if top.Ready? {
      var left := ExcessBytes(top.excess) + Flat(top.rest);
      assert top.peek + left == body;
      ReadsAllOrRefuses(top.peek, left, stream.close, top.steps, max);
    }
  }

  /** A complete fetch answered by the cache: the peek is cut off the stored body, and no maximum is
      looked at before the first read. */
  function FetchStored(body: Bytes, steps: seq<Step>, max: Option<nat>): Complete {
    var n := Min(|body|, PEEK_MAX);
    Completed(body[..n], body[n..], Some(Clean), steps, max)
  }

  /** So a stored body is held to the maximum exactly when it does not fit the peek window: read to
      its end, it is refused if it is over both, and given whole if it is not. */
  lemma StoredBodyIsHeldToMaximumPastThePeek(body: Bytes, steps: seq<Step>, max: Option<nat>)
    ensures FetchStored(body, steps, max).Fetched? ==> FetchStored(body, steps, max).body == body
    ensures OnlyReads(steps) && |steps| > |body| ==>
              FetchStored(body, steps, max)
              == if Over(body, max) && |body| > PEEK_MAX then NotFetched(TooLarge) else Fetched(body)
  {
    hide Completed;
    var n := Min(|body|, PEEK_MAX);
    assert body == body[..n] + body[n..];
    ReadsAllOrRefuses(body[..n], body[n..], Some(Clean), steps, max);
  }

  /** For one, a stored body of one byte passes a maximum of none. */
  lemma StoredBodyOverTheMaximum()
    ensures FetchStored([7], [Go(0)], Some(0)) == Fetched([7])
  {
    assert [7 as Byte][..1] == [7];
  }

  // ----- What stops a body ------------------------------------------------------------------

  /** The first wait that a timer or the cancellation wins. */
  predicate FirstStop(steps: seq<Step>, k: nat) {
    k < |steps| && !steps[k].Go? && OnlyReads(steps[..k])
  }

  /** The error such a wait gives, with the words a cancellation is told in. */
  predicate StopGives(step: Step, cancelled: string, error: NetError) {
    match step
    case CancelRequested => error == Cancelled(cancelled)
    case IdleExpired => error == Timeout("read idle timeout")
    case DeadlinePassed => error == Timeout("total body timeout")
    case Go(_) => false
  }

  /** Some first stop gives this error. */
  ghost predicate StoppedWith(steps: seq<Step>, cancelled: string, error: NetError) {
    exists k: nat :: FirstStop(steps, k) && StopGives(steps[k], cancelled, error)
  }

  lemma LaterStop(steps: seq<Step>, cancelled: string, error: NetError)
    requires steps != [] && steps[0].Go? && StoppedWith(steps[1..], cancelled, error)
    ensures StoppedWith(steps, cancelled, error)
  {
    var k: nat :| FirstStop(steps[1..], k) && StopGives(steps[1..][k], cancelled, error);
    assert steps[..k + 1] == [steps[0]] + steps[1..][..k];
    assert FirstStop(steps, k + 1) && StopGives(steps[k + 1], cancelled, error);
  }

  lemma FirstStepStops(steps: seq<Step>, cancelled: string, error: NetError)
    requires steps != [] && StopGives(steps[0], cancelled, error)
    ensures StoppedWith(steps, cancelled, error)
  {
    assert FirstStop(steps, 0);
  }

  /** The top is refused with an error only for the first wait lost, or for the stream's own error;
      it is still waited for only if every wait was a read, and ready only by reads alone. */
  lemma {:induction false} TopFailsByItsFirstStop(
    peek: Bytes, chunks: seq<Bytes>, close: Option<Close>, steps: seq<Step>)
    ensures match Peek(peek, chunks, close, steps)
            case Refused(problem) =>
              && problem.Because?
              && (close == Some(Broken(problem.error)) || StoppedWith(steps, "peek stream cancelled", problem.error))
            case Waiting => OnlyReads(steps)
            case Ready(_, _, _, left) =>
              |left| <= |steps| && left == steps[|steps| - |left|..] && OnlyReads(steps[..|steps| - |left|])
    decreases |steps|
  {
    hide StoppedWith;
    var top := Peek(peek, chunks, close, steps);
    if |peek| < PEEK_MAX && steps != [] {
      if !steps[0].Go? {
        FirstStepStops(steps, "peek stream cancelled", top.problem.error);
      } else {
        var later := steps[1..];
        if chunks == [] {
          if close.None? {
            TopFailsByItsFirstStop(peek, chunks, close, later);
            TopAfterARead(steps, top);
          }
        } else if |chunks[0]| <= PEEK_MAX - |peek| {
          TopFailsByItsFirstStop(peek + chunks[0], chunks[1..], close, later);
          TopAfterARead(steps, top);
        }
      }
    }
  }

  /** What holds of the steps after a read holds of all of them. */
  lemma TopAfterARead(steps: seq<Step>, top: Top)
    requires steps != [] && steps[0].Go?
    ensures top.Refused? && top.problem.Because?
            && StoppedWith(steps[1..], "peek stream cancelled", top.problem.error) ==>
              StoppedWith(steps, "peek stream cancelled", top.problem.error)
    ensures OnlyReads(steps[1..]) ==> OnlyReads(steps)
    ensures var later := steps[1..];
            top.Ready? && |top.steps| <= |later| && top.steps == later[|later| - |top.steps|..]
            && OnlyReads(later[..|later| - |top.steps|]) ==>
              top.steps == steps[|steps| - |top.steps|..] && OnlyReads(steps[..|steps| - |top.steps|])
  {
    hide StoppedWith;
    var later := steps[1..];
    assert steps == [steps[0]] + later;
    if top.Refused? && top.problem.Because? && StoppedWith(later, "peek stream cancelled", top.problem.error) {
      LaterStop(steps, "peek stream cancelled", top.problem.error);
    }
    if top.Ready? && |top.steps| <= |later| {
      var n := |later| - |top.steps|;
      assert steps[..n + 1] == [steps[0]] + later[..n] && steps[n + 1..] == later[n..];
    }
  }

  /** The rest fails likewise: by the first wait lost or by the stream, and goes on only while every
      wait is a read. */
  lemma {:induction false} RestFailsByItsFirstStop(
    body: Bytes, left: Bytes, close: Option<Close>, steps: seq<Step>, max: Option<nat>)
    ensures match Completed(body, left, close, steps, max)
            case NotFetched(Because(error)) =>
              close == Some(Broken(error)) || StoppedWith(steps, "body read cancelled", error)
            case Unfinished => OnlyReads(steps)
            case _ => steps != [] && steps[0].Go?
    decreases |steps|
  {
    hide StoppedWith, Over;
    var r := Completed(body, left, close, steps, max);
    if steps != [] {
      if !steps[0].Go? {
        FirstStepStops(steps, "body read cancelled", r.problem.error);
      } else {
        var n := if left == [] then 0 else Min(steps[0].room + 1, |left|);
        var taken := body + left[..n];
        if left == [] {
          RestFailsByItsFirstStop(body, left, close, steps[1..], max);
        } else {
          RestFailsByItsFirstStop(taken, left[n..], close, steps[1..], max);
        }
        assert steps == [steps[0]] + steps[1..];
        if r.NotFetched? && r.problem.Because? && StoppedWith(steps[1..], "body read cancelled", r.problem.error) {
          LaterStop(steps, "body read cancelled", r.problem.error);
        }
      }
    }
  }

  /** A stop in what follows some reads is the first stop of all. */
  lemma StopAfterReads(steps: seq<Step>, n: nat, cancelled: string, error: NetError)
    requires n <= |steps| && OnlyReads(steps[..n]) && StoppedWith(steps[n..], cancelled, error)
    ensures StoppedWith(steps, cancelled, error)
  {
    var k: nat :| FirstStop(steps[n..], k) && StopGives(steps[n..][k], cancelled, error);
    assert steps[..n + k] == steps[..n] + steps[n..][..k];
    assert FirstStop(steps, n + k) && StopGives(steps[n + k], cancelled, error);
  }

  /** A fetch off the network that gives up with an error, and not for a size, does so for the stream's
      own error or the first wait lost, a cancellation told apart by whether the top was there; and one
      still going has lost none. */
  lemma FetchFailsByItsFirstStop(
    stream: Stream, steps: seq<Step>, declared: Option<nat>, bodiless: bool, max: Option<nat>)
    ensures match CompleteOf(stream, steps, declared, bodiless, max)
            case NotFetched(Because(error)) =>
              || stream.close == Some(Broken(error))
              || StoppedWith(steps, "peek stream cancelled", error)
              || StoppedWith(steps, "body read cancelled", error)
            case Unfinished => OnlyReads(steps)
            case _ => true
  {
    hide Peek, Completed, Flat, OnlyReads, Over, DeclaredTooLarge, StoppedWith, FirstStop;
    TopFailsByItsFirstStop([], stream.chunks, stream.close, steps);
    var top := Peek([], stream.chunks, stream.close, steps);
    if top.Ready? {
      var n, left := |steps| - |top.steps|, ExcessBytes(top.excess) + Flat(top.rest);
      RestFailsByItsFirstStop(top.peek, left, stream.close, top.steps, max);
      var r := Completed(top.peek, left, stream.close, top.steps, max);
      if r.NotFetched? && r.problem.Because? && StoppedWith(top.steps, "body read cancelled", r.problem.error) {
        StopAfterReads(steps, n, "body read cancelled", r.problem.error);
      }
      if OnlyReads(top.steps) {
        ReadsInARow(steps, n);
      }
    }
  }

  lemma ReadsInARow(steps: seq<Step>, n: nat)
    requires n <= |steps| && OnlyReads(steps[..n]) && OnlyReads(steps[n..])
    ensures OnlyReads(steps)
  {
    assert steps == steps[..n] + steps[n..];
  }
}
