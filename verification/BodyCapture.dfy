/** Copying the start of a body for an observer while its consumer reads it. */
module BodyCapture {
  import opened Text

  datatype Poll = Pending | Chunk(chunk: Bytes) | Error | End

  datatype Preview = Preview(body: Bytes, truncated: bool)

  datatype State = State(captured: Bytes, remaining: nat, truncated: bool, reported: bool, previews: seq<Preview>)

  function First(n: nat, body: Bytes): Bytes {
    body[..Min(n, |body|)]
  }

  // ----- One step ---------------------------------------------------------------------------

  /** As much of the body as the limit allows, and what is left of it. */
  function Kept(limit: nat, body: Bytes, truncated: bool): State {
    State(First(limit, body), limit - |First(limit, body)|, truncated || |body| > limit, false, [])
  }

  function Made(limit: nat, prefix: Bytes): State {
    Kept(limit, prefix, false)
  }

  /** What the capture and its budget come to with a chunk more; one that finds no budget is more than
      fits, however short. */
  function Absorbed(s: State, chunk: Bytes): State {
    Kept(|s.captured| + s.remaining, s.captured + chunk, s.truncated || s.remaining == 0)
    .(reported := s.reported, previews := s.previews)
  }

  /** The one preview, and nothing captured any more. */
  function Reported(s: State): State {
    if s.reported then s
    else State([], s.remaining, s.truncated, true, s.previews + [Preview(s.captured, s.truncated)])
  }

  function Polled(s: State, poll: Poll): State {
    if poll.Chunk? then Absorbed(s, poll.chunk) else if poll.Pending? then s else Reported(s)
  }

  /** Letting go before the end leaves more of the body than was captured. */
  function Dropped(s: State): State {
    Reported(s.(truncated := s.truncated || !s.reported))
  }

  class CapturingBody {
    var captured: Bytes
    var remaining: nat
    var truncated: bool
    var reported: bool
    var previews: seq<Preview>

    function View(): State
      reads this
    {
      State(captured, remaining, truncated, reported, previews)
    }

    constructor (limit: nat, prefix: Bytes)
      ensures View() == Made(limit, prefix)
    {
      var take := Min(|prefix|, limit);
      captured, remaining, truncated := prefix[..take], limit - take, take < |prefix|;
      reported, previews := false, [];
    }

    method Absorb(chunk: Bytes)
      modifies this
      ensures View() == Absorbed(old(View()), chunk)
    {
      if remaining == 0 {
        truncated := true;
        return;
      }
      var take := Min(|chunk|, remaining);
      captured := captured + chunk[..take];
      remaining := remaining - take;
      if take < |chunk| {
        truncated := true;
      }
    }

    method Report()
      modifies this
      ensures View() == Reported(old(View()))
    {
      if reported {
        return;
      }
      reported := true;
      previews := previews + [Preview(captured, truncated)];
      captured := [];
    }

    /** What the stream underneath answers goes to the consumer as it came. */
    method PollNext(poll: Poll) returns (r: Poll)
      modifies this
      ensures View() == Polled(old(View()), poll) && r == poll
    {
      match poll {
        case Chunk(chunk) => Absorb(chunk);
        case Error => Report();
        case End => Report();
        case Pending =>
      }
      r := poll;
    }

    method Drop()
      modifies this
      ensures View() == Dropped(old(View()))
    {
      if !reported {
        truncated := true;
        Report();
      }
    }
  }

  // ----- Whole lives ------------------------------------------------------------------------

  function After(limit: nat, prefix: Bytes, polls: seq<Poll>): State {
    if polls == [] then Made(limit, prefix)
    else Polled(After(limit, prefix, polls[..|polls| - 1]), polls[|polls| - 1])
  }

  predicate EndSeen(polls: seq<Poll>) {
    exists i | 0 <= i < |polls| :: polls[i].End? || polls[i].Error?
  }

  /** The chunks that came before the body ended or failed. */
  function Taken(polls: seq<Poll>): seq<Bytes> {
    if polls == [] then []
    else
      var front, last := polls[..|polls| - 1], polls[|polls| - 1];
      if !EndSeen(front) && last.Chunk? then Taken(front) + [last.chunk] else Taken(front)
  }

  /** The limit was reached by the first `i` chunks. */
  predicate FullBy(limit: nat, prefix: Bytes, chunks: seq<Bytes>, i: nat) {
    i <= |chunks| && |prefix + Flat(chunks[..i])| >= limit
  }

  /** More came than the limit, or something, if only an empty chunk, came once it was reached. */
  predicate CameToMore(limit: nat, prefix: Bytes, chunks: seq<Bytes>) {
    || |prefix + Flat(chunks)| > limit
    || exists i | 0 <= i < |chunks| :: FullBy(limit, prefix, chunks, i)
  }

  function ExpectedPreview(limit: nat, prefix: Bytes, polls: seq<Poll>): Preview {
    Preview(First(limit, prefix + Flat(Taken(polls))), !EndSeen(polls) || CameToMore(limit, prefix, Taken(polls)))
  }

  /** What is kept before the report: the start of the body up to the limit. */
  predicate Captures(s: State, limit: nat, prefix: Bytes, chunks: seq<Bytes>) {
    && s.captured == First(limit, prefix + Flat(chunks)) && |s.captured| + s.remaining == limit
    && (s.truncated <==> CameToMore(limit, prefix, chunks))
    && !s.reported && s.previews == []
  }

  lemma FullBySnoc(limit: nat, prefix: Bytes, chunks: seq<Bytes>, chunk: Bytes, i: nat)
    requires i <= |chunks|
    ensures FullBy(limit, prefix, chunks + [chunk], i) <==> FullBy(limit, prefix, chunks, i)
  {
    hide Flat;
    assert (chunks + [chunk])[..i] == chunks[..i];
  }

  /** One more chunk comes to more exactly when it finds no budget, or too little. */
  lemma CameToMoreSnoc(limit: nat, prefix: Bytes, chunks: seq<Bytes>, chunk: Bytes)
    ensures CameToMore(limit, prefix, chunks + [chunk])
            <==> || CameToMore(limit, prefix, chunks) || |prefix + Flat(chunks)| >= limit
                 || |prefix + Flat(chunks) + chunk| > limit
  {
    hide Flat, FullBy;
    var more := chunks + [chunk];
    FlatSnoc(chunks, chunk);
    assert prefix + (Flat(chunks) + chunk) == prefix + Flat(chunks) + chunk;
    FullByAll(limit, prefix, chunks);
    forall i | 0 <= i <= |chunks|
      ensures FullBy(limit, prefix, more, i) <==> FullBy(limit, prefix, chunks, i)
    {
      FullBySnoc(limit, prefix, chunks, chunk, i);
    }
  }

  lemma FullByAll(limit: nat, prefix: Bytes, chunks: seq<Bytes>)
    ensures FullBy(limit, prefix, chunks, |chunks|) <==> |prefix + Flat(chunks)| >= limit
  {
    assert chunks[..|chunks|] == chunks;
  }

  lemma CapturesStart(limit: nat, prefix: Bytes)
    ensures Captures(Made(limit, prefix), limit, prefix, [])
  {
    assert prefix + Flat([]) == prefix;
  }

  lemma CapturesStep(s: State, limit: nat, prefix: Bytes, chunks: seq<Bytes>, chunk: Bytes)
    requires Captures(s, limit, prefix, chunks)
    ensures Captures(Absorbed(s, chunk), limit, prefix, chunks + [chunk])
  {
    hide Flat, CameToMore;
    CameToMoreSnoc(limit, prefix, chunks, chunk);
    FlatSnoc(chunks, chunk);
    var body := prefix + Flat(chunks);
    assert prefix + (Flat(chunks) + chunk) == body + chunk;
    CaptureGrows(limit, body, chunk);
  }

  lemma CaptureGrows(limit: nat, body: Bytes, chunk: Bytes)
    ensures var room := limit - |First(limit, body)|;
            First(limit, body + chunk) == First(limit, body) + chunk[..Min(|chunk|, room)]
  {
  }

  lemma EndSeenSnoc(front: seq<Poll>, last: Poll)
    ensures EndSeen(front + [last]) <==> EndSeen(front) || last.End? || last.Error?
  {
    var polls := front + [last];
    assert polls[|front|] == last && forall i | 0 <= i < |front| :: polls[i] == front[i];
    if EndSeen(front) {
      var i :| 0 <= i < |front| && (front[i].End? || front[i].Error?);
      assert polls[i].End? || polls[i].Error?;
    }
  }

  lemma {:induction false} CapturesUntilTheEnd(limit: nat, prefix: Bytes, polls: seq<Poll>)
    ensures var s := After(limit, prefix, polls);
            if EndSeen(polls) then s.reported && s.previews == [ExpectedPreview(limit, prefix, polls)]
            else Captures(s, limit, prefix, Taken(polls))
  {
    hide EndSeen, CameToMore, Flat, First, Absorbed;
    if polls == [] {
      NothingSeen();
      CapturesStart(limit, prefix);
    } else {
      var front, last := polls[..|polls| - 1], polls[|polls| - 1];
      assert polls == front + [last];
      CapturesUntilTheEnd(limit, prefix, front);
      EndSeenSnoc(front, last);
      if last.Chunk? {
        if EndSeen(front) {
          AbsorbedKeepsReport(After(limit, prefix, front), last.chunk);
        } else {
          CapturesStep(After(limit, prefix, front), limit, prefix, Taken(front), last.chunk);
        }
      }
    }
  }

  lemma NothingSeen()
    ensures !EndSeen([])
  {
  }

  lemma AbsorbedKeepsReport(s: State, chunk: Bytes)
    ensures Absorbed(s, chunk).reported == s.reported && Absorbed(s, chunk).previews == s.previews
  {
  }

  /** Over any polls, those after the end too, and then the drop, there is exactly one preview: the
      first `limit` bytes of the prefix and the body read, marked truncated exactly when the body was
      left before its end or came to more. */
  lemma ExactlyOnePreview(limit: nat, prefix: Bytes, polls: seq<Poll>)
    ensures Dropped(After(limit, prefix, polls)).previews == [ExpectedPreview(limit, prefix, polls)]
  {
    hide EndSeen, CameToMore, First;
    CapturesUntilTheEnd(limit, prefix, polls);
  }

  /** Without empty chunks, coming to more is being longer than the limit. */
  lemma CameToMoreMeansLonger(limit: nat, prefix: Bytes, chunks: seq<Bytes>)
    requires forall i | 0 <= i < |chunks| :: chunks[i] != []
    ensures CameToMore(limit, prefix, chunks) <==> |prefix + Flat(chunks)| > limit
  {
    hide Flat;
    forall i | 0 <= i < |chunks| && FullBy(limit, prefix, chunks, i)
      ensures |prefix + Flat(chunks)| > limit
    {
      assert chunks[..i + 1] == chunks[..i] + [chunks[i]];
      FlatSnoc(chunks[..i], chunks[i]);
      FlatPrefix(chunks, i + 1);
    }
  }

  /** With one, a body that fits is marked truncated. */
  lemma EmptyChunkMarksTruncated()
    ensures ExpectedPreview(1, [7], [Chunk([]), End]) == Preview([7], true)
  {
    var nothing: Bytes, seven: Bytes := [], [7];
    var polls := [Chunk(nothing), End];
    assert polls[..1] == [Chunk(nothing)] && [Chunk(nothing)][..0] == [];
    assert polls[1].End?;
    assert !EndSeen([Chunk(nothing)]);
    assert Taken([Chunk(nothing)]) == [nothing];
    assert Taken(polls) == [nothing];
    assert [nothing][..0] == [] && seven + Flat([]) == seven;
    assert [nothing][1..] == [];
    assert Flat([nothing]) == nothing + Flat([]);
    assert seven + Flat([nothing]) == seven;
    assert FullBy(1, seven, [nothing], 0);
    assert CameToMore(1, seven, [nothing]);
  }
}
