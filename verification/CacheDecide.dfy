/** What a request does with the responses stored for it: use one, use one and revalidate behind it,
    revalidate first, go to the network, or fail because nothing usable is stored. */
module CacheDecisions {
  import opened Text
  import opened Headers
  import opened CacheEntries
  import Cache = CacheContents

  datatype CacheMode = Default | NoStore | Reload | NoCache | ForceCache | OnlyIfCached

  datatype Decision =
    | Use(entry: CacheEntry)
    | Revalidate(entry: CacheEntry, conditional: HeaderMap)
    | UseStale(entry: CacheEntry)
    | Send
    | NotCached

  predicate BypassesCache(request: HeaderMap) {
    || Contains(request, "range")
    || Contains(request, "if-range")
    || Contains(request, "if-none-match")
    || Contains(request, "if-match")
    || Contains(request, "if-modified-since")
    || Contains(request, "if-unmodified-since")
  }

  /** What asks the server about an entry: a conditional request if it has anything to ask with. */
  function Revalidated(e: CacheEntry): Decision {
    var conditional := e.ConditionalHeaders();
    if conditional == [] then Send else Revalidate(e, conditional)
  }

  /** The matching entry made last; of several made at once the one that comes last. */
  function Newest(entries: seq<CacheEntry>, request: HeaderMap, decoded: bool, dates: Dates): Option<CacheEntry> {
    if entries == [] then None
    else
      var last := entries[|entries| - 1];
      var best := Newest(entries[..|entries| - 1], request, decoded, dates);
      if last.Matches(request, decoded) && (best.None? || last.Dated(dates) >= best.value.Dated(dates)) then Some(last)
      else best
  }

  function Lifetime(e: CacheEntry, dates: Dates): (r: int)
    ensures r >= 0
  {
    match e.FreshnessLifetime(dates) case Some(n) => n case None => 0
  }

  function DecideFor(
    e: CacheEntry, asked: RequestDirectives, onlyIfCached: bool, mode: CacheMode, dates: Dates, now: int): Decision
  {
    var stored := ResponseDirectivesOf(e.headers);
    if mode == ForceCache || onlyIfCached then
      if stored.noCache || (stored.mustRevalidate && !e.IsFresh(dates, now)) then
        if onlyIfCached then NotCached else Revalidated(e)
      else Use(e)
    else if mode == CacheMode.NoCache || asked.noCache || stored.noCache then Revalidated(e)
    else
      var age, lifetime := e.CurrentAge(dates, now), Lifetime(e, dates);
      var stillFresh := age < lifetime;
      var tolerated := !stillFresh && !stored.mustRevalidate && asked.maxStale.Some?
                       && (match asked.maxStale.value
                           case Some(limit) => age - lifetime <= limit * SECOND
                           case None => true);
      var covered := !(stillFresh || tolerated) && mode == Default && !stored.mustRevalidate
                     && stored.staleWhileRevalidate.Some?
                     && age - lifetime <= stored.staleWhileRevalidate.value * SECOND;
      var young := asked.maxAge.Some? ==> age <= asked.maxAge.value * SECOND;
      var usable := (stillFresh || tolerated) && young
                    && (asked.minFresh.Some? ==> lifetime - age >= asked.minFresh.value * SECOND);
      var staleUsable := covered && young && asked.minFresh.None?;
      if usable then Use(e) else if staleUsable then UseStale(e) else Revalidated(e)
  }

  /** `decide`. */
  function Decide(
    entries: seq<CacheEntry>, request: HeaderMap, decoded: bool, mode: CacheMode, dates: Dates, now: int): Decision
  {
    var asked := RequestDirectivesOf(request);
    if mode == CacheMode.NoStore || mode == Reload || asked.noStore || BypassesCache(request) then Send
    else
      var onlyIfCached := mode == CacheMode.OnlyIfCached || asked.onlyIfCached;
      match Newest(entries, request, decoded, dates)
      case None => if onlyIfCached then NotCached else Send
      case Some(e) => DecideFor(e, asked, onlyIfCached, mode, dates, now)
  }

  // ----- What the rules ask -----------------------------------------------------------------

  /** The request leaves room for a stored response to answer it. */
  predicate MayAnswer(request: HeaderMap, mode: CacheMode) {
    && mode != CacheMode.NoStore && mode != Reload
    && !RequestDirectivesOf(request).noStore
    && !BypassesCache(request)
  }

  predicate MustNotSend(request: HeaderMap, mode: CacheMode) {
    mode == CacheMode.OnlyIfCached || RequestDirectivesOf(request).onlyIfCached
  }

  /** The caller takes any stored response, stale ones too. */
  predicate TakesStale(request: HeaderMap, mode: CacheMode) {
    mode == ForceCache || MustNotSend(request, mode)
  }

  predicate AsksServer(request: HeaderMap, mode: CacheMode) {
    mode == CacheMode.NoCache || RequestDirectivesOf(request).noCache
  }

  /** `max-stale` accepts this much staleness. */
  predicate StalenessAccepted(request: HeaderMap, staleness: int) {
    match RequestDirectivesOf(request).maxStale
    case None => false
    case Some(limit) => limit.None? || staleness <= limit.value * SECOND
  }

  predicate YoungEnough(request: HeaderMap, age: int) {
    match RequestDirectivesOf(request).maxAge
    case None => true
    case Some(limit) => age <= limit * SECOND
  }

  predicate FreshForLongEnough(request: HeaderMap, left: int) {
    match RequestDirectivesOf(request).minFresh
    case None => true
    case Some(needed) => left >= needed * SECOND
  }

  /** No other stored response that matches was made later. */
  predicate IsNewestMatch(
    e: CacheEntry, entries: seq<CacheEntry>, request: HeaderMap, decoded: bool, dates: Dates)
  {
    && e in entries && e.Matches(request, decoded)
    && forall i | 0 <= i < |entries| && entries[i].Matches(request, decoded) ::
         entries[i].Dated(dates) <= e.Dated(dates)
  }

  /** No other stored response that matches was made later, nor at the same time and put after it. */
  predicate IsLastMatch(
    i: nat, entries: seq<CacheEntry>, request: HeaderMap, decoded: bool, dates: Dates)
  {
    && i < |entries| && entries[i].Matches(request, decoded)
    && forall j | 0 <= j < |entries| && entries[j].Matches(request, decoded) ::
         && entries[j].Dated(dates) <= entries[i].Dated(dates)
         && (i < j ==> entries[j].Dated(dates) < entries[i].Dated(dates))
  }

  /** A stored response may be used as it is (sections 4 and 5.2 of RFC 9111). */
  predicate MayUse(e: CacheEntry, request: HeaderMap, mode: CacheMode, dates: Dates, now: int) {
    var stored := ResponseDirectivesOf(e.headers);
    var age, lifetime := e.CurrentAge(dates, now), Lifetime(e, dates);
    && !stored.noCache
    && (stored.mustRevalidate ==> e.IsFresh(dates, now))
    && (TakesStale(request, mode)
        || (&& !AsksServer(request, mode)
            && (e.IsFresh(dates, now) || StalenessAccepted(request, age - lifetime))
            && YoungEnough(request, age)
            && FreshForLongEnough(request, lifetime - age)))
  }

  /** A stale response may be used while it is revalidated (section 3 of RFC 5861). */
  predicate MayUseStale(e: CacheEntry, request: HeaderMap, mode: CacheMode, dates: Dates, now: int) {
    var stored := ResponseDirectivesOf(e.headers);
    var age, lifetime := e.CurrentAge(dates, now), Lifetime(e, dates);
    && mode == Default && !MustNotSend(request, mode) && !AsksServer(request, mode)
    && !stored.noCache && !stored.mustRevalidate
    && !e.IsFresh(dates, now)
    && stored.staleWhileRevalidate.Some? && age - lifetime <= stored.staleWhileRevalidate.value * SECOND
    && YoungEnough(request, age)
    && RequestDirectivesOf(request).minFresh.None?
  }

  // ----- Results ----------------------------------------------------------------------------

  lemma FreshIsYoungerThanLifetime(e: CacheEntry, dates: Dates, now: int)
    ensures e.IsFresh(dates, now) <==> e.CurrentAge(dates, now) < Lifetime(e, dates)
  {
  }

  lemma {:induction false} NewestIsNewest(entries: seq<CacheEntry>, request: HeaderMap, decoded: bool, dates: Dates)
    ensures match Newest(entries, request, decoded, dates)
            case Some(e) =>
              && IsNewestMatch(e, entries, request, decoded, dates)
              && exists i: nat :: IsLastMatch(i, entries, request, decoded, dates) && entries[i] == e
            case None => forall i | 0 <= i < |entries| :: !entries[i].Matches(request, decoded)
  {
    hide CacheEntry.Matches, CacheEntry.Dated;
    if entries != [] {
      var front, last := entries[..|entries| - 1], entries[|entries| - 1];
      assert entries == front + [last];
      NewestIsNewest(front, request, decoded, dates);
      match Newest(entries, request, decoded, dates) {
        case Some(e) =>
          var best := Newest(front, request, decoded, dates);
          var i: nat := |front|;
          if last.Matches(request, decoded) && (best.None? || last.Dated(dates) >= best.value.Dated(dates)) {
            assert e == last;
          } else {
            i :| IsLastMatch(i, front, request, decoded, dates) && front[i] == e;
          }
          forall j | 0 <= j < |entries| && entries[j].Matches(request, decoded)
            ensures entries[j].Dated(dates) <= entries[i].Dated(dates)
            ensures i < j ==> entries[j].Dated(dates) < entries[i].Dated(dates)
          {
            if j < |front| {
              assert entries[j] == front[j];
            }
          }
          assert IsLastMatch(i, entries, request, decoded, dates) && entries[i] == e;
        case None =>
          forall i | 0 <= i < |entries|
            ensures !entries[i].Matches(request, decoded)
          {
            if i < |front| {
              assert entries[i] == front[i];
            }
          }
      }
    }
  }

  /** By the fields: no match has a `Date`, or for one without an arrival, after that of the one chosen. */
  lemma NewestHasTheLatestDate(
    entries: seq<CacheEntry>, request: HeaderMap, decoded: bool, dates: Dates, e: CacheEntry, date: Option<int>,
    i: nat, other: Option<int>)
    requires Newest(entries, request, decoded, dates) == Some(e) && DateIs(e.headers, dates, "date", date)
    requires i < |entries| && entries[i].Matches(request, decoded) && DateIs(entries[i].headers, dates, "date", other)
    ensures (if other.Some? then other.value else entries[i].receivedAt)
         <= (if date.Some? then date.value else e.receivedAt)
  {
    hide Newest, CacheEntry.Matches, GetText;
    NewestIsNewest(entries, request, decoded, dates);
  }

  lemma DecideForMeets(
    e: CacheEntry, request: HeaderMap, mode: CacheMode, dates: Dates, now: int)
    ensures var d := DecideFor(e, RequestDirectivesOf(request), MustNotSend(request, mode), mode, dates, now);
            && (d == Use(e) <==> MayUse(e, request, mode, dates, now))
            && (d == UseStale(e) <==> !MayUse(e, request, mode, dates, now) && MayUseStale(e, request, mode, dates, now))
            && (d == NotCached <==> !MayUse(e, request, mode, dates, now) && MustNotSend(request, mode))
            && (d == Use(e) || d == UseStale(e) || d == NotCached || d == Revalidated(e))
  {
    hide RequestDirectivesOf, ResponseDirectivesOf, Lifetime, CacheEntry.IsFresh, CacheEntry.CurrentAge,
      CacheEntry.ConditionalHeaders;
    FreshIsYoungerThanLifetime(e, dates, now);
  }

  /** A stored response is used exactly when the request lets the cache answer, it is the match made
      last, and the rules allow it as it stands; it is used stale exactly when they do not but its
      `stale-while-revalidate` does. */
  lemma DecideUsesExactlyWhatItMay(
    entries: seq<CacheEntry>, request: HeaderMap, decoded: bool, mode: CacheMode, dates: Dates, now: int)
    ensures var d := Decide(entries, request, decoded, mode, dates, now);
            match Newest(entries, request, decoded, dates)
            case Some(e) =>
              && IsNewestMatch(e, entries, request, decoded, dates)
              && (d.Use? <==> MayAnswer(request, mode) && MayUse(e, request, mode, dates, now))
              && (d.UseStale? <==> MayAnswer(request, mode) && !MayUse(e, request, mode, dates, now)
                                   && MayUseStale(e, request, mode, dates, now))
              && (d.Use? || d.UseStale? || d.Revalidate? ==> d.entry == e)
            case None =>
              && (forall i | 0 <= i < |entries| :: !entries[i].Matches(request, decoded))
              && (d == Send || d == NotCached)
  {
    hide Newest, DecideFor, MayUse, MayUseStale, IsNewestMatch, RequestDirectivesOf, BypassesCache;
    NewestIsNewest(entries, request, decoded, dates);
    var best := Newest(entries, request, decoded, dates);
    if best.Some? {
      DecideForMeets(best.value, request, mode, dates, now);
    }
  }

  /** A request that must not be sent is answered from what is stored or not at all, unless it goes
      past the cache; and only such a request is ever refused. */
  lemma OnlyIfCachedNeverSends(
    entries: seq<CacheEntry>, request: HeaderMap, decoded: bool, mode: CacheMode, dates: Dates, now: int)
    ensures var d := Decide(entries, request, decoded, mode, dates, now);
            && (MayAnswer(request, mode) && MustNotSend(request, mode) ==> d.Use? || d.NotCached?)
            && (d.NotCached? ==> MayAnswer(request, mode) && MustNotSend(request, mode))
            && (!MayAnswer(request, mode) ==> d == Send)
  {
    hide Newest, DecideFor, MayUse, MayUseStale, RequestDirectivesOf, BypassesCache;
    var best := Newest(entries, request, decoded, dates);
    if best.Some? {
      DecideForMeets(best.value, request, mode, dates, now);
    }
  }

  function Rank(d: Decision): nat {
    match d
    case Use(_) => 0
    case UseStale(_) => 1
    case _ => 2
  }

  lemma MayUseWorsens(e: CacheEntry, request: HeaderMap, mode: CacheMode, dates: Dates, now: int, later: int)
    requires now <= later
    ensures MayUse(e, request, mode, dates, later) ==> MayUse(e, request, mode, dates, now)
    ensures MayUseStale(e, request, mode, dates, later) ==>
              MayUse(e, request, mode, dates, now) || MayUseStale(e, request, mode, dates, now)
  {
    hide RequestDirectivesOf, ResponseDirectivesOf, CacheEntry.CurrentAge, Lifetime;
    AgeGrows(e, dates, now, later);
    FreshIsYoungerThanLifetime(e, dates, now);
  }

  /** As time passes a decision only gets worse: used, then used stale, then neither. */
  lemma DecisionWorsensWithTime(
    entries: seq<CacheEntry>, request: HeaderMap, decoded: bool, mode: CacheMode, dates: Dates, now: int, later: int)
    requires now <= later
    ensures Rank(Decide(entries, request, decoded, mode, dates, now))
         <= Rank(Decide(entries, request, decoded, mode, dates, later))
  {
    hide Newest, DecideFor, MayUse, MayUseStale, RequestDirectivesOf, BypassesCache;
    var best := Newest(entries, request, decoded, dates);
    if best.Some? {
      MayUseWorsens(best.value, request, mode, dates, now, later);
      DecideForMeets(best.value, request, mode, dates, now);
      DecideForMeets(best.value, request, mode, dates, later);
    }
  }

  /** A request without directives of its own. */
  predicate IsPlain(request: HeaderMap) {
    !BypassesCache(request) && RequestDirectivesOf(request) == RequestDirectives(false, false, false, None, None, None)
  }

  lemma PlainRequestUsesFresh(e: CacheEntry, request: HeaderMap, mode: CacheMode, dates: Dates, now: int)
    requires IsPlain(request) && mode == Default
    ensures MayAnswer(request, mode)
    ensures MayUse(e, request, mode, dates, now) <==> e.IsFresh(dates, now) && !ResponseDirectivesOf(e.headers).noCache
  {
    hide RequestDirectivesOf, ResponseDirectivesOf, CacheEntry.CurrentAge, CacheEntry.IsFresh, Lifetime, BypassesCache;
  }

  /** A plain request in the default mode is answered by the stored response made last exactly while the
      lifetime its fields give is over the ages its fields give, and it is not `no-cache`. */
  lemma PlainRequestIsAnsweredWhileFieldsAllow(
    entries: seq<CacheEntry>, request: HeaderMap, decoded: bool, dates: Dates, now: int, e: CacheEntry)
    requires IsPlain(request) && Newest(entries, request, decoded, dates) == Some(e)
    ensures Decide(entries, request, decoded, Default, dates, now) == Use(e)
            <==> FreshByFields(e, dates, now) && !ResponseDirectivesOf(e.headers).noCache
  {
    hide Newest, DecideFor, MayUse, MayUseStale, IsNewestMatch, RequestDirectivesOf, BypassesCache, Decide, IsPlain,
      FreshByFields, CacheEntry.IsFresh, ResponseDirectivesOf, MayAnswer;
    DecideUsesExactlyWhatItMay(entries, request, decoded, Default, dates, now);
    PlainRequestUsesFresh(e, request, Default, dates, now);
    FreshAsItsFieldsSay(e, dates, now);
  }

  // ----- Asking the server ------------------------------------------------------------------

  /** The fields whose presence makes a request one only the server can answer. */
  const SERVER_ONLY :=
    ["range", "if-range", "if-none-match", "if-match", "if-modified-since", "if-unmodified-since"]

  /** A range or conditional request is always sent. */
  lemma ConditionalRequestsAreSent(
    entries: seq<CacheEntry>, request: HeaderMap, decoded: bool, mode: CacheMode, dates: Dates, now: int, name: string)
    requires name in SERVER_ONLY && GetAll(request, name) != []
    ensures Decide(entries, request, decoded, mode, dates, now) == Send
  {
    var i :| 0 <= i < |SERVER_ONLY| && SERVER_ONLY[i] == name;
    assert i == 0 || i == 1 || i == 2 || i == 3 || i == 4 || i == 5;
  }

  /** The values a question about this entry puts in a field: its first `ETag` and its first
      `Last-Modified`, in the fields that ask by them, and nothing anywhere else. */
  function Asked(e: CacheEntry, name: string): seq<string> {
    var etags, modified := GetAll(e.headers, "etag"), GetAll(e.headers, "last-modified");
    if name == "if-none-match" then etags[..Min(1, |etags|)]
    else if name == "if-modified-since" then modified[..Min(1, |modified|)]
    else []
  }

  lemma ConditionalAsks(e: CacheEntry, name: string)
    ensures GetAll(e.ConditionalHeaders(), name) == Asked(e, name)
    ensures e.ConditionalHeaders() == [] <==> GetAll(e.headers, "etag") == [] && GetAll(e.headers, "last-modified") == []
  {
    hide GetAll;
    var byTag := match Get(e.headers, "etag") case Some(v) => [Line("if-none-match", v)] case None => [];
    var byDate := match Get(e.headers, "last-modified") case Some(v) => [Line("if-modified-since", v)] case None => [];
    GetAllConcat(byTag, byDate, name);
    if byTag != [] {
      OneLine("if-none-match", byTag[0].value, name);
    }
    if byDate != [] {
      OneLine("if-modified-since", byDate[0].value, name);
    }
    NoLines(name);
  }

  lemma OneLine(added: string, value: string, name: string)
    ensures GetAll([Line(added, value)], name) == if name == added then [value] else []
  {
    assert [Line(added, value)][1..] == [];
  }

  lemma NoLines(name: string)
    ensures GetAll([], name) == []
  {
  }

  /** When the response made last may neither be used nor used stale, and the request may be sent, the
      server is asked about it: by its validators if it has any, and else as if nothing were stored. */
  lemma UnusableIsAskedAbout(
    entries: seq<CacheEntry>, request: HeaderMap, decoded: bool, mode: CacheMode, dates: Dates, now: int,
    e: CacheEntry, name: string)
    requires MayAnswer(request, mode) && !MustNotSend(request, mode)
    requires Newest(entries, request, decoded, dates) == Some(e)
    requires !MayUse(e, request, mode, dates, now) && !MayUseStale(e, request, mode, dates, now)
    ensures var d := Decide(entries, request, decoded, mode, dates, now);
            var unmarked := GetAll(e.headers, "etag") == [] && GetAll(e.headers, "last-modified") == [];
            if unmarked then d == Send
            else d.Revalidate? && d.entry == e && GetAll(d.conditional, name) == Asked(e, name)
  {
    hide Newest, DecideFor, MayUse, MayUseStale, RequestDirectivesOf, BypassesCache, GetAll,
      CacheEntry.ConditionalHeaders, Asked;
    DecideForMeets(e, request, mode, dates, now);
    ConditionalAsks(e, name);
  }

  /** Storing a response and asking the same again: as long as the cache keeps the key, what it gives
      for it answers in the default mode with a matching entry dated no earlier than the stored one,
      exactly while that entry is fresh and not `no-cache`. With none dated as late that matches, it is
      the stored one. */
  lemma StoredResponseAnswersWhileFresh(
    cache: Cache.Contents, key: Cache.CacheKey, limits: Cache.Limits,
    dates: Dates, status: nat, response: HeaderMap, request: HeaderMap, body: Bytes, decoded: bool,
    requestedAt: int, receivedAt: int, now: int)
    requires Cache.WellFormed(cache) && StarFree(VaryNames(response)) && IsPlain(request)
    requires var e := StoredEntry(dates, status, response, request, body, decoded, requestedAt, receivedAt);
             Cache.Size(e) <= limits.maxEntryBytes && key in Cache.Put(cache, key, e, limits).table
    ensures var e := StoredEntry(dates, status, response, request, body, decoded, requestedAt, receivedAt);
            var found := Cache.VariantsOf(Cache.Put(cache, key, e, limits), key);
            var d := Decide(found, request, decoded, Default, dates, now);
            exists newest ::
              && IsNewestMatch(newest, found, request, decoded, dates) && newest.Dated(dates) >= e.Dated(dates)
              && (d == Use(newest) <==> newest.IsFresh(dates, now) && !ResponseDirectivesOf(newest.headers).noCache)
              && (d.Use? ==> d == Use(newest))
              && ((forall i | 0 <= i < |found| && found[i].Matches(request, decoded) && found[i] != e ::
                     found[i].Dated(dates) < e.Dated(dates)) ==> newest == e)
  {
    hide Newest, MayUse, MayUseStale, IsPlain, StoredEntry, MayAnswer, BypassesCache, RequestDirectivesOf, VaryNames,
      Cache.Put, Cache.Size, Cache.WellFormed, Cache.KeepsLongestFittingSuffix, Cache.Replaced, Cache.HeldBytes,
      Cache.VariantBytes, CacheEntry.Matches, CacheEntry.Dated, CacheEntry.IsFresh, ResponseDirectivesOf, Decide;
    var e := StoredEntry(dates, status, response, request, body, decoded, requestedAt, receivedAt);
    var found := Cache.VariantsOf(Cache.Put(cache, key, e, limits), key);
    Cache.PutKeepsLongestFittingSuffix(cache, key, e, limits);
    StoredEntryMatchesItsRequest(dates, status, response, request, body, decoded, requestedAt, receivedAt);
    assert e in found;
    NewestIsNewest(found, request, decoded, dates);
    DecideUsesExactlyWhatItMay(found, request, decoded, Default, dates, now);
    var newest := Newest(found, request, decoded, dates).value;
    PlainRequestUsesFresh(newest, request, Default, dates, now);
    assert IsNewestMatch(newest, found, request, decoded, dates);
  }
}
