/** What the HTTP cache stores and how a stored response is read back: `Cache-Control` directives,
    the age and freshness arithmetic of section 4.2 of RFC 9111, `Vary` matching (section 4.1) and
    the update a `304` makes (section 4.3.4). */
module CacheEntries {
  import opened Text
  import opened Headers

  const HOP_BY_HOP := [
    "connection", "proxy-authenticate", "proxy-authorization", "te", "trailer", "transfer-encoding", "upgrade"]
  const PROXY_AUTHENTICATION_INFO := "proxy-authentication-info"

  /** Fields that describe the connection or the proxy, never the response. */
  predicate DescribesConnection(name: string) {
    name in HOP_BY_HOP || name == PROXY_AUTHENTICATION_INFO
  }

  // ----- Time -------------------------------------------------------------------------------

  /** Instants and durations are counted in nanoseconds. */
  const SECOND := 1_000_000_000
  const HEURISTIC_MAX_SECS := 24 * 60 * 60
  const MAX_DELTA_SECS := 0x8000_0000
  const I64_MAX := 0x7FFF_FFFF_FFFF_FFFF

  /** Reading and writing HTTP-dates (section 5.6.7 of RFC 9110), which a library does. */
  datatype Dates = Dates(parse: string -> Option<int>, format: int -> string)

  function Max(a: int, b: int): int {
    if a >= b then a else b
  }

  function HeaderDate(dates: Dates, h: HeaderMap, name: string): Option<int> {
    match GetText(h, name)
    case Some(s) => dates.parse(s)
    case None => None
  }

  /** `delta_seconds`: digits only, and nothing past 2^31 (section 1.2.2 of RFC 9111). */
  function DeltaSeconds(value: string): (r: Option<nat>)
    ensures r.Some? ==> r.value <= MAX_DELTA_SECS
  {
    var v := Trim(value);
    if v == "" || !AllDigits(v) then None
    else
      var n := DecimalValue(v);
      var parsed := if n > I64_MAX then MAX_DELTA_SECS else n;
      Some(if parsed > MAX_DELTA_SECS then MAX_DELTA_SECS else parsed)
  }

  // ----- Cache-Control ----------------------------------------------------------------------

  /** The directives this cache acts on, of a request or a response. */
  datatype Name =
    | NoStore | NoCache | MustRevalidate | Immutable | Private | Public | MustUnderstand
    | MaxAge | StaleWhileRevalidate | OnlyIfCached | MaxStale | MinFresh | Unknown

  function NameOf(s: string): Name {
    if s == "no-store" then NoStore
    else if s == "no-cache" then NoCache
    else if s == "must-revalidate" then MustRevalidate
    else if s == "immutable" then Immutable
    else if s == "private" then Private
    else if s == "public" then Public
    else if s == "must-understand" then MustUnderstand
    else if s == "max-age" then MaxAge
    else if s == "stale-while-revalidate" then StaleWhileRevalidate
    else if s == "only-if-cached" then OnlyIfCached
    else if s == "max-stale" then MaxStale
    else if s == "min-fresh" then MinFresh
    else Unknown
  }

  datatype Directive = Directive(name: Name, value: Option<string>)

  function TrimQuotes(s: string): string {
    if s != "" && s[0] == '"' then TrimQuotes(s[1..])
    else if s != "" && s[|s| - 1] == '"' then TrimQuotes(s[..|s| - 1])
    else s
  }

  function DirectiveOf(part: string): seq<Directive> {
    var p := Trim(part);
    var eq := Find(p, '=');
    if p == "" then []
    else if eq < |p| then [Directive(NameOf(Lower(Trim(p[..eq]))), Some(TrimQuotes(Trim(p[eq + 1..]))))]
    else [Directive(NameOf(Lower(p)), None)]
  }

  function LineDirectives(line: string): seq<Directive> {
    FlatMap(DirectiveOf, Split(line, Outside))
  }

  function Directives(h: HeaderMap): seq<Directive> {
    FlatMap(LineDirectives, TextLines(GetAll(h, "cache-control")))
  }

  /** Each directive given, with the value it was first given. */
  function FirstValues(ds: seq<Directive>): map<Name, Option<string>> {
    if ds == [] then map[]
    else
      var values, d := FirstValues(ds[..|ds| - 1]), ds[|ds| - 1];
      if d.name in values then values else values[d.name := d.value]
  }

  /** Each directive given, with the value it was last given. */
  function LastValues(ds: seq<Directive>): map<Name, Option<string>> {
    if ds == [] then map[] else LastValues(ds[..|ds| - 1])[ds[|ds| - 1].name := ds[|ds| - 1].value]
  }

  function SecondsOf(value: Option<string>): (r: Option<nat>)
    ensures r.Some? ==> r.value <= MAX_DELTA_SECS
  {
    match value
    case Some(s) => DeltaSeconds(s)
    case None => None
  }

  /** An unreadable `max-age` counts as zero. */
  function AgeLimit(value: Option<string>): nat {
    match SecondsOf(value)
    case Some(n) => n
    case None => 0
  }

  datatype ResponseDirectives = ResponseDirectives(
    noStore: bool, noCache: bool, mustRevalidate: bool, immutable: bool, isPrivate: bool, isPublic: bool,
    mustUnderstand: bool, maxAge: Option<nat>, staleWhileRevalidate: Option<nat>)

  datatype RequestDirectives = RequestDirectives(
    noStore: bool, noCache: bool, onlyIfCached: bool,
    maxAge: Option<nat>, maxStale: Option<Option<nat>>, minFresh: Option<nat>)

  function Given(values: map<Name, Option<string>>, name: Name): Option<nat> {
    if name in values then SecondsOf(values[name]) else None
  }

  /** What a response's directives come to: of repeated values the first counts. */
  function ResponseMeaning(values: map<Name, Option<string>>): ResponseDirectives {
    ResponseDirectives(
      NoStore in values, NoCache in values, MustRevalidate in values, Immutable in values, Private in values,
      Public in values, MustUnderstand in values,
      if MaxAge in values then Some(AgeLimit(values[MaxAge])) else None, Given(values, StaleWhileRevalidate))
  }

  /** What a request's directives come to: of repeated values the last counts. */
  function RequestMeaning(values: map<Name, Option<string>>, pragmaNoCache: bool): RequestDirectives {
    RequestDirectives(
      NoStore in values, pragmaNoCache || NoCache in values, OnlyIfCached in values, Given(values, MaxAge),
      if MaxStale in values then Some(SecondsOf(values[MaxStale])) else None, Given(values, MinFresh))
  }

  predicate PragmaNoCache(h: HeaderMap) {
    && !Contains(h, "cache-control")
    && exists part | part in FlatMap(SplitCommas, TextLines(GetAll(h, "pragma"))) :: Lower(Trim(part)) == "no-cache"
  }

  function ResponseDirectivesOf(h: HeaderMap): ResponseDirectives {
    ResponseMeaning(FirstValues(Directives(h)))
  }

  function RequestDirectivesOf(h: HeaderMap): RequestDirectives {
    RequestMeaning(LastValues(Directives(h)), PragmaNoCache(h))
  }

  /** `ResponseDirectives::parse`. */
  method ParseResponseDirectives(h: HeaderMap) returns (out: ResponseDirectives)
    ensures out == ResponseDirectivesOf(h)
  {
    out := MeaningOfResponse(Directives(h));
  }

  /** One directive of a response; a repeated `max-age` or `stale-while-revalidate` is passed over. */
  function ResponseStep(out: ResponseDirectives, d: Directive, maxAgeSeen: bool, swrSeen: bool): ResponseDirectives {
    match d.name
    case NoStore => out.(noStore := true)
    case NoCache => out.(noCache := true)
    case MustRevalidate => out.(mustRevalidate := true)
    case Immutable => out.(immutable := true)
    case Private => out.(isPrivate := true)
    case Public => out.(isPublic := true)
    case MustUnderstand => out.(mustUnderstand := true)
    case StaleWhileRevalidate => if swrSeen then out else out.(staleWhileRevalidate := SecondsOf(d.value))
    case MaxAge => if maxAgeSeen then out else out.(maxAge := Some(AgeLimit(d.value)))
    case _ => out
  }

  lemma ResponseStepMeans(values: map<Name, Option<string>>, d: Directive)
    ensures ResponseMeaning(if d.name in values then values else values[d.name := d.value])
         == ResponseStep(ResponseMeaning(values), d, MaxAge in values, StaleWhileRevalidate in values)
  {
    hide AgeLimit, SecondsOf;
    if d.name !in values {
      var more := values[d.name := d.value];
      assert forall n | n != d.name :: n in more <==> n in values;
      assert forall n | n in values :: more[n] == values[n];
      match d.name {
        case NoStore =>
        case NoCache =>
        case MustRevalidate =>
        case Immutable =>
        case Private =>
        case Public =>
        case MustUnderstand =>
        case MaxAge =>
        case StaleWhileRevalidate =>
        case _ =>
      }
    }
  }

  method MeaningOfResponse(ds: seq<Directive>) returns (out: ResponseDirectives)
    ensures out == ResponseMeaning(FirstValues(ds))
  {
    out := ResponseDirectives(false, false, false, false, false, false, false, None, None);
    var maxAgeSeen, swrSeen := false, false;
    var i := 0;
    while i < |ds|
      invariant 0 <= i <= |ds|
      invariant out == ResponseMeaning(FirstValues(ds[..i]))
      invariant maxAgeSeen == (MaxAge in FirstValues(ds[..i]))
      invariant swrSeen == (StaleWhileRevalidate in FirstValues(ds[..i]))
    {
      assert ds[..i + 1][..i] == ds[..i];
      ResponseStepMeans(FirstValues(ds[..i]), ds[i]);
      out := ResponseStep(out, ds[i], maxAgeSeen, swrSeen);
      maxAgeSeen := maxAgeSeen || ds[i].name == MaxAge;
      swrSeen := swrSeen || ds[i].name == StaleWhileRevalidate;
      i := i + 1;
    }
    assert ds[..i] == ds;
  }

  /** `RequestDirectives::parse`. */
  method ParseRequestDirectives(h: HeaderMap) returns (out: RequestDirectives)
    ensures out == RequestDirectivesOf(h)
  {
    out := MeaningOfRequest(Directives(h), PragmaNoCache(h));
  }

  method MeaningOfRequest(ds: seq<Directive>, pragma: bool) returns (out: RequestDirectives)
    ensures out == RequestMeaning(LastValues(ds), pragma)
  {
    hide SecondsOf;
    out := RequestDirectives(false, pragma, false, None, None, None);
    var i := 0;
    while i < |ds|
      invariant 0 <= i <= |ds|
      invariant out == RequestMeaning(LastValues(ds[..i]), pragma)
    {
      var d := ds[i];
      assert ds[..i + 1][..i] == ds[..i];
      match d.name {
        case NoStore => out := out.(noStore := true);
        case NoCache => out := out.(noCache := true);
        case OnlyIfCached => out := out.(onlyIfCached := true);
        case MaxAge => out := out.(maxAge := SecondsOf(d.value));
        case MaxStale => out := out.(maxStale := Some(SecondsOf(d.value)));
        case MinFresh => out := out.(minFresh := SecondsOf(d.value));
        case _ =>
      }
      i := i + 1;
    }
    assert ds[..i] == ds;
  }

  // ----- Vary -------------------------------------------------------------------------------

  function LowerTrimmed(parts: seq<string>): seq<string> {
    if parts == [] then []
    else
      var n := Lower(Trim(parts[0]));
      (if n == "" then [] else [n]) + LowerTrimmed(parts[1..])
  }

  function VaryNames(h: HeaderMap): seq<string> {
    LowerTrimmed(FlatMap(SplitCommas, TextLines(GetAll(h, "vary"))))
  }

  /** A request field as `Vary` compares it: all its lines as one normalised list. */
  function VaryValue(request: HeaderMap, name: string): Option<string> {
    var lines := TextLines(GetAll(request, name));
    if lines == [] then None else Some(NormalizeList(Join(lines, ",")))
  }

  type Selector = seq<(string, Option<string>)>

  /** The selecting fields of a fresh response; a name that is no field name is left out. */
  function SelectorOf(names: seq<string>, request: HeaderMap): Selector {
    if names == [] then []
    else
      (match HeaderName(names[0]) case Some(n) => [(names[0], VaryValue(request, n))] case None => [])
      + SelectorOf(names[1..], request)
  }

  /** The selecting fields a `304` puts in their place; a name that is no field name is kept. */
  function UpdatedSelectorOf(names: seq<string>, request: HeaderMap): Selector {
    if names == [] then []
    else
      [(names[0], match HeaderName(names[0]) case Some(n) => VaryValue(request, n) case None => None)]
      + UpdatedSelectorOf(names[1..], request)
  }

  // ----- Entries ----------------------------------------------------------------------------

  datatype CacheEntry = CacheEntry(
    status: nat, headers: HeaderMap, body: Bytes, vary: Selector, decoded: bool,
    requestedAt: int, receivedAt: int)
  {
    /** Whether one selecting field has the value this entry was stored for. */
    predicate Selects(i: nat, request: HeaderMap)
      requires i < |vary|
    {
      var current := match HeaderName(vary[i].0) case Some(n) => VaryValue(request, n) case None => None;
      current == match vary[i].1 case Some(v) => Some(NormalizeList(v)) case None => None
    }

    predicate Matches(request: HeaderMap, wantsDecoded: bool) {
      && decoded == wantsDecoded
      && (forall i | 0 <= i < |vary| :: vary[i].0 != "*")
      && (forall i | 0 <= i < |vary| :: Selects(i, request))
    }

    /** A tenth of how old the response already was, up to a day (section 4.2.2). */
    function HeuristicLifetime(base: int, modified: int): (r: int)
      ensures 0 <= r <= HEURISTIC_MAX_SECS * SECOND
    {
      var secs := Max(base - modified, 0) / SECOND / 10;
      (if secs > HEURISTIC_MAX_SECS then HEURISTIC_MAX_SECS else secs) * SECOND
    }

    function FreshnessLifetime(dates: Dates): (r: Option<int>)
      ensures r.Some? ==> r.value >= 0
    {
      var maxAge := ResponseDirectivesOf(headers).maxAge;
      if maxAge.Some? then Some(maxAge.value * SECOND)
      else
        var date := HeaderDate(dates, headers, "date");
        var base := if date.Some? then date.value else receivedAt;
        var expires := HeaderDate(dates, headers, "expires");
        if expires.Some? then Some(Max(expires.value - base, 0))
        else if Contains(headers, "expires") then Some(0)
        else
          match HeaderDate(dates, headers, "last-modified")
          case None => None
          case Some(modified) => Some(HeuristicLifetime(base, modified))
    }

    function AgeValue(): (r: nat) {
      match GetText(headers, "age")
      case None => 0
      case Some(v) =>
        match DeltaSeconds(v[..Find(v, ',')])
        case Some(n) => n * SECOND
        case None => 0
    }

    function CurrentAge(dates: Dates, now: int): (r: int)
      ensures r >= 0
      ensures r >= now - receivedAt
    {
      var date := HeaderDate(dates, headers, "date");
      var apparentAge := if date.Some? then Max(receivedAt - date.value, 0) else 0;
      var responseDelay := Max(receivedAt - requestedAt, 0);
      Max(apparentAge, AgeValue() + responseDelay) + Max(now - receivedAt, 0)
    }

    predicate IsFresh(dates: Dates, now: int) {
      match FreshnessLifetime(dates)
      case Some(lifetime) => CurrentAge(dates, now) < lifetime
      case None => false
    }

    /** When the response was made: its `Date`, or else its arrival. */
    function Dated(dates: Dates): int {
      match HeaderDate(dates, headers, "date") case Some(d) => d case None => receivedAt
    }

    function ConditionalHeaders(): HeaderMap {
      (match Get(headers, "etag") case Some(v) => [Line("if-none-match", v)] case None => [])
      + (match Get(headers, "last-modified") case Some(v) => [Line("if-modified-since", v)] case None => [])
    }
  }

  /** Time only ages a stored response, and never by less than the time that passed. */
  lemma AgeGrows(e: CacheEntry, dates: Dates, now: int, later: int)
    requires now <= later
    ensures 0 <= e.CurrentAge(dates, now) <= e.CurrentAge(dates, later)
    ensures e.receivedAt <= now ==>
              e.CurrentAge(dates, later) == e.CurrentAge(dates, now) + (later - now)
    ensures e.IsFresh(dates, later) ==> e.IsFresh(dates, now)
  {
  }

  // ----- Age and freshness by the fields ----------------------------------------------------

  /** A number of seconds as a field has it: with whitespace around it, and followed by nothing or by
      more of a list. */
  datatype WrittenSeconds = WrittenSeconds(before: string, digits: string, after: string, rest: string)
  {
    predicate Valid() {
      && AllWhitespace(before) && AllWhitespace(after)
      && digits != "" && AllDigits(digits) && (rest == "" || rest[0] == ',')
    }

    function Text(): string {
      before + digits + after + rest
    }
  }

  /** The `Age` field gives this number. */
  predicate WritesAge(h: HeaderMap, w: WrittenSeconds) {
    w.Valid() && GetText(h, "age") == Some(w.Text())
  }

  /** The seconds the `Age` field comes to: none if it gives no number, and never past the limit. */
  ghost predicate AgeIs(h: HeaderMap, secs: nat) {
    || ((forall w :: !WritesAge(h, w)) && secs == 0)
    || (exists w :: WritesAge(h, w) && secs == Min(DecimalValue(w.digits), MAX_DELTA_SECS))
  }

  lemma DigitsAreTrimmed(digits: string)
    requires digits != "" && AllDigits(digits)
    ensures Trimmed(digits) && ',' !in digits
  {
    assert IsDigit(digits[0]) && IsDigit(digits[|digits| - 1]);
    assert forall i | 0 <= i < |digits| :: IsDigit(digits[i]);
  }

  /** A number of seconds is its digits, up to the limit. */
  lemma DeltaSecondsReads(before: string, digits: string, after: string)
    requires AllWhitespace(before) && AllWhitespace(after) && digits != "" && AllDigits(digits)
    ensures DeltaSeconds(before + digits + after) == Some(Min(DecimalValue(digits), MAX_DELTA_SECS))
  {
    hide Trim, DecimalValue;
    DigitsAreTrimmed(digits);
    TrimOf(before, digits, after);
  }

  lemma FirstMember(w: WrittenSeconds)
    requires w.Valid()
    ensures w.Text()[..Find(w.Text(), ',')] == w.before + w.digits + w.after
  {
    hide Find;
    var first := w.before + w.digits + w.after;
    DigitsAreTrimmed(w.digits);
    assert ',' !in w.before && ',' !in w.after;
    if w.rest == "" {
      assert w.Text() == first;
      FindsNothing(first, ',');
    } else {
      FindsAfter(first, ',', w.rest[1..]);
      assert w.Text() == first + [','] + w.rest[1..];
    }
  }

  lemma ReadAgeWasWritten(h: HeaderMap, v: string) returns (w: WrittenSeconds)
    requires GetText(h, "age") == Some(v) && DeltaSeconds(v[..Find(v, ',')]).Some?
    ensures WritesAge(h, w)
  {
    hide Trim, DecimalValue, Find;
    var cut := Find(v, ',');
    var pre, post := TrimCuts(v[..cut]);
    w := WrittenSeconds(pre, Trim(v[..cut]), post, v[cut..]);
    assert v == v[..cut] + v[cut..];
  }

  lemma AgeIsRead(e: CacheEntry, secs: nat)
    requires AgeIs(e.headers, secs)
    ensures e.AgeValue() == secs * SECOND
  {
    hide GetText, DecimalValue, DeltaSeconds, Find, WrittenSeconds.Text;
    if w :| WritesAge(e.headers, w) && secs == Min(DecimalValue(w.digits), MAX_DELTA_SECS) {
      FirstMember(w);
      WrittenIsRead(w);
    } else if GetText(e.headers, "age").Some? {
      var v := GetText(e.headers, "age").value;
      if DeltaSeconds(v[..Find(v, ',')]).Some? {
        var w := ReadAgeWasWritten(e.headers, v);
      }
    }
  }

  lemma WrittenIsRead(w: WrittenSeconds)
    requires w.Valid()
    ensures DeltaSeconds(w.before + w.digits + w.after) == Some(Min(DecimalValue(w.digits), MAX_DELTA_SECS))
  {
    hide DecimalValue, DeltaSeconds;
    DeltaSecondsReads(w.before, w.digits, w.after);
  }

  /** The instant a date field gives, if it is there and the date reads. */
  predicate DateIs(h: HeaderMap, dates: Dates, name: string, date: Option<int>) {
    match GetText(h, name)
    case Some(text) => date == dates.parse(text)
    case None => date == None
  }

  /** So young, with the time it has been here: since its `Date`, by its `Age`, and by its `Age` and
      how long the response took (section 4.2.3 of RFC 9111). */
  predicate YoungerThan(e: CacheEntry, date: Option<int>, ageSecs: nat, here: int, limit: int) {
    && (date.Some? ==> e.receivedAt - date.value + here < limit)
    && ageSecs * SECOND + here < limit
    && ageSecs * SECOND + (e.receivedAt - e.requestedAt) + here < limit
  }

  /** The current age is what the fields say: it is under a limit exactly when each of the ages they
      give is, whether the clock has gone on since the response arrived or back. */
  lemma AgeAsItsFieldsSay(e: CacheEntry, dates: Dates, now: int, date: Option<int>, ageSecs: nat, limit: int)
    requires DateIs(e.headers, dates, "date", date) && AgeIs(e.headers, ageSecs)
    ensures e.CurrentAge(dates, now) < limit
            <==> YoungerThan(e, date, ageSecs, 0, limit) && YoungerThan(e, date, ageSecs, now - e.receivedAt, limit)
  {
    hide GetText, AgeIs, CacheEntry.AgeValue;
    AgeIsRead(e, ageSecs);
  }

  /** A tenth of a span in whole seconds, rounded down and no more than a day. */
  predicate IsTenthOf(span: int, tenth: int) {
    var secs := tenth / SECOND;
    && 0 <= secs <= HEURISTIC_MAX_SECS && tenth == secs * SECOND
    && (secs > 0 ==> 10 * secs * SECOND <= span)
    && (secs < HEURISTIC_MAX_SECS ==> span < 10 * (secs + 1) * SECOND)
  }

  /** The lifetime the fields give (section 4.2.1 of RFC 9111): `max-age`, else `Expires` after the `Date`
      and none for one that does not read, else a tenth of the age since `Last-Modified`, else nothing. */
  ghost predicate LifetimeIs(e: CacheEntry, dates: Dates, lifetime: Option<int>) {
    exists date, expires, modified ::
      && DateIs(e.headers, dates, "date", date)
      && DateIs(e.headers, dates, "expires", expires)
      && DateIs(e.headers, dates, "last-modified", modified)
      && LifetimeFrom(e, date, expires, modified, lifetime)
  }

  predicate LifetimeFrom(
    e: CacheEntry, date: Option<int>, expires: Option<int>, modified: Option<int>, lifetime: Option<int>)
  {
    var maxAge := ResponseDirectivesOf(e.headers).maxAge;
    var made := if date.Some? then date.value else e.receivedAt;
    if maxAge.Some? then lifetime == Some(maxAge.value * SECOND)
    else if expires.Some? then
      lifetime.Some? && (if made < expires.value then made + lifetime.value == expires.value else lifetime.value == 0)
    else if GetAll(e.headers, "expires") != [] then lifetime == Some(0)
    else if modified.Some? then lifetime.Some? && IsTenthOf(made - modified.value, lifetime.value)
    else lifetime == None
  }

  lemma TenthIsTenth(e: CacheEntry, base: int, modified: int)
    ensures IsTenthOf(base - modified, e.HeuristicLifetime(base, modified))
  {
    var span := base - modified;
    var secs: nat := e.HeuristicLifetime(base, modified) / SECOND;
    assert e.HeuristicLifetime(base, modified) == secs * SECOND;
  }

  lemma TenthIsOne(span: int, a: int, b: int)
    requires IsTenthOf(span, a) && IsTenthOf(span, b)
    ensures a == b
  {
  }

  /** The freshness lifetime is what the fields say. */
  lemma LifetimeAsItsFieldsSay(e: CacheEntry, dates: Dates, lifetime: Option<int>)
    ensures e.FreshnessLifetime(dates) == lifetime <==> LifetimeIs(e, dates, lifetime)
  {
    hide GetText, ResponseDirectivesOf, IsTenthOf, CacheEntry.HeuristicLifetime, GetAll;
    var date, expires := HeaderDate(dates, e.headers, "date"), HeaderDate(dates, e.headers, "expires");
    var modified := HeaderDate(dates, e.headers, "last-modified");
    var base := if date.Some? then date.value else e.receivedAt;
    assert DateIs(e.headers, dates, "date", date) && DateIs(e.headers, dates, "expires", expires);
    assert DateIs(e.headers, dates, "last-modified", modified);
    if modified.Some? {
      TenthIsTenth(e, base, modified.value);
      if lifetime.Some? && IsTenthOf(base - modified.value, lifetime.value) {
        TenthIsOne(base - modified.value, e.HeuristicLifetime(base, modified.value), lifetime.value);
      }
    }
    if e.FreshnessLifetime(dates) == lifetime {
      assert LifetimeFrom(e, date, expires, modified, lifetime);
    }
  }

  /** Fresh by its fields: some lifetime they give is over every age they give. */
  ghost predicate FreshByFields(e: CacheEntry, dates: Dates, now: int) {
    exists lifetime, date, ageSecs ::
      && LifetimeIs(e, dates, Some(lifetime)) && DateIs(e.headers, dates, "date", date) && AgeIs(e.headers, ageSecs)
      && YoungerThan(e, date, ageSecs, 0, lifetime) && YoungerThan(e, date, ageSecs, now - e.receivedAt, lifetime)
  }

  lemma SomeAge(h: HeaderMap) returns (secs: nat)
    ensures AgeIs(h, secs)
  {
    hide DecimalValue;
    secs := 0;
    if w :| WritesAge(h, w) {
      secs := Min(DecimalValue(w.digits), MAX_DELTA_SECS);
    }
  }

  lemma FreshAsItsFieldsSay(e: CacheEntry, dates: Dates, now: int)
    ensures e.IsFresh(dates, now) <==> FreshByFields(e, dates, now)
  {
    hide CacheEntry.CurrentAge, CacheEntry.FreshnessLifetime, LifetimeIs, AgeIs, YoungerThan, GetText;
    var date := HeaderDate(dates, e.headers, "date");
    var ageSecs := SomeAge(e.headers);
    assert DateIs(e.headers, dates, "date", date);
    if e.IsFresh(dates, now) {
      var lifetime := e.FreshnessLifetime(dates).value;
      LifetimeAsItsFieldsSay(e, dates, Some(lifetime));
      AgeAsItsFieldsSay(e, dates, now, date, ageSecs, lifetime);
    }
    if FreshByFields(e, dates, now) {
      var lifetime, d, secs :|
        && LifetimeIs(e, dates, Some(lifetime)) && DateIs(e.headers, dates, "date", d) && AgeIs(e.headers, secs)
        && YoungerThan(e, d, secs, 0, lifetime) && YoungerThan(e, d, secs, now - e.receivedAt, lifetime);
      LifetimeAsItsFieldsSay(e, dates, Some(lifetime));
      AgeAsItsFieldsSay(e, dates, now, d, secs, lifetime);
    }
  }

  // ----- Storing a response -----------------------------------------------------------------

  function HeaderNames(parts: seq<string>): seq<string> {
    if parts == [] then []
    else (match HeaderName(Trim(parts[0])) case Some(n) => [n] case None => []) + HeaderNames(parts[1..])
  }

  /** The fields a response's `Connection` names. */
  function ConnectionListed(h: HeaderMap): seq<string> {
    HeaderNames(FlatMap(SplitCommas, TextLines(GetAll(h, "connection"))))
  }

  function RemoveAll(h: HeaderMap, names: seq<string>): HeaderMap {
    if names == [] then h else Remove(RemoveAll(h, names[..|names| - 1]), names[|names| - 1])
  }

  lemma {:induction false} GetAllRemoveAll(h: HeaderMap, names: seq<string>, name: string)
    ensures GetAll(RemoveAll(h, names), name) == if name in names then [] else GetAll(h, name)
  {
    hide GetAll, Remove;
    if names != [] {
      var front, last := names[..|names| - 1], names[|names| - 1];
      assert names == front + [last];
      assert name in names <==> name in front || name == last;
      GetAllRemoveAll(h, front, name);
      GetAllRemove(RemoveAll(h, front), last, name);
    }
  }

  const NEVER_STORED := HOP_BY_HOP + [PROXY_AUTHENTICATION_INFO, "set-cookie"]

  function StoredHeaders(dates: Dates, response: HeaderMap, decoded: bool, receivedAt: int): HeaderMap {
    var kept := RemoveAll(RemoveAll(response, ConnectionListed(response)), NEVER_STORED);
    var dated := if Contains(kept, "date") then kept else Append(kept, "date", [dates.format(receivedAt)]);
    if decoded then Remove(Remove(dated, "content-encoding"), "content-length") else dated
  }

  function StoredEntry(
    dates: Dates, status: nat, response: HeaderMap, request: HeaderMap, body: Bytes, decoded: bool,
    requestedAt: int, receivedAt: int): CacheEntry
  {
    CacheEntry(status, StoredHeaders(dates, response, decoded, receivedAt), body,
               SelectorOf(VaryNames(response), request), decoded, requestedAt, receivedAt)
  }

  /** `entry_from_response`. */
  method EntryFromResponse(
    dates: Dates, status: nat, response: HeaderMap, request: HeaderMap, body: Bytes, decoded: bool,
    requestedAt: int, receivedAt: int)
    returns (entry: CacheEntry)
    ensures entry == StoredEntry(dates, status, response, request, body, decoded, requestedAt, receivedAt)
  {
    hide GetAll, Remove, Append, SelectorOf, VaryNames, ConnectionListed, Contains;
    var headers := response;
    var listed := ConnectionListed(response);
    var i := 0;
    while i < |listed|
      invariant 0 <= i <= |listed|
      invariant headers == RemoveAll(response, listed[..i])
    {
      assert listed[..i + 1][..i] == listed[..i];
      headers := Remove(headers, listed[i]);
      i := i + 1;
    }
    assert listed[..i] == listed;
    ghost var unlisted := headers;
    i := 0;
    while i < |HOP_BY_HOP|
      invariant 0 <= i <= |HOP_BY_HOP|
      invariant headers == RemoveAll(unlisted, HOP_BY_HOP[..i])
    {
      assert HOP_BY_HOP[..i + 1][..i] == HOP_BY_HOP[..i];
      headers := Remove(headers, HOP_BY_HOP[i]);
      i := i + 1;
    }
    assert HOP_BY_HOP[..i] == HOP_BY_HOP;
    headers := Remove(headers, PROXY_AUTHENTICATION_INFO);
    headers := Remove(headers, "set-cookie");
    assert headers == RemoveAll(unlisted, NEVER_STORED) by {
      var n := |HOP_BY_HOP|;
      assert NEVER_STORED[..n + 1][..n] == HOP_BY_HOP;
      assert NEVER_STORED[..|NEVER_STORED| - 1] == NEVER_STORED[..n + 1];
    }
    if !Contains(headers, "date") {
      headers := Append(headers, "date", [dates.format(receivedAt)]);
    }
    if decoded {
      headers := Remove(headers, "content-encoding");
      headers := Remove(headers, "content-length");
    }
    entry := CacheEntry(status, headers, body, SelectorOf(VaryNames(response), request), decoded, requestedAt, receivedAt);
  }

  // ----- A 304 ------------------------------------------------------------------------------

  /** The fields of a `304` that leave the stored ones alone. */
  predicate NotUpdated(update: HeaderMap, decoded: bool, name: string) {
    || DescribesConnection(name)
    || name in ConnectionListed(update)
    || name == "content-length"
    || name == "set-cookie"
    || (decoded && name == "content-encoding")
  }

  function MergeNames(stored: HeaderMap, update: HeaderMap, decoded: bool, names: seq<string>): HeaderMap {
    if names == [] then stored
    else
      var merged := MergeNames(stored, update, decoded, names[..|names| - 1]);
      var name := names[|names| - 1];
      if NotUpdated(update, decoded, name) then merged
      else Append(Remove(merged, name), name, GetAll(update, name))
  }

  function MergedHeaders(stored: HeaderMap, update: HeaderMap, decoded: bool): HeaderMap {
    MergeNames(stored, update, decoded, Names(update))
  }

  datatype Update304 = Update304(headers: HeaderMap, requestedAt: int, receivedAt: int, request: HeaderMap)

  function UpdatedEntry(e: CacheEntry, u: Update304): CacheEntry {
    var headers := MergedHeaders(e.headers, u.headers, e.decoded);
    e.(headers := headers,
       vary := if Contains(u.headers, "vary") then UpdatedSelectorOf(VaryNames(headers), u.request) else e.vary,
       requestedAt := u.requestedAt,
       receivedAt := u.receivedAt)
  }

  /** `updated_by_304`. */
  method UpdatedBy304(e: CacheEntry, headers: HeaderMap, requestedAt: int, receivedAt: int, request: HeaderMap)
    returns (updated: CacheEntry)
    ensures updated == UpdatedEntry(e, Update304(headers, requestedAt, receivedAt, request))
  {
    hide GetAll, Remove, Append, UpdatedSelectorOf, VaryNames, ConnectionListed, Contains, Names;
    updated := e;
    var connection := ConnectionListed(headers);
    var names := Names(headers);
    var i := 0;
    while i < |names|
      invariant 0 <= i <= |names|
      invariant updated == e.(headers := MergeNames(e.headers, headers, e.decoded, names[..i]))
    {
      var name := names[i];
      assert names[..i + 1][..i] == names[..i];
      if !(name in HOP_BY_HOP || name == PROXY_AUTHENTICATION_INFO || name in connection
           || name == "content-length" || name == "set-cookie" || (e.decoded && name == "content-encoding"))
      {
        updated := updated.(headers := Remove(updated.headers, name));
        updated := updated.(headers := Append(updated.headers, name, GetAll(headers, name)));
      }
      i := i + 1;
    }
    assert names[..i] == names;
    if Contains(headers, "vary") {
      updated := updated.(vary := UpdatedSelectorOf(VaryNames(updated.headers), request));
    }
    updated := updated.(requestedAt := requestedAt, receivedAt := receivedAt);
  }

  lemma {:induction false} MergeNamesGetAll(
    stored: HeaderMap, update: HeaderMap, decoded: bool, names: seq<string>, name: string)
    ensures GetAll(MergeNames(stored, update, decoded, names), name)
         == if name in names && !NotUpdated(update, decoded, name) then GetAll(update, name)
            else GetAll(stored, name)
  {
    hide GetAll, Remove, Append, NotUpdated;
    if names != [] {
      var front, last := names[..|names| - 1], names[|names| - 1];
      assert names == front + [last];
      MergeNamesGetAll(stored, update, decoded, front, name);
      var merged := MergeNames(stored, update, decoded, front);
      if !NotUpdated(update, decoded, last) {
        GetAllRemove(merged, last, name);
        GetAllAppend(Remove(merged, last), last, GetAll(update, last), name);
      }
    }
  }

  lemma NeverStoredNames(name: string)
    ensures name in NEVER_STORED <==> DescribesConnection(name) || name == "set-cookie"
    ensures name in NEVER_STORED ==> name != "date"
  {
    var n := |HOP_BY_HOP|;
    assert NEVER_STORED[n] == PROXY_AUTHENTICATION_INFO && NEVER_STORED[n + 1] == "set-cookie";
    assert forall i | 0 <= i < n :: NEVER_STORED[i] == HOP_BY_HOP[i] != "date";
    if name in NEVER_STORED {
      var i :| 0 <= i < |NEVER_STORED| && NEVER_STORED[i] == name;
      assert i < n || i == n || i == n + 1;
    }
    if name in HOP_BY_HOP {
      var i :| 0 <= i < n && HOP_BY_HOP[i] == name;
      assert NEVER_STORED[i] == name;
    }
  }

  /** Storing keeps every other field as it came. */
  lemma StoredKeepsOtherFields(dates: Dates, response: HeaderMap, decoded: bool, receivedAt: int, name: string)
    requires !Forbidden(decoded, name) && name !in ConnectionListed(response)
    ensures GetAll(StoredHeaders(dates, response, decoded, receivedAt), name)
         == if name == "date" && !Contains(response, name) then [dates.format(receivedAt)] else GetAll(response, name)
  {
    hide GetAll, Remove, Append, RemoveAll, ConnectionListed;
    var unlisted := RemoveAll(response, ConnectionListed(response));
    var kept := RemoveAll(unlisted, NEVER_STORED);
    NeverStoredNames(name);
    GetAllRemoveAll(response, ConnectionListed(response), name);
    GetAllRemoveAll(unlisted, NEVER_STORED, name);
    var added := [dates.format(receivedAt)];
    GetAllAppend(kept, "date", added, name);
    var dated := if Contains(kept, "date") then kept else Append(kept, "date", added);
    GetAllRemove(dated, "content-encoding", name);
    GetAllRemove(Remove(dated, "content-encoding"), "content-length", name);
  }

  /** A `304` leaves the `Content-Length`, the cookies and whatever its `Connection` lists as stored,
      and the coding of a body that was decoded. */
  lemma UpdateLeavesSomeFields(e: CacheEntry, u: Update304, name: string)
    requires || name in {"content-length", "set-cookie", "connection", "transfer-encoding"}
             || name in ConnectionListed(u.headers) || (e.decoded && name == "content-encoding")
    ensures GetAll(UpdatedEntry(e, u).headers, name) == GetAll(e.headers, name)
  {
    hide GetAll, UpdatedEntry, ConnectionListed;
    UpdateReplacesFields(e, u, name);
    assert "connection" == HOP_BY_HOP[0] && "transfer-encoding" == HOP_BY_HOP[5];
  }

  /** What one `304` does to each field: the ones it carries replace the stored values whole,
      save for the fields no `304` updates; every other field keeps its values. */
  lemma UpdateReplacesFields(e: CacheEntry, u: Update304, name: string)
    ensures GetAll(UpdatedEntry(e, u).headers, name)
         == if Contains(u.headers, name) && !NotUpdated(u.headers, e.decoded, name) then GetAll(u.headers, name)
            else GetAll(e.headers, name)
  {
    NamesAreContained(u.headers, name);
    MergeNamesGetAll(e.headers, u.headers, e.decoded, Names(u.headers), name);
  }

  // ----- An entry over its life -------------------------------------------------------------

  /** An entry as stored and then updated by each `304` in turn. */
  function AfterUpdates(e: CacheEntry, us: seq<Update304>): CacheEntry {
    if us == [] then e else UpdatedEntry(AfterUpdates(e, us[..|us| - 1]), us[|us| - 1])
  }

  /** The values a field ends with: those of the latest `304` that may update it and carries it. */
  function LatestValues(stored: seq<string>, us: seq<Update304>, decoded: bool, name: string): seq<string> {
    if us == [] then stored
    else
      var last := us[|us| - 1].headers;
      if Contains(last, name) && !NotUpdated(last, decoded, name) then GetAll(last, name)
      else LatestValues(stored, us[..|us| - 1], decoded, name)
  }

  /** Any number of `304`s: the body, status and decoding stay, and every field holds the latest
      values it was given. */
  lemma {:induction false} UpdatesKeepBodyAndLatestFields(e: CacheEntry, us: seq<Update304>)
    ensures var after := AfterUpdates(e, us);
            && after.body == e.body && after.status == e.status && after.decoded == e.decoded
            && forall name :: GetAll(after.headers, name) == LatestValues(GetAll(e.headers, name), us, e.decoded, name)
  {
    if us != [] {
      UpdatesKeepBodyAndLatestFields(e, us[..|us| - 1]);
      forall name
        ensures GetAll(AfterUpdates(e, us).headers, name) == LatestValues(GetAll(e.headers, name), us, e.decoded, name)
      {
        UpdateReplacesFields(AfterUpdates(e, us[..|us| - 1]), us[|us| - 1], name);
      }
    }
  }

  /** Fields no stored entry may hold. */
  predicate Forbidden(decoded: bool, name: string) {
    DescribesConnection(name) || name == "set-cookie"
    || (decoded && (name == "content-encoding" || name == "content-length"))
  }

  lemma StoredHoldsNothingForbidden(
    dates: Dates, status: nat, response: HeaderMap, request: HeaderMap, body: Bytes, decoded: bool,
    requestedAt: int, receivedAt: int, name: string)
    requires Forbidden(decoded, name)
    ensures !Contains(
              StoredEntry(dates, status, response, request, body, decoded, requestedAt, receivedAt).headers, name)
  {
    var listed := RemoveAll(response, ConnectionListed(response));
    var kept := RemoveAll(listed, NEVER_STORED);
    var date := [dates.format(receivedAt)];
    var dated := if Contains(kept, "date") then kept else Append(kept, "date", date);
    if decoded {
      GetAllRemove(Remove(dated, "content-encoding"), "content-length", name);
      GetAllRemove(dated, "content-encoding", name);
    }
    if DescribesConnection(name) || name == "set-cookie" {
      NeverStoredNames(name);
      GetAllRemoveAll(listed, NEVER_STORED, name);
      GetAllAppend(kept, "date", date, name);
    }
  }

  lemma {:induction false} NothingForbiddenComesBack(stored: seq<string>, us: seq<Update304>, decoded: bool, name: string)
    requires Forbidden(decoded, name) && stored == []
    ensures LatestValues(stored, us, decoded, name) == []
  {
    if us != [] {
      NothingForbiddenComesBack(stored, us[..|us| - 1], decoded, name);
    }
  }

  /** Stored once and updated by any `304`s, an entry never holds `Set-Cookie`, a hop-by-hop or a
      proxy-authentication field, nor, when decoded, the fields that described the coded bytes. */
  lemma EntryNeverHoldsForbidden(
    dates: Dates, status: nat, response: HeaderMap, request: HeaderMap, body: Bytes, decoded: bool,
    requestedAt: int, receivedAt: int, us: seq<Update304>, name: string)
    requires Forbidden(decoded, name)
    ensures var e := StoredEntry(dates, status, response, request, body, decoded, requestedAt, receivedAt);
            !Contains(AfterUpdates(e, us).headers, name)
  {
    var e := StoredEntry(dates, status, response, request, body, decoded, requestedAt, receivedAt);
    StoredHoldsNothingForbidden(dates, status, response, request, body, decoded, requestedAt, receivedAt, name);
    UpdatesKeepBodyAndLatestFields(e, us);
    NothingForbiddenComesBack(GetAll(e.headers, name), us, decoded, name);
  }

  // ----- Selection --------------------------------------------------------------------------

  /** Every stored selecting value is already a normalised list. */
  predicate NormalSelector(vary: Selector) {
    forall i | 0 <= i < |vary| :: vary[i].1.Some? ==> NormalizeList(vary[i].1.value) == vary[i].1.value
  }

  lemma VaryValueIsNormal(request: HeaderMap, name: string)
    ensures VaryValue(request, name).Some? ==>
              NormalizeList(VaryValue(request, name).value) == VaryValue(request, name).value
  {
    NormalizeListIdempotent(Join(TextLines(GetAll(request, name)), ","));
  }

  predicate StarFree(names: seq<string>) {
    "*" !in names
  }

  /** What each element of a fresh response's selector is. */
  predicate BuiltFrom(element: (string, Option<string>), names: seq<string>, request: HeaderMap) {
    && element.0 in names
    && HeaderName(element.0).Some?
    && element.1 == VaryValue(request, HeaderName(element.0).value)
  }

  predicate AllBuiltFrom(v: Selector, names: seq<string>, request: HeaderMap) {
    forall i | 0 <= i < |v| :: BuiltFrom(v[i], names, request)
  }

  lemma {:induction false} SelectorOfElements(names: seq<string>, request: HeaderMap)
    ensures AllBuiltFrom(SelectorOf(names, request), names, request)
  {
    hide VaryValue, HeaderName;
    if names != [] {
      SelectorOfElements(names[1..], request);
      var v, rest := SelectorOf(names, request), SelectorOf(names[1..], request);
      forall i | 0 <= i < |v|
        ensures BuiltFrom(v[i], names, request)
      {
        var shift := if HeaderName(names[0]).Some? then 1 else 0;
        if i >= shift {
          assert v[i] == rest[i - shift];
          assert BuiltFrom(rest[i - shift], names[1..], request);
          assert forall n | n in names[1..] :: n in names;
        }
      }
    }
  }

  lemma StarIsAHeaderName()
    ensures HeaderName("*").Some?
  {
    assert IsToken("*");
  }

  lemma {:induction false} SelectorOfKeepsStar(names: seq<string>, request: HeaderMap)
    requires "*" in names
    ensures exists i | 0 <= i < |SelectorOf(names, request)| :: SelectorOf(names, request)[i].0 == "*"
  {
    hide VaryValue, HeaderName;
    var v, rest := SelectorOf(names, request), SelectorOf(names[1..], request);
    if names[0] == "*" {
      StarIsAHeaderName();
      assert v[0].0 == "*";
    } else {
      SelectorOfKeepsStar(names[1..], request);
      var i :| 0 <= i < |rest| && rest[i].0 == "*";
      var shift := if HeaderName(names[0]).Some? then 1 else 0;
      assert v[i + shift] == rest[i];
    }
  }

  /** Every listed field name is in a fresh response's selector. */
  lemma {:induction false} SelectorOfHas(names: seq<string>, request: HeaderMap, name: string)
    requires name in names && HeaderName(name).Some?
    ensures exists i | 0 <= i < |SelectorOf(names, request)| :: SelectorOf(names, request)[i].0 == name
  {
    hide VaryValue, HeaderName;
    var v, rest := SelectorOf(names, request), SelectorOf(names[1..], request);
    if names[0] == name {
      assert v[0].0 == name;
    } else {
      assert name in names[1..];
      SelectorOfHas(names[1..], request, name);
      var i :| 0 <= i < |rest| && rest[i].0 == name;
      var shift := if HeaderName(names[0]).Some? then 1 else 0;
      assert v[i + shift] == rest[i];
    }
  }

  /** Two requests say the same in a field: neither has a line of it that is text, or both have, and
      their lines, joined with commas, list the same elements in the same order. */
  predicate SayTheSame(a: HeaderMap, b: HeaderMap, name: string) {
    var p, q := TextLines(GetAll(a, name)), TextLines(GetAll(b, name));
    && (p == [] <==> q == [])
    && Elements(Split(Join(p, ","), Outside)) == Elements(Split(Join(q, ","), Outside))
  }

  lemma SameValueIffSayTheSame(a: HeaderMap, b: HeaderMap, name: string)
    ensures VaryValue(a, name) == VaryValue(b, name) <==> SayTheSame(a, b, name)
  {
    hide Elements, Split, Join, NormalizeList, TextLines, GetAll;
    NormalizeListTellsElementsApart(Join(TextLines(GetAll(a, name)), ","), Join(TextLines(GetAll(b, name)), ","));
  }

  /** An entry stored for one request answers another exactly when that wants the same decoding, the
      response did not say `Vary: *`, and the two say the same in every field it lists (section 4.1 of
      RFC 9111). */
  lemma EntryMatchesIffRequestsSayTheSame(
    dates: Dates, status: nat, response: HeaderMap, request: HeaderMap, body: Bytes, decoded: bool,
    requestedAt: int, receivedAt: int, other: HeaderMap, wantsDecoded: bool)
    ensures var e := StoredEntry(dates, status, response, request, body, decoded, requestedAt, receivedAt);
            var names := VaryNames(response);
            e.Matches(other, wantsDecoded)
            <==> && wantsDecoded == decoded && "*" !in names
                 && forall name | name in names && HeaderName(name).Some? ::
                      SayTheSame(request, other, HeaderName(name).value)
  {
    hide GetAll, StoredHeaders, VaryNames, VaryValue, SayTheSame, HeaderName, SelectorOf, NormalizeList;
    var names := VaryNames(response);
    var v := SelectorOf(names, request);
    var e := StoredEntry(dates, status, response, request, body, decoded, requestedAt, receivedAt);
    SelectorOfElements(names, request);
    SelectorOfSelects(names, request);
    StarIsAHeaderName();
    forall i | 0 <= i < |v|
      ensures v[i].0 in names && HeaderName(v[i].0).Some?
      ensures e.Selects(i, other) <==> SayTheSame(request, other, HeaderName(v[i].0).value)
    {
      assert BuiltFrom(v[i], names, request);
      SameValueIffSayTheSame(request, other, HeaderName(v[i].0).value);
    }
    forall name | name in names && HeaderName(name).Some?
      ensures exists i | 0 <= i < |v| :: v[i].0 == name
    {
      SelectorOfHas(names, request, name);
    }
  }

  lemma SelectorOfSelects(names: seq<string>, request: HeaderMap)
    ensures NormalSelector(SelectorOf(names, request))
  {
    SelectorOfElements(names, request);
    var v := SelectorOf(names, request);
    forall i | 0 <= i < |v|
      ensures v[i].1.Some? ==> NormalizeList(v[i].1.value) == v[i].1.value
    {
      assert BuiltFrom(v[i], names, request);
      VaryValueIsNormal(request, HeaderName(v[i].0).value);
    }
  }

  lemma {:induction false} UpdatedSelectorOfSelects(names: seq<string>, request: HeaderMap)
    ensures var v := UpdatedSelectorOf(names, request);
            && NormalSelector(v) && |v| == |names|
            && forall i | 0 <= i < |v| ::
                 && v[i].0 == names[i]
                 && v[i].1 == match HeaderName(names[i]) case Some(n) => VaryValue(request, n) case None => None
  {
    if names != [] {
      UpdatedSelectorOfSelects(names[1..], request);
      if HeaderName(names[0]).Some? {
        VaryValueIsNormal(request, HeaderName(names[0]).value);
      }
      var v, rest := UpdatedSelectorOf(names, request), UpdatedSelectorOf(names[1..], request);
      forall i | 0 <= i < |v|
        ensures v[i].0 == names[i]
        ensures v[i].1 == match HeaderName(names[i]) case Some(n) => VaryValue(request, n) case None => None
        ensures v[i].1.Some? ==> NormalizeList(v[i].1.value) == v[i].1.value
      {
        if i > 0 {
          assert v[i] == rest[i - 1];
        }
      }
    }
  }

  /** An entry matches the request it was built from unless the response said `Vary: *`. */
  lemma StoredEntryMatchesItsRequest(
    dates: Dates, status: nat, response: HeaderMap, request: HeaderMap, body: Bytes, decoded: bool,
    requestedAt: int, receivedAt: int)
    ensures var e := StoredEntry(dates, status, response, request, body, decoded, requestedAt, receivedAt);
            e.Matches(request, decoded) <==> StarFree(VaryNames(response))
  {
    var names, v := VaryNames(response), SelectorOf(VaryNames(response), request);
    SelectorOfSelects(names, request);
    SelectorOfElements(names, request);
    var e := StoredEntry(dates, status, response, request, body, decoded, requestedAt, receivedAt);
    if StarFree(names) {
      forall i | 0 <= i < |v|
        ensures v[i].0 != "*" && e.Selects(i, request)
      {
        assert BuiltFrom(v[i], names, request);
      }
    } else {
      SelectorOfKeepsStar(names, request);
    }
  }

  /** The entry a `304` leaves matches the request that revalidated it: always when the `304` named
      its own selecting fields (and no `*`), and exactly when it did before otherwise. */
  lemma UpdatedEntryMatchesItsRequest(e: CacheEntry, u: Update304)
    ensures var updated := UpdatedEntry(e, u);
            updated.Matches(u.request, e.decoded)
            <==> if Contains(u.headers, "vary") then StarFree(VaryNames(updated.headers))
                 else e.Matches(u.request, e.decoded)
  {
    hide GetAll, UpdatedSelectorOf, VaryNames, VaryValue, NormalizeList, HeaderName, MergedHeaders;
    var updated := UpdatedEntry(e, u);
    if Contains(u.headers, "vary") {
      UpdatedSelectorOfSelects(VaryNames(updated.headers), u.request);
      assert forall i | 0 <= i < |updated.vary| :: updated.vary[i].0 in VaryNames(updated.headers);
      if !StarFree(VaryNames(updated.headers)) {
        var i :| 0 <= i < |VaryNames(updated.headers)| && VaryNames(updated.headers)[i] == "*";
        assert updated.vary[i].0 == "*";
      }
    } else {
      assert updated.vary == e.vary;
      assert forall i, r | 0 <= i < |e.vary| :: updated.Selects(i, r) == e.Selects(i, r);
    }
  }

  function SelectorNames(vary: Selector): seq<string> {
    seq(|vary|, i requires 0 <= i < |vary| => vary[i].0)
  }

  /** One request cannot match two selectors over the same names unless they are one selector. */
  lemma MatchingSelectorsAgree(a: CacheEntry, b: CacheEntry, request: HeaderMap, decoded: bool)
    requires NormalSelector(a.vary) && NormalSelector(b.vary)
    requires SelectorNames(a.vary) == SelectorNames(b.vary)
    requires a.Matches(request, decoded) && b.Matches(request, decoded)
    ensures a.vary == b.vary && a.decoded == b.decoded
  {
    assert |a.vary| == |SelectorNames(a.vary)| == |b.vary|;
    forall i | 0 <= i < |a.vary|
      ensures a.vary[i] == b.vary[i]
    {
      assert SelectorNames(a.vary)[i] == SelectorNames(b.vary)[i];
      SelectedValue(a, i, request);
      SelectedValue(b, i, request);
    }
  }

  lemma SelectedValue(e: CacheEntry, i: nat, request: HeaderMap)
    requires NormalSelector(e.vary) && i < |e.vary| && e.Selects(i, request)
    ensures e.vary[i].1 == match HeaderName(e.vary[i].0) case Some(n) => VaryValue(request, n) case None => None
  {
  }

  lemma {:induction false} UpdatesKeepNormalSelector(e: CacheEntry, us: seq<Update304>)
    requires NormalSelector(e.vary)
    ensures NormalSelector(AfterUpdates(e, us).vary)
  {
    if us != [] {
      var before, u := AfterUpdates(e, us[..|us| - 1]), us[|us| - 1];
      UpdatesKeepNormalSelector(e, us[..|us| - 1]);
      UpdatedSelectorOfSelects(VaryNames(MergedHeaders(before.headers, u.headers, before.decoded)), u.request);
    }
  }

  /** Every entry that storing and `304`s can produce has a normalised selector. */
  lemma BuiltEntriesHaveNormalSelectors(
    dates: Dates, status: nat, response: HeaderMap, request: HeaderMap, body: Bytes, decoded: bool,
    requestedAt: int, receivedAt: int, us: seq<Update304>)
    ensures NormalSelector(
              AfterUpdates(
                StoredEntry(dates, status, response, request, body, decoded, requestedAt, receivedAt), us).vary)
  {
    SelectorOfSelects(VaryNames(response), request);
    UpdatesKeepNormalSelector(
      StoredEntry(dates, status, response, request, body, decoded, requestedAt, receivedAt), us);
  }

  // ----- Names that are no field names ------------------------------------------------------

  predicate FieldNames(names: seq<string>) {
    forall i | 0 <= i < |names| :: HeaderName(names[i]).Some?
  }

  lemma {:induction false} SelectorsAgreeIffFieldNames(names: seq<string>, request: HeaderMap)
    ensures SelectorOf(names, request) == UpdatedSelectorOf(names, request) <==> FieldNames(names)
    ensures |SelectorOf(names, request)| <= |names| == |UpdatedSelectorOf(names, request)|
  {
    hide HeaderName, VaryValue;
    if names != [] {
      var rest := names[1..];
      SelectorsAgreeIffFieldNames(rest, request);
      assert FieldNames(names) <==> HeaderName(names[0]).Some? && FieldNames(rest) by {
        assert forall i | 0 < i < |names| :: names[i] == rest[i - 1];
        assert forall i | 0 <= i < |rest| :: rest[i] == names[i + 1];
      }
      if HeaderName(names[0]).Some? {
        var first := (names[0], VaryValue(request, HeaderName(names[0]).value));
        assert SelectorOf(names, request) == [first] + SelectorOf(rest, request);
        assert UpdatedSelectorOf(names, request) == [first] + UpdatedSelectorOf(rest, request);
        assert ([first] + SelectorOf(rest, request))[1..] == SelectorOf(rest, request);
        assert ([first] + UpdatedSelectorOf(rest, request))[1..] == UpdatedSelectorOf(rest, request);
      } else {
        assert SelectorOf(names, request) == SelectorOf(rest, request);
      }
    }
  }

  /** The `304` repeats the `Vary` of the stored response, and may update it. */
  predicate RepeatsVary(response: HeaderMap, u: Update304, decoded: bool) {
    && Contains(u.headers, "vary") && !NotUpdated(u.headers, decoded, "vary")
    && GetAll(u.headers, "vary") == GetAll(response, "vary")
  }

  /** A `304` to the request a response was stored for, with the same `Vary`: the updated entry selects
      by the same names and values exactly when every listed name is a field name, and unless `*` is
      among them that request matches the entry as stored and as updated. */
  lemma RepeatedVaryAgreesIffFieldNames(
    dates: Dates, status: nat, response: HeaderMap, request: HeaderMap, body: Bytes, decoded: bool,
    requestedAt: int, receivedAt: int, u: Update304)
    requires RepeatsVary(response, u, decoded) && u.request == request
    ensures var e := StoredEntry(dates, status, response, request, body, decoded, requestedAt, receivedAt);
            var updated := UpdatedEntry(e, u);
            && (updated.vary == e.vary <==> FieldNames(VaryNames(response)))
            && updated.decoded == e.decoded == decoded
            && (StarFree(VaryNames(response)) ==> e.Matches(request, decoded) && updated.Matches(request, decoded))
  {
    hide SelectorOf, UpdatedSelectorOf, FieldNames, GetAll, MergedHeaders, StoredHeaders, CacheEntry.Matches, NotUpdated,
      StarFree;
    var e := StoredEntry(dates, status, response, request, body, decoded, requestedAt, receivedAt);
    UpdateReplacesFields(e, u, "vary");
    assert VaryNames(UpdatedEntry(e, u).headers) == VaryNames(response);
    SelectorsAgreeIffFieldNames(VaryNames(response), request);
    StoredEntryMatchesItsRequest(dates, status, response, request, body, decoded, requestedAt, receivedAt);
    UpdatedEntryMatchesItsRequest(e, u);
  }

  /** `Vary: @`. */
  const ODD_VARY: HeaderMap := [Line("vary", "@")]

  lemma OddVaryLines()
    ensures TextLines(GetAll(ODD_VARY, "vary")) == ["@"] && GetAll(ODD_VARY, "vary") == ["@"]
    ensures GetAll(ODD_VARY, "connection") == []
  {
    assert |"connection"| != |"vary"|;
    assert ODD_VARY[1..] == [] && ["@"][1..] == [];
    assert TextLines(["@"]) == ["@"] + TextLines([]);
  }

  lemma OddParts()
    ensures FlatMap(SplitCommas, ["@"]) == ["@"] && FlatMap(SplitCommas, TextLines([])) == []
  {
    assert "@"[1..] == "" && ["@"][1..] == [];
    assert SplitCommas("") == [""];
    assert ['@'] + "" == "@";
    assert SplitCommas("@") == ["@"];
    var none: seq<string> := [];
    assert FlatMap(SplitCommas, none) == [];
    assert FlatMap(SplitCommas, ["@"]) == SplitCommas("@") + FlatMap(SplitCommas, []);
  }

  lemma OddName()
    ensures LowerTrimmed(["@"]) == ["@"] && HeaderName("@").None?
  {
    hide TrimStart, TrimEnd, Trim;
    TrimOfTrimmed("@");
    assert Lower("@") == "@" && ["@"][1..] == [];
    assert LowerTrimmed(["@"]) == ["@"] + LowerTrimmed([]);
    assert !IsTokenChar("@"[0]);
  }

  lemma OddVaryNames()
    ensures VaryNames(ODD_VARY) == ["@"] && !FieldNames(VaryNames(ODD_VARY)) && StarFree(VaryNames(ODD_VARY))
    ensures RepeatsVary(ODD_VARY, Update304(ODD_VARY, 0, 0, []), false)
  {
    hide GetAll, TextLines, FlatMap, LowerTrimmed, HeaderName;
    OddVaryLines();
    OddParts();
    OddName();
    assert HeaderName(["@"][0]).None?;
    assert ConnectionListed(ODD_VARY) == [];
    VaryMayBeUpdated();
  }

  lemma VaryMayBeUpdated()
    ensures !DescribesConnection("vary") && "vary" != "content-length" && "vary" != "set-cookie"
  {
    assert |"vary"| == 4 && forall i | 0 <= i < |HOP_BY_HOP| :: |HOP_BY_HOP[i]| != 4;
  }
}
