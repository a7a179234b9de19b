/** HTTP Strict Transport Security (RFC 6797): reading a policy off a header, keeping policies, and
    deciding whether a host must be reached over HTTPS. */
module Hsts {
  import opened Collections
  import opened Text
  import opened Headers
  import P = HstsParser

  const SECOND := 1_000_000_000
  const MAX_AGE_CAP_SECS := 100 * 365 * 24 * 60 * 60
  const U64_MAX := 0xFFFF_FFFF_FFFF_FFFF
  const MAX_HSTS_ENTRIES := 4096

  datatype HstsEntry = HstsEntry(expiresAt: int, includeSubdomains: bool) {
    predicate IsExpired(now: int) {
      now >= expiresAt
    }
  }

  // ----- Directives -------------------------------------------------------------------------

  datatype StsDirectives = StsDirectives(maxAge: nat, includeSubdomains: bool)

  predicate SameName(a: string, b: string) {
    Lower(a) == Lower(b)
  }

  /** A `max-age`: digits only, and no more than fits 64 bits. */
  function DeltaSeconds(value: string): Option<nat> {
    if value == "" || !AllDigits(value) then None
    else
      var n := DecimalValue(value);
      Some(if n > U64_MAX then U64_MAX else n)
  }

  /** A `max-age` as written, with any zeros before it, is the number it writes, up to what 64 bits hold. */
  lemma MaxAgeIsTheNumberWritten(zeros: string, n: nat)
    requires forall i | 0 <= i < |zeros| :: zeros[i] == '0'
    ensures DeltaSeconds(zeros + Decimal(n)) == Some(if n < 0x1_0000_0000_0000_0000 then n else 0xFFFF_FFFF_FFFF_FFFF)
  {
    hide DecimalValue, Decimal;
    DecimalIsRead(zeros, n);
  }

  predicate DistinctNames(ds: seq<P.Directive>) {
    forall i, j | 0 <= i < j < |ds| :: !SameName(ds[i].name, ds[j].name)
  }

  predicate GivenRightly(d: P.Directive) {
    && (SameName(d.name, "max-age") ==> d.value.Some? && DeltaSeconds(d.value.value).Some?)
    && (SameName(d.name, "includeSubDomains") ==> d.value.None?)
  }

  predicate Says(ds: seq<P.Directive>, name: string) {
    exists i | 0 <= i < |ds| :: SameName(ds[i].name, name)
  }

  /** The header conforms: no directive twice, `max-age` there with a number, no value on
      `includeSubDomains` (section 6.1 of RFC 6797). */
  predicate Conforms(ds: seq<P.Directive>) {
    DistinctNames(ds) && (forall i | 0 <= i < |ds| :: GivenRightly(ds[i])) && Says(ds, "max-age")
  }

  predicate MaxAgeIs(ds: seq<P.Directive>, n: nat) {
    exists i | 0 <= i < |ds| :: SameName(ds[i].name, "max-age") && ds[i].value.Some?
                                && DeltaSeconds(ds[i].value.value) == Some(n)
  }

  /** The header value conforms and this is the policy it states. */
  predicate States(value: string, sts: StsDirectives) {
    && P.Parse(value).Some?
    && var ds := P.Parse(value).value;
       Conforms(ds) && MaxAgeIs(ds, sts.maxAge) && (sts.includeSubdomains <==> Says(ds, "includeSubDomains"))
  }

  /** A value states at most one policy. */
  lemma StatedOnce(value: string, a: StsDirectives, b: StsDirectives)
    requires States(value, a) && States(value, b)
    ensures a == b
  {
    hide SameName, DeltaSeconds, P.Parse;
    var ds := P.Parse(value).value;
    var i :| 0 <= i < |ds| && SameName(ds[i].name, "max-age") && ds[i].value.Some?
             && DeltaSeconds(ds[i].value.value) == Some(a.maxAge);
    var j :| 0 <= j < |ds| && SameName(ds[j].name, "max-age") && ds[j].value.Some?
             && DeltaSeconds(ds[j].value.value) == Some(b.maxAge);
    SameNameJoins(ds[i].name, ds[j].name, "max-age");
    SameNameJoins(ds[j].name, ds[i].name, "max-age");
    assert i == j;
  }

  lemma SameNameJoins(a: string, b: string, name: string)
    requires SameName(a, name) && SameName(b, name)
    ensures SameName(a, b)
  {
  }

  /** `parse_sts` over the directives. */
  method ParseSts(value: string) returns (r: Option<StsDirectives>)
    ensures r.Some? <==> P.Parse(value).Some? && Conforms(P.Parse(value).value)
    ensures r.Some? ==> States(value, r.value)
  {
    hide DeltaSeconds, SameName, P.Parse;
    NamesDiffer();
    var parsed := P.Directives(value);
    if parsed.None? {
      return None;
    }
    var ds := parsed.value;
    var maxAge: Option<nat> := None;
    var includeSubdomains := false;
    var seen: seq<string> := [];
    var i := 0;
    while i < |ds|
      invariant 0 <= i <= |ds| && |seen| == i
      invariant forall j | 0 <= j < i :: seen[j] == ds[j].name && GivenRightly(ds[j])
      invariant forall j, k | 0 <= j < k < i :: !SameName(ds[j].name, ds[k].name)
      invariant maxAge.None? ==> forall j | 0 <= j < i :: !SameName(ds[j].name, "max-age")
      invariant maxAge.Some? ==> exists j | 0 <= j < i :: SameName(ds[j].name, "max-age") && ds[j].value.Some?
                                                          && DeltaSeconds(ds[j].value.value) == maxAge
      invariant includeSubdomains <==> exists j | 0 <= j < i :: SameName(ds[j].name, "includeSubDomains")
    {
      var d := ds[i];
      if exists j | 0 <= j < |seen| :: SameName(seen[j], d.name) {
        return None;
      }
      seen := seen + [d.name];
      if SameName(d.name, "max-age") {
        NotBoth(d.name);
        if d.value.None? || DeltaSeconds(d.value.value).None? {
          return None;
        }
        maxAge := DeltaSeconds(d.value.value);
      } else if SameName(d.name, "includeSubDomains") {
        if d.value.Some? {
          return None;
        }
        includeSubdomains := true;
      }
      i := i + 1;
    }
    if maxAge.None? {
      return None;
    }
    return Some(StsDirectives(maxAge.value, includeSubdomains));
  }

  lemma NamesDiffer()
    ensures !SameName("max-age", "includeSubDomains")
  {
    assert |Lower("max-age")| == 7 && |Lower("includeSubDomains")| == 17;
  }

  lemma NotBoth(name: string)
    requires SameName(name, "max-age")
    ensures !SameName(name, "includeSubDomains")
  {
    NamesDiffer();
  }

  // ----- Hosts ------------------------------------------------------------------------------

  /** The host without the dots of the root label at its end. */
  function NormalizeHost(host: string): (r: string)
    ensures r <= host && (r != "" ==> r[|r| - 1] != '.')
    ensures forall i | |r| <= i < |host| :: host[i] == '.'
  {
    if host != "" && host[|host| - 1] == '.' then NormalizeHost(host[..|host| - 1]) else host
  }

  type Policies = map<string, HstsEntry>

  predicate Live(policies: Policies, host: string, now: int) {
    host in policies && !policies[host].IsExpired(now)
  }

  /** `host[i..]` is a superdomain of `host` with at least two labels. */
  predicate IsSuperdomainAt(host: string, i: nat) {
    0 < i <= |host| && host[i - 1] == '.' && '.' in host[i..]
  }

  /** The superdomain `host[i..]` has a policy in force that reaches its subdomains. */
  predicate InheritsAt(policies: Policies, host: string, i: nat, now: int) {
    i <= |host| && IsSuperdomainAt(host, i) && Live(policies, host[i..], now) && policies[host[i..]].includeSubdomains
  }

  /** A Known HSTS Host (section 8.2 of RFC 6797): the host has a policy of its own, or some
      superdomain has one that includes subdomains. */
  predicate KnownHost(policies: Policies, host: string, now: int) {
    var h := NormalizeHost(host);
    Live(policies, h, now) || exists i | 0 <= i <= |h| :: InheritsAt(policies, h, i, now)
  }

  /** `is_known_host`: from the host up through its superdomains. */
  method IsKnownHost(policies: Policies, host: string, now: int) returns (known: bool)
    ensures known <==> KnownHost(policies, host, now)
  {
    hide NormalizeHost, Find, InheritsAt, IsSuperdomainAt;
    var h := NormalizeHost(host);
    var candidate := h;
    var isExact := true;
    ghost var at := 0;
    NotBelowItself(policies, h, now);
    while true
      invariant 0 <= at <= |h| && candidate == h[at..] && (isExact <==> at == 0)
      invariant !isExact ==> IsSuperdomainAt(h, at) && !Live(policies, h, now)
      invariant forall i | 0 <= i <= at && (i == 0 || i < at) :: !InheritsAt(policies, h, i, now)
      decreases |candidate|
    {
      CandidateAnswers(policies, h, at, now);
      if candidate in policies {
        var entry := policies[candidate];
        if !entry.IsExpired(now) && (isExact || entry.includeSubdomains) {
          return true;
        }
      }
      var dot := Find(candidate, '.');
      NoneBetween(policies, h, at, dot, now);
      if dot < |candidate| && '.' in candidate[dot + 1..] {
        NextIsSuperdomain(h, at, dot);
        candidate := candidate[dot + 1..];
        at := at + dot + 1;
        isExact := false;
      } else {
        NoneLeft(policies, h, at, dot, now);
        return false;
      }
    }
  }

  /** Past a dot with another after it begins the next candidate. */
  lemma NextIsSuperdomain(h: string, at: nat, dot: nat)
    requires at <= |h| && dot < |h| - at && h[at..][dot] == '.' && '.' in h[at..][dot + 1..]
    ensures IsSuperdomainAt(h, at + dot + 1) && h[at..][dot + 1..] == h[at + dot + 1..]
  {
  }

  lemma NotBelowItself(policies: Policies, h: string, now: int)
    ensures !InheritsAt(policies, h, 0, now)
  {
  }

  lemma CandidateAnswers(policies: Policies, h: string, at: nat, now: int)
    requires at <= |h| && (at > 0 ==> IsSuperdomainAt(h, at))
    ensures at > 0 ==> (InheritsAt(policies, h, at, now)
                        <==> Live(policies, h[at..], now) && policies[h[at..]].includeSubdomains)
    ensures at == 0 ==> h[at..] == h
  {
  }

  /** Between one candidate and the next there is no label boundary. */
  lemma NoneBetween(policies: Policies, h: string, at: nat, dot: nat, now: int)
    requires at <= |h| && dot <= |h| - at && '.' !in h[at..][..dot]
    ensures forall i | at < i <= at + dot :: !InheritsAt(policies, h, i, now)
  {
    forall i | at < i <= at + dot
      ensures !InheritsAt(policies, h, i, now)
    {
      assert h[at..][..dot][i - 1 - at] == h[i - 1];
    }
  }

  lemma NoneLeft(policies: Policies, h: string, at: nat, dot: nat, now: int)
    requires at <= |h| && dot <= |h| - at && '.' !in h[at..][..dot]
    requires dot < |h| - at ==> '.' !in h[at..][dot + 1..]
    ensures forall i | at < i <= |h| :: !InheritsAt(policies, h, i, now)
  {
    NoneBetween(policies, h, at, dot, now);
    forall i | at + dot < i <= |h|
      ensures !InheritsAt(policies, h, i, now)
    {
      assert forall j | i <= j < |h| :: h[j] == h[at..][dot + 1..][j - at - dot - 1];
    }
  }

  // ----- Storing policies -------------------------------------------------------------------

  function Unexpired(entries: Policies, now: int): Policies {
    map h | h in entries && entries[h].expiresAt > now :: entries[h]
  }

  /** What storing leaves: below the limit, or for a host already there, everything; at the limit
      the expired policies go, and only if that makes no room one more, which expires soonest. */
  predicate StoredInto(before: Policies, host: string, entry: HstsEntry, now: int, after: Policies) {
    if |before| < MAX_HSTS_ENTRIES || host in before then after == before[host := entry]
    else if |Unexpired(before, now)| < MAX_HSTS_ENTRIES then after == Unexpired(before, now)[host := entry]
    else
      exists victim | victim in before ::
        && (forall h | h in before :: before[victim].expiresAt <= before[h].expiresAt)
        && after == (before - {victim})[host := entry]
  }

  /** A policy is lost only to a new host when the store is full: either it has expired and so have all
      that are lost with it, or none has, and it alone is lost and expires no later than any other. */
  predicate MayBeDropped(before: Policies, host: string, lost: string, now: int, after: Policies)
    requires lost in before
  {
    && |before| == MAX_HSTS_ENTRIES && host !in before
    && (before[lost].expiresAt > now ==>
          && (forall h | h in before :: h == lost || h in after)
          && (forall h | h in before :: now < before[h].expiresAt && before[lost].expiresAt <= before[h].expiresAt))
  }

  /** A new host at the limit leaves none of the expired policies. */
  predicate SweepsIfFull(before: Policies, host: string, now: int, after: Policies) {
    |before| == MAX_HSTS_ENTRIES && host !in before ==> forall h | h in before && h in after :: now < before[h].expiresAt
  }

  lemma StoringDropsOnlyWhatItMay(before: Policies, host: string, entry: HstsEntry, now: int, after: Policies)
    requires |before| <= MAX_HSTS_ENTRIES && StoredInto(before, host, entry, now, after)
    ensures forall h | h in after && h != host :: h in before && after[h] == before[h]
    ensures forall h | h in before && h !in after :: MayBeDropped(before, host, h, now, after)
  {
    UnexpiredSize(before, now);
    if |before| < MAX_HSTS_ENTRIES || host in before {
    } else if |Unexpired(before, now)| < MAX_HSTS_ENTRIES {
    } else {
      assert Unexpired(before, now) == before;
      var victim :| victim in before
                    && (forall h | h in before :: before[victim].expiresAt <= before[h].expiresAt)
                    && after == (before - {victim})[host := entry];
      assert forall h | h in before :: h in Unexpired(before, now);
    }
  }

  lemma FullStoreSweeps(before: Policies, host: string, entry: HstsEntry, now: int, after: Policies)
    requires |before| <= MAX_HSTS_ENTRIES && StoredInto(before, host, entry, now, after)
    ensures SweepsIfFull(before, host, now, after)
  {
    UnexpiredSize(before, now);
    assert forall h | h in Unexpired(before, now) :: now < before[h].expiresAt;
  }

  class InMemoryHstsStore {
    var entries: Policies

    predicate Valid()
      reads this
    {
      |entries| <= MAX_HSTS_ENTRIES
    }

    constructor ()
      ensures Valid() && entries == map[]
    {
      entries := map[];
    }

    method Load(host: string) returns (r: Option<HstsEntry>)
      ensures r == if host in entries then Some(entries[host]) else None
    {
      r := if host in entries then Some(entries[host]) else None;
    }

    method Store(host: string, entry: HstsEntry, now: int)
      requires Valid()
      modifies this
      ensures Valid() && host in entries && entries[host] == entry
      ensures StoredInto(old(entries), host, entry, now, entries)
      ensures forall h | h in entries && h != host :: h in old(entries) && entries[h] == old(entries)[h]
      ensures SweepsIfFull(old(entries), host, now, entries)
      ensures forall h | h in old(entries) && h !in entries :: MayBeDropped(old(entries), host, h, now, entries)
    {
      ghost var before := entries;
      if |entries| >= MAX_HSTS_ENTRIES && host !in entries {
        UnexpiredSize(entries, now);
        entries := Unexpired(entries, now);
        if |entries| >= MAX_HSTS_ENTRIES {
          SoonestExists(entries);
          var soonest :| soonest in entries && forall h | h in entries :: entries[soonest].expiresAt <= entries[h].expiresAt;
          RemovedSize(entries, soonest);
          entries := entries - {soonest};
        }
      }
      InsertedSize(entries, host, entry);
      entries := entries[host := entry];
      StoringDropsOnlyWhatItMay(before, host, entry, now, entries);
      FullStoreSweeps(before, host, entry, now, entries);
    }

    method Remove(host: string)
      requires Valid()
      modifies this
      ensures Valid() && entries == old(entries) - {host}
    {
      if host in entries {
        RemovedSize(entries, host);
      } else {
        assert entries - {host} == entries;
      }
      entries := entries - {host};
    }
  }

  lemma UnexpiredSize(entries: Policies, now: int)
    ensures |Unexpired(entries, now)| <= |entries|
    ensures |Unexpired(entries, now)| == |entries| ==> Unexpired(entries, now) == entries
  {
    var live := Unexpired(entries, now);
    assert live.Keys <= entries.Keys;
    SubsetSize(live.Keys, entries.Keys);
  }

  lemma SoonestExists(entries: Policies)
    requires |entries| > 0
    ensures exists s | s in entries :: forall h | h in entries :: entries[s].expiresAt <= entries[h].expiresAt
  {
    var expiries := map h | h in entries :: entries[h].expiresAt;
    assert expiries.Keys == entries.Keys;
    LeastExists(expiries);
    var s :| s in expiries && forall h | h in expiries :: expiries[s] <= expiries[h];
    assert forall h | h in entries :: h in expiries;
  }

  // ----- Recording a policy -----------------------------------------------------------------

  /** A URL: its scheme and, unless the host is an IP literal, its domain. */
  datatype Url = Url(scheme: string, domain: Option<string>)

  /** What the first header field of a response over HTTPS does to the policies. */
  datatype Effect = Keep | Disarm(host: string) | Arm(host: string, entry: HstsEntry)

  /** The hop at `url` advertises a policy: it came over HTTPS from a domain, and the first such
      header field states it (section 8.1 of RFC 6797). */
  predicate Advertises(url: Url, h: HeaderMap, sts: StsDirectives) {
    && url.scheme == "https" && url.domain.Some?
    && GetText(h, "strict-transport-security").Some?
    && States(GetText(h, "strict-transport-security").value, sts)
  }

  /** A `max-age` of zero disarms the host; any other arms it, for a century at most. */
  function EffectOf(host: string, sts: StsDirectives, now: int): (effect: Effect)
    ensures effect.Arm? ==> now < effect.entry.expiresAt <= now + MAX_AGE_CAP_SECS * SECOND
  {
    if sts.maxAge == 0 then Disarm(host)
    else
      var secs := if sts.maxAge > MAX_AGE_CAP_SECS then MAX_AGE_CAP_SECS else sts.maxAge;
      Arm(host, HstsEntry(now + secs * SECOND, sts.includeSubdomains))
  }

  ghost predicate IsEffect(url: Url, h: HeaderMap, now: int, effect: Effect) {
    if effect == Keep then forall sts :: !Advertises(url, h, sts)
    else exists sts :: Advertises(url, h, sts) && effect == EffectOf(NormalizeHost(url.domain.value), sts, now)
  }

  /** What the effect leaves of the policies. */
  predicate Leaves(before: Policies, effect: Effect, storedAt: int, after: Policies) {
    match effect
    case Keep => after == before
    case Disarm(host) => after == before - {host}
    case Arm(host, entry) => StoredInto(before, host, entry, storedAt, after)
  }

  /** `record`: keeps, removes or stores the policy of the host, as the response advertises. The store
      reads the time itself, at `storedAt`. */
  method Record(store: InMemoryHstsStore, url: Url, h: HeaderMap, now: int, storedAt: int)
    returns (ghost effect: Effect)
    requires store.Valid()
    modifies store
    ensures store.Valid() && IsEffect(url, h, now, effect)
    ensures Leaves(old(store.entries), effect, storedAt, store.entries)
    ensures forall sts | Advertises(url, h, sts) ::
              var host := NormalizeHost(url.domain.value);
              && (sts.maxAge == 0 ==> host !in store.entries)
              && (0 < sts.maxAge <= MAX_AGE_CAP_SECS ==>
                    && host in store.entries
                    && store.entries[host] == HstsEntry(now + sts.maxAge * SECOND, sts.includeSubdomains))
              && (sts.maxAge > MAX_AGE_CAP_SECS ==>
                    && host in store.entries
                    && store.entries[host] == HstsEntry(now + MAX_AGE_CAP_SECS * SECOND, sts.includeSubdomains))
    ensures (forall sts :: !Advertises(url, h, sts)) ==> store.entries == old(store.entries)
  {
    hide P.Parse, Conforms, Says, MaxAgeIs, NormalizeHost, GetText, StoredInto;
    effect := Keep;
    if url.scheme != "https" || url.domain.None? {
      return;
    }
    var host := NormalizeHost(url.domain.value);
    var raw := GetText(h, "strict-transport-security");
    if raw.None? {
      return;
    }
    var sts := ParseSts(raw.value);
    if sts.None? {
      return;
    }
    assert Advertises(url, h, sts.value);
    forall other | Advertises(url, h, other)
      ensures other == sts.value
    {
      StatedOnce(raw.value, other, sts.value);
    }
    effect := EffectOf(host, sts.value, now);
    if sts.value.maxAge == 0 {
      store.Remove(host);
      return;
    }
    var secs := if sts.value.maxAge > MAX_AGE_CAP_SECS then MAX_AGE_CAP_SECS else sts.value.maxAge;
    store.Store(host, HstsEntry(now + secs * SECOND, sts.value.includeSubdomains), storedAt);
  }

  /** Only one effect is right. */
  lemma EffectIsDetermined(url: Url, h: HeaderMap, now: int, a: Effect, b: Effect)
    requires IsEffect(url, h, now, a) && IsEffect(url, h, now, b)
    ensures a == b
  {
    hide States, NormalizeHost, GetText;
    if a != Keep && b != Keep {
      var s :| Advertises(url, h, s) && a == EffectOf(NormalizeHost(url.domain.value), s, now);
      var t :| Advertises(url, h, t) && b == EffectOf(NormalizeHost(url.domain.value), t, now);
      StatedOnce(GetText(h, "strict-transport-security").value, s, t);
    }
  }

  /** A policy just stored upgrades its host, and with `includeSubDomains` every host under it, until
      it expires; the host itself whatever the number of labels, its subdomains if it has two. */
  lemma StoredPolicyReachesSubdomains(
    before: Policies, host: string, entry: HstsEntry, now: int, after: Policies, labels: string, later: int)
    requires StoredInto(before, host, entry, now, after) && NormalizeHost(host) == host
    requires later < entry.expiresAt
    ensures KnownHost(after, host, later)
    ensures entry.includeSubdomains && '.' in host && host[|host| - 1] != '.' ==>
              KnownHost(after, labels + "." + host, later)
  {
    assert Live(after, host, later);
    if entry.includeSubdomains && '.' in host && host[|host| - 1] != '.' {
      var sub, i := labels + "." + host, |labels| + 1;
      assert NormalizeHost(sub) == sub;
      assert sub[i..] == host && sub[i - 1] == '.';
      assert InheritsAt(after, sub, i, later);
    }
  }

  /** What an advertised policy means, with no other held: its host is known until exactly its `max-age`
      has passed, a century at most, and a subdomain of it just as long if the host has two labels and
      `includeSubDomains` was said, and otherwise never. */
  lemma AdvertisedPolicyIsKnownUntilItsMaxAge(
    url: Url, h: HeaderMap, sts: StsDirectives, now: int, storedAt: int, effect: Effect, after: Policies,
    labels: string, later: int)
    requires Advertises(url, h, sts) && IsEffect(url, h, now, effect) && Leaves(map[], effect, storedAt, after)
    requires url.domain.Some? && NormalizeHost(url.domain.value) != ""
    ensures var host := NormalizeHost(url.domain.value);
            var inForce := sts.maxAge > 0 && later < now + Min(sts.maxAge, MAX_AGE_CAP_SECS) * SECOND;
            && (KnownHost(after, host, later) <==> inForce)
            && (KnownHost(after, labels + "." + host, later) <==> inForce && sts.includeSubdomains && '.' in host)
  {
    hide Advertises, IsEffect, Leaves, KnownHost, NormalizeHost;
    var host := NormalizeHost(url.domain.value);
    LeavesOnePolicy(url, h, sts, now, storedAt, effect, after);
    KnownFromOne(after, host, "", later);
    KnownFromOne(after, host, labels + ".", later);
    assert "" + host == host;
  }

  lemma LeavesOnePolicy(
    url: Url, h: HeaderMap, sts: StsDirectives, now: int, storedAt: int, effect: Effect, after: Policies)
    requires Advertises(url, h, sts) && IsEffect(url, h, now, effect) && Leaves(map[], effect, storedAt, after)
    ensures url.domain.Some?
    ensures var expiry := now + Min(sts.maxAge, MAX_AGE_CAP_SECS) * SECOND;
            after == if sts.maxAge == 0 then map[]
                     else map[NormalizeHost(url.domain.value) := HstsEntry(expiry, sts.includeSubdomains)]
  {
    hide StoredInto, GetText, States, NormalizeHost;
    var t :| Advertises(url, h, t) && effect == EffectOf(NormalizeHost(url.domain.value), t, now);
    OnlyOneAdvertised(url, h, sts, t);
    if sts.maxAge > 0 {
      StoredIntoNone(effect.host, effect.entry, storedAt, after);
    }
  }

  lemma OnlyOneAdvertised(url: Url, h: HeaderMap, a: StsDirectives, b: StsDirectives)
    requires Advertises(url, h, a) && Advertises(url, h, b)
    ensures a == b
  {
    hide States;
    StatedOnce(GetText(h, "strict-transport-security").value, a, b);
  }

  lemma StoredIntoNone(host: string, entry: HstsEntry, now: int, after: Policies)
    requires StoredInto(map[], host, entry, now, after)
    ensures after == map[host := entry]
  {
    var none: Policies := map[];
    assert |none| == 0;
  }

  /** Among the policies of one host at most, what is known under it. */
  lemma KnownFromOne(policies: Policies, host: string, under: string, now: int)
    requires policies.Keys <= {host} && host != "" && host[|host| - 1] != '.'
    requires under == "" || under[|under| - 1] == '.'
    ensures KnownHost(policies, under + host, now)
            <==> Live(policies, host, now) && (under == "" || (policies[host].includeSubdomains && '.' in host))
  {
    hide NormalizeHost, InheritsAt;
    var sub := under + host;
    NothingToNormalize(sub);
    assert sub[|under|..] == host;
    forall i | 0 <= i <= |sub|
      ensures InheritsAt(policies, sub, i, now)
              <==> i == |under| != 0 && Live(policies, host, now) && policies[host].includeSubdomains && '.' in host
    {
      InheritsOnlyAtItsHost(policies, host, under, i, now);
    }
    if under == "" {
      assert sub == host;
    } else {
      assert |sub| != |host| && sub !in policies;
      assert InheritsAt(policies, sub, |under|, now)
             <==> Live(policies, host, now) && policies[host].includeSubdomains && '.' in host;
    }
  }

  lemma NothingToNormalize(host: string)
    requires host != "" && host[|host| - 1] != '.'
    ensures NormalizeHost(host) == host
  {
  }

  lemma InheritsOnlyAtItsHost(policies: Policies, host: string, under: string, i: nat, now: int)
    requires policies.Keys <= {host} && i <= |under + host|
    requires under == "" || under[|under| - 1] == '.'
    ensures InheritsAt(policies, under + host, i, now)
            <==> i == |under| != 0 && Live(policies, host, now) && policies[host].includeSubdomains && '.' in host
  {
    var sub := under + host;
    assert sub[|under|..] == host;
    assert |sub[i..]| == |sub| - i;
    if i == |under| != 0 {
      assert sub[i - 1] == '.';
    }
  }

  /** A nearer policy never hides a superdomain's: adding a policy for another host makes no known
      host unknown. */
  lemma NoPolicyShadowsAnother(policies: Policies, host: string, now: int, other: string, entry: HstsEntry)
    requires other !in policies && KnownHost(policies, host, now)
    ensures KnownHost(policies[other := entry], host, now)
  {
    hide NormalizeHost;
    var h, more := NormalizeHost(host), policies[other := entry];
    if !Live(policies, h, now) {
      var i :| 0 <= i <= |h| && InheritsAt(policies, h, i, now);
      assert InheritsAt(more, h, i, now);
    }
  }
}
