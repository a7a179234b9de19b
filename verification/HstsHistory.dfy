/** The policies after any history of responses: bounded, and each one stated by a response. */
module HstsHistories {
  import opened Collections
  import opened Headers
  import opened Hsts
  import opened Text

  /** A response seen, the time it was seen at and the time the store read. */
  datatype Hop = Hop(url: Url, headers: HeaderMap, now: int, storedAt: int)

  ghost predicate Does(hop: Hop, effect: Effect) {
    IsEffect(hop.url, hop.headers, hop.now, effect)
  }

  ghost predicate Recorded(before: Policies, hop: Hop, after: Policies) {
    exists effect :: Does(hop, effect) && Leaves(before, effect, hop.storedAt, after)
  }

  /** The policies before the first response, between any two, and after the last. */
  ghost predicate IsHistory(hops: seq<Hop>, states: seq<Policies>) {
    && |states| == |hops| + 1 && states[0] == map[]
    && forall i | 0 <= i < |hops| :: Recorded(states[i], hops[i], states[i + 1])
  }

  // ----- Bounds -----------------------------------------------------------------------------

  lemma StoredIntoIsBounded(before: Policies, host: string, entry: HstsEntry, now: int, after: Policies)
    requires |before| <= MAX_HSTS_ENTRIES && StoredInto(before, host, entry, now, after)
    ensures |after| <= MAX_HSTS_ENTRIES
  {
    InsertedSize(before, host, entry);
    if !(|before| < MAX_HSTS_ENTRIES || host in before) {
      if |Unexpired(before, now)| < MAX_HSTS_ENTRIES {
        InsertedSize(Unexpired(before, now), host, entry);
      } else {
        var victim :| victim in before
                      && (forall h | h in before :: before[victim].expiresAt <= before[h].expiresAt)
                      && after == (before - {victim})[host := entry];
        RemovedSize(before, victim);
        InsertedSize(before - {victim}, host, entry);
      }
    }
  }

  lemma RecordedIsBounded(before: Policies, hop: Hop, after: Policies)
    requires |before| <= MAX_HSTS_ENTRIES && Recorded(before, hop, after)
    ensures |after| <= MAX_HSTS_ENTRIES
  {
    hide Does, StoredInto;
    var effect :| Does(hop, effect) && Leaves(before, effect, hop.storedAt, after);
    match effect {
      case Keep =>
      case Disarm(host) => RemovedSize(before, host);
      case Arm(host, entry) => StoredIntoIsBounded(before, host, entry, hop.storedAt, after);
    }
  }

  /** After any history there are at most 4096 policies. */
  lemma {:induction false} HistoriesAreBounded(hops: seq<Hop>, states: seq<Policies>, n: nat)
    requires IsHistory(hops, states) && n <= |hops|
    ensures |states[n]| <= MAX_HSTS_ENTRIES
  {
    hide Recorded;
    if n > 0 {
      HistoriesAreBounded(hops, states, n - 1);
      RecordedIsBounded(states[n - 1], hops[n - 1], states[n]);
    }
  }

  // ----- Where a policy comes from ----------------------------------------------------------

  /** The response states a policy for the host, or disarms it. */
  ghost predicate Concerns(hop: Hop, host: string) {
    exists sts :: Advertises(hop.url, hop.headers, sts) && NormalizeHost(hop.url.domain.value) == host
  }

  /** The response stated this policy for the host: it said `includeSubDomains` or not, and a `max-age`
      that counts for a century at most. */
  ghost predicate PolicyStated(hop: Hop, host: string, entry: HstsEntry) {
    exists sts ::
      && Advertises(hop.url, hop.headers, sts) && NormalizeHost(hop.url.domain.value) == host
      && sts.maxAge > 0 && entry.includeSubdomains == sts.includeSubdomains
      && entry.expiresAt == hop.now + Min(sts.maxAge, MAX_AGE_CAP_SECS) * SECOND
  }

  /** Response `i` stated this policy for the host, and no response up to the `n`th concerned it since. */
  ghost predicate StatedLast(hops: seq<Hop>, n: nat, i: nat, host: string, entry: HstsEntry)
    requires n <= |hops|
  {
    i < n && PolicyStated(hops[i], host, entry) && forall j | i < j < n :: !Concerns(hops[j], host)
  }

  lemma EffectConcerns(hop: Hop, effect: Effect, host: string)
    requires Does(hop, effect)
    ensures Concerns(hop, host) <==> effect != Keep && effect.host == host
    ensures forall entry :: effect == Arm(host, entry) ==> PolicyStated(hop, host, entry)
  {
    hide Advertises, NormalizeHost;
  }

  lemma StoredIntoHolds(before: Policies, host: string, entry: HstsEntry, now: int, after: Policies, held: string)
    requires StoredInto(before, host, entry, now, after) && held in after
    ensures if held == host then after[held] == entry else held in before && after[held] == before[held]
  {
  }

  /** A policy held after a response was stated by it, or held before and not its concern. */
  lemma HeldAfterRecording(before: Policies, hop: Hop, after: Policies, host: string)
    requires Recorded(before, hop, after) && host in after
    ensures PolicyStated(hop, host, after[host])
            || (host in before && after[host] == before[host] && !Concerns(hop, host))
  {
    hide Does, StoredInto, Concerns, PolicyStated;
    var effect :| Does(hop, effect) && Leaves(before, effect, hop.storedAt, after);
    EffectConcerns(hop, effect, host);
    if effect.Arm? {
      StoredIntoHolds(before, effect.host, effect.entry, hop.storedAt, after, host);
    }
  }

  /** After any history every policy held is the one that the last response to concern its host stated. */
  lemma {:induction false} PolicyWasStatedLast(hops: seq<Hop>, states: seq<Policies>, n: nat, host: string)
    requires IsHistory(hops, states) && n <= |hops| && host in states[n]
    ensures exists i :: StatedLast(hops, n, i, host, states[n][host])
  {
    hide Recorded, PolicyStated, Concerns;
    assert host !in states[0];
    assert n > 0;
    HeldAfterRecording(states[n - 1], hops[n - 1], states[n], host);
    if PolicyStated(hops[n - 1], host, states[n][host]) {
      assert StatedLast(hops, n, n - 1, host, states[n][host]);
    } else {
      PolicyWasStatedLast(hops, states, n - 1, host);
      var i :| StatedLast(hops, n - 1, i, host, states[n - 1][host]);
      assert StatedLast(hops, n, i, host, states[n][host]);
    }
  }

  /** Response `i` stated last, for the host or a superdomain of it, a policy in force that reaches it. */
  ghost predicate ReachedBy(hops: seq<Hop>, n: nat, i: nat, host: string, at: nat, entry: HstsEntry, now: int)
    requires n <= |hops|
  {
    && at <= |host| && StatedLast(hops, n, i, host[at..], entry) && !entry.IsExpired(now)
    && (at == 0 || (IsSuperdomainAt(host, at) && entry.includeSubdomains))
  }

  /** So after any history a host must be reached over HTTPS only because the last response to concern it,
      or a superdomain of two labels or more, stated a policy there that has not expired, and in the
      second case said `includeSubDomains`. */
  lemma KnownHostWasStated(hops: seq<Hop>, states: seq<Policies>, n: nat, host: string, now: int)
    requires IsHistory(hops, states) && n <= |hops| && KnownHost(states[n], host, now)
    ensures exists i, at, entry :: ReachedBy(hops, n, i, NormalizeHost(host), at, entry, now)
  {
    hide Recorded, StatedLast, NormalizeHost;
    var h, policies := NormalizeHost(host), states[n];
    var at: nat := 0;
    if !Live(policies, h, now) {
      at :| at <= |h| && InheritsAt(policies, h, at, now);
    } else {
      assert h[0..] == h;
    }
    PolicyWasStatedLast(hops, states, n, h[at..]);
    var i :| StatedLast(hops, n, i, h[at..], policies[h[at..]]);
    assert ReachedBy(hops, n, i, h, at, policies[h[at..]], now);
  }
}
