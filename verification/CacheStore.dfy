/** `InMemoryHttpCache`: two linked indexes, by key and by clock, a byte count and an evicting loop.
    Every method is proved to do to `View()` what `CacheContents` says the operation does. */
module CacheStore {
  import opened CacheEntries
  import opened CacheContents

  const DEFAULT_MAX_BYTES := 16 * 1024 * 1024
  const DEFAULT_MAX_ENTRY_BYTES := 2 * 1024 * 1024

  /** A variant in the store, with the bytes counted for it. */
  datatype Stored = Stored(entry: CacheEntry, charged: nat)

  /** The variants under one key, and when the key was last used. */
  datatype Keyed = Keyed(variants: seq<Stored>, lastUsed: nat)

  function Entries(variants: seq<Stored>): seq<CacheEntry> {
    seq(|variants|, i requires 0 <= i < |variants| => variants[i].entry)
  }

  function ChargedSum(variants: seq<Stored>): nat {
    if variants == [] then 0 else variants[0].charged + ChargedSum(variants[1..])
  }

  predicate RightlyCharged(key: CacheKey, variants: seq<Stored>) {
    forall i | 0 <= i < |variants| :: variants[i].charged == Charge(key, variants[i].entry)
  }

  function SaturatingSub(a: nat, b: nat): nat {
    if a >= b then a - b else 0
  }

  function Table(keys: map<CacheKey, Keyed>): map<CacheKey, seq<CacheEntry>> {
    map k | k in keys :: Entries(keys[k].variants)
  }

  /** The clock index and the key index name each other, and no clock is past the present one. */
  ghost predicate Indexed(keys: map<CacheKey, Keyed>, lru: map<nat, CacheKey>, clock: nat) {
    && (forall k | k in keys :: keys[k].lastUsed <= clock && keys[k].lastUsed in lru && lru[keys[k].lastUsed] == k)
    && (forall c | c in lru :: lru[c] in keys && keys[lru[c]].lastUsed == c)
  }

  /** `recency` lists the keys by clock. */
  ghost predicate Ordered(keys: map<CacheKey, Keyed>, recency: seq<CacheKey>) {
    && (forall k :: k in keys <==> k in recency)
    && (forall i, j | 0 <= i < j < |recency| :: keys[recency[i]].lastUsed < keys[recency[j]].lastUsed)
  }

  /** Every variant is charged what it costs, no two select alike, and `bytes` is the sum. */
  ghost predicate Accounted(keys: map<CacheKey, Keyed>, bytes: nat, recency: seq<CacheKey>) {
    && (forall k | k in keys :: RightlyCharged(k, keys[k].variants))
    && (forall k | k in keys :: DistinctVariants(Entries(keys[k].variants)))
    && bytes == Total(Table(keys), recency)
  }

  lemma OrderedIsDistinct(keys: map<CacheKey, Keyed>, recency: seq<CacheKey>)
    requires Ordered(keys, recency)
    ensures Distinct(recency)
  {
  }

  lemma OrderedAndAccountedIsWellFormed(keys: map<CacheKey, Keyed>, bytes: nat, recency: seq<CacheKey>)
    requires Ordered(keys, recency) && Accounted(keys, bytes, recency)
    ensures WellFormed(Contents(Table(keys), recency))
    ensures HeldBytes(Contents(Table(keys), recency)) == bytes
  {
    OrderedIsDistinct(keys, recency);
  }

  lemma {:induction false} ChargedSumIsVariantBytes(key: CacheKey, variants: seq<Stored>)
    requires RightlyCharged(key, variants)
    ensures ChargedSum(variants) == VariantBytes(key, Entries(variants))
  {
    if variants != [] {
      assert Entries(variants)[1..] == Entries(variants[1..]);
      ChargedSumIsVariantBytes(key, variants[1..]);
    }
  }

  // ----- Changing the indexes ---------------------------------------------------------------

  lemma WithoutAt(keys: seq<CacheKey>, k: CacheKey, i: nat)
    requires k in keys && i < |Without(keys, k)|
    ensures |Without(keys, k)| == |keys| - 1
    ensures Without(keys, k)[i] == keys[if i < IndexOf(keys, k) then i else i + 1]
  {
  }

  lemma OrderedListsKeys(keys: map<CacheKey, Keyed>, recency: seq<CacheKey>)
    requires Ordered(keys, recency)
    ensures forall k :: k in keys <==> k in recency
  {
  }

  lemma IndexedTicks(keys: map<CacheKey, Keyed>, lru: map<nat, CacheKey>, clock: nat)
    requires Indexed(keys, lru, clock)
    ensures Indexed(keys, lru, clock + 1)
    ensures forall k | k in keys :: keys[k].lastUsed < clock + 1
  {
  }

  /** While anything is counted there is a key to evict. */
  lemma BytesNeedKeys(keys: map<CacheKey, Keyed>, lru: map<nat, CacheKey>, clock: nat, bytes: nat, recency: seq<CacheKey>)
    requires Indexed(keys, lru, clock) && Ordered(keys, recency) && Accounted(keys, bytes, recency) && bytes > 0
    ensures recency != [] && lru != map[]
  {
    assert recency[0] in keys;
    assert keys[recency[0]].lastUsed in lru;
  }

  lemma WithoutFirst(keys: seq<CacheKey>)
    requires keys != []
    ensures Without(keys, keys[0]) == keys[1..]
  {
    assert IndexOf(keys, keys[0]) == 0;
  }

  lemma TableWithout(keys: map<CacheKey, Keyed>, k: CacheKey)
    ensures Table(keys - {k}) == Table(keys) - {k}
  {
  }

  lemma FittedStep(c: Contents, maxBytes: nat)
    requires HeldBytes(c) > maxBytes && c.recency != []
    ensures Fitted(c, maxBytes) == Fitted(WithoutOldest(c), maxBytes)
  {
  }

  lemma FittedAlready(c: Contents, maxBytes: nat)
    requires HeldBytes(c) <= maxBytes
    ensures Fitted(c, maxBytes) == c
  {
  }

  lemma OrderedWithout(keys: map<CacheKey, Keyed>, recency: seq<CacheKey>, k: CacheKey)
    requires Ordered(keys, recency)
    ensures Ordered(keys - {k}, Without(recency, k))
  {
    hide Without, IndexOf;
    OrderedIsDistinct(keys, recency);
    WithoutIsDistinct(recency, k);
    var left := Without(recency, k);
    forall i, j | 0 <= i < j < |left|
      ensures (keys - {k})[left[i]].lastUsed < (keys - {k})[left[j]].lastUsed
    {
      assert left[i] in recency && left[i] != k && left[j] in recency && left[j] != k;
      if k in recency {
        WithoutAt(recency, k, i);
        WithoutAt(recency, k, j);
      } else {
        WithoutAbsent(recency, k);
      }
    }
  }

  lemma WithoutAbsent(keys: seq<CacheKey>, k: CacheKey)
    requires k !in keys
    ensures Without(keys, k) == keys
  {
  }

  lemma OrderedUsed(keys: map<CacheKey, Keyed>, recency: seq<CacheKey>, k: CacheKey, keyed: Keyed)
    requires Ordered(keys, recency)
    requires forall x | x in keys :: keys[x].lastUsed < keyed.lastUsed
    ensures Ordered(keys[k := keyed], Used(recency, k))
  {
    OrderedWithout(keys, recency, k);
    var left, used, more := Without(recency, k), Used(recency, k), keys[k := keyed];
    forall x
      ensures x in more <==> x in used
    {
      assert x in keys - {k} <==> x in left;
    }
    forall i, j | 0 <= i < j < |used|
      ensures more[used[i]].lastUsed < more[used[j]].lastUsed
    {
      assert left[i] in keys - {k};
      if j < |left| {
        assert left[j] in keys - {k};
      }
    }
  }

  lemma IndexedUsed(keys: map<CacheKey, Keyed>, lru: map<nat, CacheKey>, clock: nat, k: CacheKey, keyed: Keyed)
    requires Indexed(keys, lru, clock) && clock < keyed.lastUsed
    ensures var cut := if k in keys then lru - {keys[k].lastUsed} else lru;
            Indexed(keys[k := keyed], cut[keyed.lastUsed := k], keyed.lastUsed)
  {
  }

  /** Other variants under a key, used when it was, leave the indexes linked. */
  lemma LinkedRevalued(
    keys: map<CacheKey, Keyed>, lru: map<nat, CacheKey>, clock: nat, recency: seq<CacheKey>, k: CacheKey, next: Keyed)
    requires Indexed(keys, lru, clock) && Ordered(keys, recency) && k in keys && next.lastUsed == keys[k].lastUsed
    ensures Indexed(keys[k := next], lru, clock) && Ordered(keys[k := next], recency)
  {
    var revalued := keys[k := next];
    assert forall x | x in keys :: x in revalued && revalued[x].lastUsed == keys[x].lastUsed;
  }

  lemma IndexedWithout(keys: map<CacheKey, Keyed>, lru: map<nat, CacheKey>, clock: nat, k: CacheKey)
    requires Indexed(keys, lru, clock) && k in keys
    ensures Indexed(keys - {k}, lru - {keys[k].lastUsed}, clock)
  {
  }

  lemma AccountedWithout(keys: map<CacheKey, Keyed>, bytes: nat, recency: seq<CacheKey>, k: CacheKey)
    requires Ordered(keys, recency) && Accounted(keys, bytes, recency) && k in keys
    ensures var freed := ChargedSum(keys[k].variants);
            freed <= bytes && Accounted(keys - {k}, bytes - freed, Without(recency, k))
  {
    OrderedIsDistinct(keys, recency);
    WithoutIsDistinct(recency, k);
    ChargedSumIsVariantBytes(k, keys[k].variants);
    TotalWithout(Table(keys), recency, k);
    TotalFrame(Table(keys), Table(keys - {k}), Without(recency, k));
  }

  /** A new clock for a key changes no variant and no charge. */
  lemma AccountedUsed(keys: map<CacheKey, Keyed>, bytes: nat, recency: seq<CacheKey>, k: CacheKey, clock: nat)
    requires Ordered(keys, recency) && Accounted(keys, bytes, recency) && k in keys
    ensures var reused := keys[k := keys[k].(lastUsed := clock)];
            Table(reused) == Table(keys) && Accounted(reused, bytes, Used(recency, k))
  {
    hide Ordered, Total, Used, Entries, VariantBytes;
    OrderedIsDistinct(keys, recency);
    OrderedListsKeys(keys, recency);
    TotalUsed(Table(keys), Table(keys), recency, k);
    assert Table(keys[k := keys[k].(lastUsed := clock)]) == Table(keys);
  }

  predicate Replaces(variants: seq<Stored>, stored: Stored, next: seq<Stored>, freed: nat) {
    var i := Position(Entries(variants), stored.entry);
    if i < |variants| then next == variants[i := stored] && freed == variants[i].charged
    else next == variants + [stored] && freed == 0
  }

  /** Storing a variant under a key moves its bytes by the charge less what it freed. */
  lemma AccountedStored(
    keys: map<CacheKey, Keyed>, bytes: nat, recency: seq<CacheKey>, k: CacheKey, stored: Stored, next: Keyed, freed: nat)
    requires Ordered(keys, recency) && Accounted(keys, bytes, recency)
    requires stored.charged == Charge(k, stored.entry)
    requires Replaces(if k in keys then keys[k].variants else [], stored, next.variants, freed)
    ensures freed <= bytes
    ensures Accounted(keys[k := next], bytes - freed + stored.charged, Used(recency, k))
    ensures Contents(Table(keys[k := next]), Used(recency, k))
         == Inserted(Contents(Table(keys), recency), k, stored.entry)
  {
    hide Ordered, Replaced, Position, Total, Charge;
    var before := Table(keys);
    var variants := if k in keys then keys[k].variants else [];
    assert Entries(variants) == VariantsOf(Contents(before, recency), k);
    ChargesAfter(k, variants, stored, next.variants, freed);
    TableStored(keys, k, next);
    StoredTotal(keys, recency, k, next, freed, stored.charged, bytes);
    AccountedVariants(keys, bytes, recency, k, stored.entry, next);
  }

  lemma TableStored(keys: map<CacheKey, Keyed>, k: CacheKey, next: Keyed)
    ensures Table(keys[k := next]) == Table(keys)[k := Entries(next.variants)]
  {
  }

  lemma StoredTotal(
    keys: map<CacheKey, Keyed>, recency: seq<CacheKey>, k: CacheKey, next: Keyed, freed: nat, charged: nat, bytes: nat)
    requires Ordered(keys, recency) && bytes == Total(Table(keys), recency)
    requires VariantBytes(k, Entries(next.variants)) + freed == KeyBytes(Table(keys), k) + charged
    requires freed <= KeyBytes(Table(keys), k)
    ensures freed <= bytes && Total(Table(keys[k := next]), Used(recency, k)) == bytes - freed + charged
  {
    OrderedIsDistinct(keys, recency);
    TableStored(keys, k, next);
    TotalUsed(Table(keys), Table(keys[k := next]), recency, k);
    if k in keys {
      TotalWithout(Table(keys), recency, k);
    }
  }

  lemma AccountedVariants(
    keys: map<CacheKey, Keyed>, bytes: nat, recency: seq<CacheKey>, k: CacheKey, e: CacheEntry, next: Keyed)
    requires Accounted(keys, bytes, recency) && RightlyCharged(k, next.variants)
    requires Entries(next.variants) == Replaced(if k in keys then Entries(keys[k].variants) else [], e)
    ensures DistinctVariants(Entries(next.variants))
  {
    hide Replaced;
    ReplacedVariants(if k in keys then Entries(keys[k].variants) else [], e);
  }

  /** Storing a variant changes the key's bytes by its charge less the charge of the one replaced. */
  lemma ChargesAfter(key: CacheKey, variants: seq<Stored>, stored: Stored, next: seq<Stored>, freed: nat)
    requires RightlyCharged(key, variants) && stored.charged == Charge(key, stored.entry)
    requires Replaces(variants, stored, next, freed)
    ensures Entries(next) == Replaced(Entries(variants), stored.entry) && RightlyCharged(key, next)
    ensures VariantBytes(key, Entries(next)) + freed == VariantBytes(key, Entries(variants)) + stored.charged
    ensures freed <= VariantBytes(key, Entries(variants))
  {
    var es := Entries(variants);
    var i := Position(es, stored.entry);
    if i < |variants| {
      VariantBytesUpdate(key, es, i, stored.entry);
      OneVariantBytes(key, es, i);
    } else {
      VariantBytesAppend(key, es, stored.entry);
    }
  }

  lemma {:induction false} OneVariantBytes(key: CacheKey, es: seq<CacheEntry>, i: nat)
    requires i < |es|
    ensures Charge(key, es[i]) <= VariantBytes(key, es)
  {
    if i > 0 {
      OneVariantBytes(key, es[1..], i - 1);
    }
  }

  /** The key with the lowest clock is the one used longest ago. */
  lemma LowestClockIsOldest(keys: map<CacheKey, Keyed>, lru: map<nat, CacheKey>, clock: nat, recency: seq<CacheKey>)
    requires Indexed(keys, lru, clock) && Ordered(keys, recency) && recency != []
    ensures recency[0] in keys
    ensures var c := keys[recency[0]].lastUsed;
            c in lru && lru[c] == recency[0] && forall d | d in lru :: c <= d
  {
    forall d | d in lru
      ensures keys[recency[0]].lastUsed <= d
    {
      assert lru[d] in recency;
      var i :| 0 <= i < |recency| && recency[i] == lru[d];
    }
  }

  // ----- The cache --------------------------------------------------------------------------

  class InMemoryHttpCache {
    var keys: map<CacheKey, Keyed>
    var lru: map<nat, CacheKey>
    var bytes: nat
    var clock: nat
    const maxBytes: nat
    const maxEntryBytes: nat
    ghost var recency: seq<CacheKey>

    ghost function View(): Contents
      reads this
    {
      Contents(Table(keys), recency)
    }

    function Budget(): Limits {
      Limits(maxBytes, maxEntryBytes)
    }

    /** Everything but the budget, which a put breaks until it has evicted. */
    ghost predicate Consistent()
      reads this
    {
      Indexed(keys, lru, clock) && Ordered(keys, recency) && Accounted(keys, bytes, recency)
    }

    ghost predicate Valid()
      reads this
    {
      Consistent() && bytes <= maxBytes
    }

    constructor (maxBytes: nat, maxEntryBytes: nat)
      ensures Valid() && View() == EMPTY && Budget() == Limits(maxBytes, maxEntryBytes)
    {
      this.maxBytes, this.maxEntryBytes := maxBytes, maxEntryBytes;
      keys, lru, bytes, clock := map[], map[], 0, 0;
      recency := [];
    }

    constructor WithDefaultLimits()
      ensures Valid() && View() == EMPTY && Budget() == Limits(DEFAULT_MAX_BYTES, DEFAULT_MAX_ENTRY_BYTES)
    {
      maxBytes, maxEntryBytes := DEFAULT_MAX_BYTES, DEFAULT_MAX_ENTRY_BYTES;
      keys, lru, bytes, clock := map[], map[], 0, 0;
      recency := [];
    }

    /** Mark `key` as used now. */
    method Touch(key: CacheKey)
      requires Consistent()
      modifies this
      ensures Consistent() && bytes == old(bytes) && clock == old(clock) + 1
      ensures View() == Touched(old(View()), key)
      ensures key in keys ==> key in old(keys) && keys == old(keys)[key := old(keys)[key].(lastUsed := clock)]
      ensures key !in keys ==> keys == old(keys)
      ensures key in keys ==> recency == Used(old(recency), key)
    {
      hide Indexed, Ordered, Accounted;
      IndexedTicks(keys, lru, clock);
      clock := clock + 1;
      if key in keys {
        var keyed := keys[key];
        IndexedUsed(keys, lru, old(clock), key, keyed.(lastUsed := clock));
        OrderedUsed(keys, recency, key, keyed.(lastUsed := clock));
        AccountedUsed(keys, bytes, recency, key, clock);
        lru := lru - {keyed.lastUsed};
        keys := keys[key := keyed.(lastUsed := clock)];
        lru := lru[clock := key];
        recency := Used(recency, key);
      }
    }

    /** Take a key out of both indexes; its variants' bytes are freed. */
    method Remove(key: CacheKey) returns (freed: nat)
      requires Consistent()
      modifies this
      ensures Consistent() && clock == old(clock)
      ensures keys == old(keys) - {key} && recency == Without(old(recency), key)
      ensures bytes == old(bytes) - freed
    {
      hide Indexed, Ordered, Accounted;
      OrderedListsKeys(keys, recency);
      if key !in keys {
        assert keys == keys - {key};
        return 0;
      }
      var keyed := keys[key];
      IndexedWithout(keys, lru, clock, key);
      OrderedWithout(keys, recency, key);
      AccountedWithout(keys, bytes, recency, key);
      keys := keys - {key};
      lru := lru - {keyed.lastUsed};
      recency := Without(recency, key);
      freed := ChargedSum(keyed.variants);
      assert freed <= bytes;
      bytes := SaturatingSub(bytes, freed);
    }

    /** Drop the keys used longest ago until the total is within budget. */
    method Evict()
      requires Consistent()
      modifies this
      ensures Valid() && clock == old(clock)
      ensures View() == Fitted(old(View()), maxBytes)
    {
      hide Indexed, Ordered, Accounted, Fitted, Table, HeldBytes, Without, ChargedSum, WellFormed;
      while bytes > maxBytes
        invariant Consistent() && clock == old(clock)
        invariant Fitted(View(), maxBytes) == Fitted(old(View()), maxBytes)
        decreases |recency|
      {
        BytesNeedKeys(keys, lru, clock, bytes, recency);
        if lru == map[] {
          // `bytes` counts what is stored, so it is never over the budget with nothing stored: the
          // source's way out, which sets the count to zero, is not reached.
          assert false;
        }
        OrderedAndAccountedIsWellFormed(keys, bytes, recency);
        FittedStep(View(), maxBytes);
        LowestClockIsOldest(keys, lru, clock, recency);
        var oldest :| oldest in lru && forall c | c in lru :: oldest <= c;
        DropOldest(oldest);
      }
      OrderedAndAccountedIsWellFormed(keys, bytes, recency);
      FittedAlready(View(), maxBytes);
    }

    /** Drop the key of the lowest clock. */
    method DropOldest(oldest: nat)
      requires Consistent() && recency != [] && oldest in lru
      requires lru[oldest] == recency[0] && recency[0] in keys && keys[recency[0]].lastUsed == oldest
      modifies this
      ensures Consistent() && clock == old(clock) && recency == old(recency)[1..]
      ensures View() == WithoutOldest(old(View()))
    {
      hide Indexed, Ordered, Accounted, Table, HeldBytes, Without, ChargedSum;
      var key := lru[oldest];
      IndexedWithout(keys, lru, clock, key);
      OrderedWithout(keys, recency, key);
      AccountedWithout(keys, bytes, recency, key);
      WithoutFirst(recency);
      TableWithout(keys, key);
      lru := lru - {oldest};
      if key in keys {
        var keyed := keys[key];
        keys := keys - {key};
        var freed := ChargedSum(keyed.variants);
        assert freed <= bytes;
        bytes := SaturatingSub(bytes, freed);
      }
      recency := recency[1..];
    }

    method Get(key: CacheKey) returns (found: seq<CacheEntry>)
      requires Valid()
      modifies this
      ensures Valid()
      ensures View() == Touched(old(View()), key)
      ensures found == VariantsOf(old(View()), key)
    {
      Touch(key);
      found := if key in keys then Entries(keys[key].variants) else [];
    }

    method Put(key: CacheKey, entry: CacheEntry)
      requires Valid()
      modifies this
      ensures Valid()
      ensures View() == CacheContents.Put(old(View()), key, entry, Budget())
    {
      hide Indexed, Ordered, Accounted, Fitted, Inserted, Table, Size;
      if Size(entry) > maxEntryBytes {
        return;
      }
      Store(key, entry);
      Evict();
    }

    /** Put a variant in the place of the one it selects like, or beside the others. */
    method Store(key: CacheKey, entry: CacheEntry)
      requires Consistent()
      modifies this
      ensures Consistent()
      ensures View() == Inserted(old(View()), key, entry)
    {
      hide Indexed, Ordered, Accounted, Table, HeldBytes, Used, Charge, Entries, Position, Inserted, Replaces;
      IndexedTicks(keys, lru, clock);
      var charged := Charge(key, entry);
      clock := clock + 1;
      var keyed;
      if key in keys {
        Touch(key);
        keyed := keys[key];
      } else {
        keyed := Keyed([], clock);
        lru := lru[clock := key];
      }
      var next, freed := ReplaceVariant(keyed.variants, Stored(entry, charged));
      keyed := keyed.(variants := next);
      AccountedStored(old(keys), bytes, old(recency), key, Stored(entry, charged), keyed, freed);
      if key in old(keys) {
        LinkedRevalued(keys, lru, clock, recency, key, keyed);
      } else {
        IndexedUsed(old(keys), old(lru), old(clock), key, keyed);
        OrderedUsed(old(keys), old(recency), key, keyed);
      }
      keys := keys[key := keyed];
      recency := Used(old(recency), key);
      bytes := SaturatingSub(bytes, freed) + charged;
      assert keys == old(keys)[key := keyed];
    }

    /** Drop every variant of the key's method and URL, whatever the partition. */
    method Invalidate(key: CacheKey)
      requires Valid()
      modifies this
      ensures Valid()
      ensures View() == Invalidated(old(View()), key)
    {
      hide Indexed, Ordered, Accounted;
      var doomed := set k | k in keys && SameResource(k, key);
      while doomed != {}
        invariant Valid()
        invariant doomed == set k | k in keys && SameResource(k, key)
        invariant Invalidated(View(), key) == Invalidated(old(View()), key)
        decreases |doomed|
      {
        var k :| k in doomed;
        ghost var before := View();
        var freed := Remove(k);
        InvalidatedWithout(before, k, key);
        assert Table(keys) == before.table - {k};
        doomed := doomed - {k};
      }
      OrderedListsKeys(keys, recency);
      assert forall k | k in keys :: k !in doomed;
      NothingDoomed(View(), key);
    }

    method Clear()
      requires Valid()
      modifies this
      ensures Valid()
      ensures View() == EMPTY
    {
      keys := map[];
      lru := map[];
      bytes := 0;
      recency := [];
      assert Table(keys) == map[];
    }
  }

  lemma InvalidatedWithout(c: Contents, k: CacheKey, doomed: CacheKey)
    requires SameResource(k, doomed)
    ensures Invalidated(Contents(c.table - {k}, Without(c.recency, k)), doomed) == Invalidated(c, doomed)
  {
    SurvivingWithout(c.recency, k, doomed);
  }

  lemma NothingDoomed(c: Contents, doomed: CacheKey)
    requires forall k | k in c.table :: !SameResource(k, doomed)
    requires forall k | k in c.recency :: k in c.table
    ensures Invalidated(c, doomed) == c
  {
    SurvivingAll(c.recency, doomed);
  }

  method ReplaceVariant(variants: seq<Stored>, stored: Stored) returns (next: seq<Stored>, freed: nat)
    ensures Replaces(variants, stored, next, freed)
  {
    var replaced := FindVariant(variants, stored.entry);
    if replaced < |variants| {
      next, freed := variants[replaced := stored], variants[replaced].charged;
    } else {
      next, freed := variants + [stored], 0;
    }
  }

  /** The position of the variant stored for the same selector, or the number of variants. */
  method FindVariant(variants: seq<Stored>, entry: CacheEntry) returns (i: nat)
    ensures i == Position(Entries(variants), entry)
  {
    i := 0;
    while i < |variants| && !SameSelection(variants[i].entry, entry)
      invariant i <= |variants|
      invariant forall j | 0 <= j < i :: !SameSelection(variants[j].entry, entry)
    {
      i := i + 1;
    }
    ghost var es := Entries(variants);
    if i < |variants| {
      assert SameSelection(es[i], entry);
    }
    assert forall j | 0 <= j < i :: !SameSelection(es[j], entry);
  }
}
