/** What an in-memory HTTP cache holds, as a table of variants and a list of keys from the one used
    longest ago to the one used last, and what each operation does to it. The linked indexes that
    keep it are in `CacheStore`. */
module CacheContents {
  import opened Text
  import opened Headers
  import opened CacheEntries

  datatype CacheKey = CacheKey(verb: string, url: string, partition: string)

  datatype Limits = Limits(maxBytes: nat, maxEntryBytes: nat)

  // ----- Charges ----------------------------------------------------------------------------

  const STORED_OVERHEAD := 256

  /** The length of a text in UTF-8. */
  function Utf8Length(s: string): nat {
    if s == "" then 0
    else
      var n := s[0] as int;
      (if n < 0x80 then 1 else if n < 0x800 then 2 else if n < 0x1_0000 then 3 else 4) + Utf8Length(s[1..])
  }

  function HeaderBytes(h: HeaderMap): nat {
    if h == [] then 0 else |h[0].name| + |h[0].value| + 4 + HeaderBytes(h[1..])
  }

  function Size(e: CacheEntry): nat {
    |e.body| + HeaderBytes(e.headers)
  }

  function SelectorBytes(vary: Selector): nat {
    if vary == [] then 0
    else
      Utf8Length(vary[0].0) + (match vary[0].1 case Some(v) => Utf8Length(v) case None => 0)
      + SelectorBytes(vary[1..])
  }

  /** What a variant costs: the response, the key and selector it is found by, and an overhead. */
  function Charge(key: CacheKey, e: CacheEntry): nat {
    Size(e) + Utf8Length(key.url) + Utf8Length(key.partition) + SelectorBytes(e.vary) + STORED_OVERHEAD
  }

  // ----- State ------------------------------------------------------------------------------

  datatype Contents = Contents(table: map<CacheKey, seq<CacheEntry>>, recency: seq<CacheKey>)

  const EMPTY := Contents(map[], [])

  predicate SameSelection(a: CacheEntry, b: CacheEntry) {
    a.vary == b.vary && a.decoded == b.decoded
  }

  /** No two variants answer for one selector. */
  predicate DistinctVariants(es: seq<CacheEntry>) {
    forall i, j | 0 <= i < j < |es| :: !SameSelection(es[i], es[j])
  }

  predicate Distinct(keys: seq<CacheKey>) {
    forall i, j | 0 <= i < j < |keys| :: keys[i] != keys[j]
  }

  ghost predicate WellFormed(c: Contents) {
    && Distinct(c.recency)
    && (forall k :: k in c.table <==> k in c.recency)
    && (forall k | k in c.table :: DistinctVariants(c.table[k]))
  }

  function VariantBytes(key: CacheKey, es: seq<CacheEntry>): nat {
    if es == [] then 0 else Charge(key, es[0]) + VariantBytes(key, es[1..])
  }

  function KeyBytes(table: map<CacheKey, seq<CacheEntry>>, key: CacheKey): nat {
    if key in table then VariantBytes(key, table[key]) else 0
  }

  function Total(table: map<CacheKey, seq<CacheEntry>>, keys: seq<CacheKey>): nat {
    if keys == [] then 0 else KeyBytes(table, keys[0]) + Total(table, keys[1..])
  }

  function HeldBytes(c: Contents): nat {
    Total(c.table, c.recency)
  }

  // ----- Operations -------------------------------------------------------------------------

  function IndexOf(keys: seq<CacheKey>, k: CacheKey): (i: nat)
    requires k in keys
    ensures i < |keys| && keys[i] == k && k !in keys[..i]
  {
    if keys[0] == k then 0 else 1 + IndexOf(keys[1..], k)
  }

  function Without(keys: seq<CacheKey>, k: CacheKey): seq<CacheKey> {
    if k in keys then keys[..IndexOf(keys, k)] + keys[IndexOf(keys, k) + 1..] else keys
  }

  /** Make `k` the key used last. */
  function Used(keys: seq<CacheKey>, k: CacheKey): seq<CacheKey> {
    Without(keys, k) + [k]
  }

  function Touched(c: Contents, k: CacheKey): Contents {
    if k in c.table then c.(recency := Used(c.recency, k)) else c
  }

  /** The first variant for the same selector, or the number of variants. */
  function Position(es: seq<CacheEntry>, e: CacheEntry): (i: nat)
    ensures i <= |es|
    ensures i < |es| ==> SameSelection(es[i], e)
    ensures forall j | 0 <= j < i :: !SameSelection(es[j], e)
  {
    if es == [] || SameSelection(es[0], e) then 0 else 1 + Position(es[1..], e)
  }

  /** The variants once `e` has replaced the one for its selector, or joined them. */
  function Replaced(es: seq<CacheEntry>, e: CacheEntry): seq<CacheEntry> {
    var i := Position(es, e);
    if i < |es| then es[i := e] else es + [e]
  }

  function VariantsOf(c: Contents, k: CacheKey): seq<CacheEntry> {
    if k in c.table then c.table[k] else []
  }

  function Inserted(c: Contents, k: CacheKey, e: CacheEntry): Contents {
    Contents(c.table[k := Replaced(VariantsOf(c, k), e)], Used(c.recency, k))
  }

  function WithoutOldest(c: Contents): Contents
    requires c.recency != []
  {
    Contents(c.table - {c.recency[0]}, c.recency[1..])
  }

  /** The contents once keys have been dropped, oldest first, until the budget holds. */
  function Fitted(c: Contents, maxBytes: nat): Contents
    decreases |c.recency|
  {
    if HeldBytes(c) <= maxBytes || c.recency == [] then c else Fitted(WithoutOldest(c), maxBytes)
  }

  function Put(c: Contents, k: CacheKey, e: CacheEntry, limits: Limits): Contents {
    if Size(e) > limits.maxEntryBytes then c else Fitted(Inserted(c, k, e), limits.maxBytes)
  }

  /** Whether dropping what is stored for `doomed`'s method and URL drops `k` too. */
  predicate SameResource(k: CacheKey, doomed: CacheKey) {
    k.verb == doomed.verb && k.url == doomed.url
  }

  function Surviving(keys: seq<CacheKey>, doomed: CacheKey): seq<CacheKey> {
    if keys == [] then []
    else (if SameResource(keys[0], doomed) then [] else [keys[0]]) + Surviving(keys[1..], doomed)
  }

  function Invalidated(c: Contents, doomed: CacheKey): Contents {
    Contents(map k | k in c.table && !SameResource(k, doomed) :: c.table[k], Surviving(c.recency, doomed))
  }

  // ----- Key lists --------------------------------------------------------------------------

  lemma WithoutIsDistinct(keys: seq<CacheKey>, k: CacheKey)
    requires Distinct(keys)
    ensures Distinct(Without(keys, k))
    ensures forall x :: x in Without(keys, k) <==> x in keys && x != k
  {
    hide IndexOf;
    if k in keys {
      var i, out := IndexOf(keys, k), Without(keys, k);
      assert keys == keys[..i] + [k] + keys[i + 1..];
      forall x
        ensures x in out <==> x in keys && x != k
      {
        if x in keys && x != k {
          var j :| 0 <= j < |keys| && keys[j] == x;
          assert out[if j < i then j else j - 1] == x;
        }
      }
    }
  }

  lemma UsedIsDistinct(keys: seq<CacheKey>, k: CacheKey)
    requires Distinct(keys)
    ensures Distinct(Used(keys, k))
    ensures forall x :: x in Used(keys, k) <==> x in keys || x == k
  {
    WithoutIsDistinct(keys, k);
  }

  lemma {:induction false} SurvivingKeys(keys: seq<CacheKey>, doomed: CacheKey)
    ensures forall x :: x in Surviving(keys, doomed) <==> x in keys && !SameResource(x, doomed)
    ensures Distinct(keys) ==> Distinct(Surviving(keys, doomed))
  {
    if keys != [] {
      SurvivingKeys(keys[1..], doomed);
      assert keys == [keys[0]] + keys[1..];
    }
  }

  lemma {:induction false} SurvivingWithout(keys: seq<CacheKey>, k: CacheKey, doomed: CacheKey)
    requires SameResource(k, doomed)
    ensures Surviving(Without(keys, k), doomed) == Surviving(keys, doomed)
  {
    if k in keys {
      if keys[0] == k {
        assert Without(keys, k) == keys[1..];
      } else {
        assert keys[1..][..IndexOf(keys[1..], k)] == keys[1..IndexOf(keys, k)];
        assert Without(keys, k) == [keys[0]] + Without(keys[1..], k);
        SurvivingWithout(keys[1..], k, doomed);
      }
    }
  }

  lemma {:induction false} SurvivingAll(keys: seq<CacheKey>, doomed: CacheKey)
    requires forall k | k in keys :: !SameResource(k, doomed)
    ensures Surviving(keys, doomed) == keys
  {
    if keys != [] {
      SurvivingAll(keys[1..], doomed);
      assert keys == [keys[0]] + keys[1..];
    }
  }

  // ----- Totals -----------------------------------------------------------------------------

  lemma {:induction false} TotalConcat(table: map<CacheKey, seq<CacheEntry>>, a: seq<CacheKey>, b: seq<CacheKey>)
    ensures Total(table, a + b) == Total(table, a) + Total(table, b)
  {
    if a == [] {
      assert a + b == b;
    } else {
      assert (a + b)[1..] == a[1..] + b;
      TotalConcat(table, a[1..], b);
    }
  }

  lemma {:induction false} TotalFrame(
    t: map<CacheKey, seq<CacheEntry>>, u: map<CacheKey, seq<CacheEntry>>, keys: seq<CacheKey>)
    requires forall k | k in keys :: KeyBytes(t, k) == KeyBytes(u, k)
    ensures Total(t, keys) == Total(u, keys)
  {
    if keys != [] {
      TotalFrame(t, u, keys[1..]);
    }
  }

  /** Taking a key out of the list takes its bytes out of the total. */
  lemma TotalWithout(table: map<CacheKey, seq<CacheEntry>>, keys: seq<CacheKey>, k: CacheKey)
    requires k in keys
    ensures Total(table, keys) == Total(table, Without(keys, k)) + KeyBytes(table, k)
  {
    var i := IndexOf(keys, k);
    assert keys == keys[..i] + ([k] + keys[i + 1..]);
    TotalConcat(table, keys[..i], [k] + keys[i + 1..]);
    TotalConcat(table, [k], keys[i + 1..]);
    TotalConcat(table, keys[..i], keys[i + 1..]);
    assert [k][1..] == [];
  }

  /** Changing one key's variants and using it changes the total by the difference. */
  lemma TotalUsed(
    t: map<CacheKey, seq<CacheEntry>>, u: map<CacheKey, seq<CacheEntry>>, keys: seq<CacheKey>, k: CacheKey)
    requires Distinct(keys) && (k in t ==> k in keys)
    requires forall x | x != k :: KeyBytes(t, x) == KeyBytes(u, x)
    ensures Total(u, Used(keys, k)) + KeyBytes(t, k) == Total(t, keys) + KeyBytes(u, k)
  {
    WithoutIsDistinct(keys, k);
    TotalFrame(t, u, Without(keys, k));
    TotalConcat(u, Without(keys, k), [k]);
    assert [k][1..] == [];
    if k in keys {
      TotalWithout(t, keys, k);
    }
  }

  lemma {:induction false} VariantBytesUpdate(key: CacheKey, es: seq<CacheEntry>, i: nat, e: CacheEntry)
    requires i < |es|
    ensures VariantBytes(key, es[i := e]) + Charge(key, es[i]) == VariantBytes(key, es) + Charge(key, e)
  {
    if i > 0 {
      assert es[i := e][1..] == es[1..][i - 1 := e];
      VariantBytesUpdate(key, es[1..], i - 1, e);
    } else {
      assert es[i := e][1..] == es[1..];
    }
  }

  lemma {:induction false} VariantBytesAppend(key: CacheKey, es: seq<CacheEntry>, e: CacheEntry)
    ensures VariantBytes(key, es + [e]) == VariantBytes(key, es) + Charge(key, e)
  {
    if es == [] {
      assert es + [e] == [e] && [e][1..] == [];
    } else {
      assert (es + [e])[1..] == es[1..] + [e];
      VariantBytesAppend(key, es[1..], e);
    }
  }

  lemma OldestBytes(c: Contents)
    requires WellFormed(c) && c.recency != []
    ensures WellFormed(WithoutOldest(c))
    ensures HeldBytes(c) == KeyBytes(c.table, c.recency[0]) + HeldBytes(WithoutOldest(c))
  {
    var k, rest := c.recency[0], c.recency[1..];
    assert c.recency == [k] + rest;
    assert k !in rest;
    TotalFrame(c.table, c.table - {k}, rest);
  }

  // ----- Putting ----------------------------------------------------------------------------

  lemma ReplacedVariants(es: seq<CacheEntry>, e: CacheEntry)
    requires DistinctVariants(es)
    ensures DistinctVariants(Replaced(es, e)) && e in Replaced(es, e)
    ensures forall x | !SameSelection(x, e) :: x in Replaced(es, e) <==> x in es
  {
    var i, out := Position(es, e), Replaced(es, e);
    assert out[i] == e;
    forall x | !SameSelection(x, e)
      ensures x in out <==> x in es
    {
      if x in es {
        var j :| 0 <= j < |es| && es[j] == x;
        assert out[j] == x;
      }
    }
  }

  lemma InsertedWellFormed(c: Contents, k: CacheKey, e: CacheEntry)
    requires WellFormed(c)
    ensures WellFormed(Inserted(c, k, e))
  {
    UsedIsDistinct(c.recency, k);
    ReplacedVariants(VariantsOf(c, k), e);
  }

  /** `kept` is `c` cut down to its youngest keys: as many as fit, and not one more. */
  predicate KeepsLongestFittingSuffix(c: Contents, kept: Contents, maxBytes: nat) {
    var dropped := |c.recency| - |kept.recency|;
    && 0 <= dropped && kept.recency == c.recency[dropped..]
    && Total(c.table, kept.recency) <= maxBytes
    && (forall i | 0 <= i < dropped :: Total(c.table, c.recency[i..]) > maxBytes)
    && RestrictedTo(c, kept)
  }

  /** Dropping the oldest key leaves every shorter suffix, and its total, as it was. */
  lemma SuffixOfRest(c: Contents, i: nat)
    requires WellFormed(c) && 0 < i <= |c.recency|
    ensures c.recency[i..] == WithoutOldest(c).recency[i - 1..]
    ensures Total(c.table, c.recency[i..]) == Total(WithoutOldest(c).table, WithoutOldest(c).recency[i - 1..])
  {
    assert forall j | 0 < j < |c.recency| :: c.recency[j] != c.recency[0];
    assert c.recency[0] !in c.recency[i..];
    TotalFrame(c.table, WithoutOldest(c).table, c.recency[i..]);
  }

  predicate RestrictedTo(whole: Contents, kept: Contents) {
    kept.table == map k | k in whole.table && k in kept.recency :: whole.table[k]
  }

  lemma RestrictedToRest(c: Contents, kept: Contents)
    requires WellFormed(c) && c.recency != [] && RestrictedTo(WithoutOldest(c), kept)
    requires c.recency[0] !in kept.recency
    ensures RestrictedTo(c, kept)
  {
    var t := map k | k in c.table && k in kept.recency :: c.table[k];
    assert forall k :: k in kept.table <==> k in t;
    assert forall k | k in t :: t[k] == kept.table[k];
  }

  lemma LongestSuffixOfRest(c: Contents, kept: Contents, maxBytes: nat)
    requires WellFormed(c) && c.recency != [] && HeldBytes(c) > maxBytes
    requires KeepsLongestFittingSuffix(WithoutOldest(c), kept, maxBytes)
    ensures KeepsLongestFittingSuffix(c, kept, maxBytes)
  {
    hide Total, RestrictedTo;
    var rest := WithoutOldest(c);
    var dropped := |c.recency| - |kept.recency|;
    SuffixOfRest(c, dropped);
    assert c.recency[0] !in kept.recency by {
      assert forall j | 0 < j < |c.recency| :: c.recency[j] != c.recency[0];
    }
    RestrictedToRest(c, kept);
    forall i | 0 <= i < dropped
      ensures Total(c.table, c.recency[i..]) > maxBytes
    {
      if i == 0 {
        assert c.recency[0..] == c.recency;
      } else {
        SuffixOfRest(c, i);
      }
    }
    TotalFrame(c.table, rest.table, kept.recency);
  }

  lemma KeptBytes(c: Contents, kept: Contents, maxBytes: nat)
    requires WellFormed(c) && KeepsLongestFittingSuffix(c, kept, maxBytes)
    ensures WellFormed(kept) && HeldBytes(kept) <= maxBytes
  {
    hide Total, VariantBytes, Charge;
    TotalFrame(c.table, kept.table, kept.recency);
  }

  lemma NothingDropped(c: Contents, maxBytes: nat)
    requires WellFormed(c) && HeldBytes(c) <= maxBytes
    ensures KeepsLongestFittingSuffix(c, c, maxBytes)
  {
    assert c.recency[0..] == c.recency;
    assert c.table == map k | k in c.table && k in c.recency :: c.table[k];
  }

  lemma {:induction false} FittedKeepsLongestSuffix(c: Contents, maxBytes: nat)
    requires WellFormed(c)
    ensures KeepsLongestFittingSuffix(c, Fitted(c, maxBytes), maxBytes)
    decreases |c.recency|
  {
    if HeldBytes(c) <= maxBytes || c.recency == [] {
      NothingDropped(c, maxBytes);
    } else {
      OldestBytes(c);
      FittedKeepsLongestSuffix(WithoutOldest(c), maxBytes);
      LongestSuffixOfRest(c, Fitted(c, maxBytes), maxBytes);
    }
  }

  /** The youngest key stays exactly when it fits by itself. */
  lemma YoungestKept(c: Contents, kept: Contents, maxBytes: nat, k: CacheKey)
    requires WellFormed(c) && KeepsLongestFittingSuffix(c, kept, maxBytes)
    requires c.recency != [] && c.recency[|c.recency| - 1] == k
    ensures k in kept.table <==> KeyBytes(c.table, k) <= maxBytes
  {
    hide VariantBytes, Charge;
    var all, n := c.recency, |kept.recency|;
    assert all[|all| - 1..] == [k] && [k][1..] == [];
    if n == 0 {
      assert k !in kept.recency;
    } else {
      assert kept.recency[n - 1] == k;
      assert kept.recency == kept.recency[..n - 1] + [k];
      TotalConcat(c.table, kept.recency[..n - 1], [k]);
    }
  }

  lemma FittedKeepsInserted(c: Contents, k: CacheKey, e: CacheEntry, maxBytes: nat)
    requires WellFormed(c)
    ensures var inserted := Inserted(c, k, e);
            var after := Fitted(inserted, maxBytes);
            && WellFormed(after) && HeldBytes(after) <= maxBytes
            && KeepsLongestFittingSuffix(inserted, after, maxBytes)
            && (k in after.table <==> VariantBytes(k, inserted.table[k]) <= maxBytes)
            && (k in after.table ==> e in after.table[k])
  {
    var inserted := Inserted(c, k, e);
    InsertedWellFormed(c, k, e);
    FittedKeepsLongestSuffix(inserted, maxBytes);
    KeptBytes(inserted, Fitted(inserted, maxBytes), maxBytes);
    YoungestKept(inserted, Fitted(inserted, maxBytes), maxBytes, k);
    ReplacedVariants(VariantsOf(c, k), e);
  }

  /** After a put that is not refused for size, the keys left are exactly the longest run of the
      most recently used ones that fits the budget, with their variants untouched; the key just put
      is among them exactly when its own variants fit. A put refused for size changes nothing. */
  lemma PutKeepsLongestFittingSuffix(c: Contents, k: CacheKey, e: CacheEntry, limits: Limits)
    requires WellFormed(c)
    ensures var after := Put(c, k, e, limits);
            && WellFormed(after)
            && (HeldBytes(c) <= limits.maxBytes ==> HeldBytes(after) <= limits.maxBytes)
            && (Size(e) > limits.maxEntryBytes ==> after == c)
            && (Size(e) <= limits.maxEntryBytes ==>
                  && KeepsLongestFittingSuffix(Inserted(c, k, e), after, limits.maxBytes)
                  && (k in after.table
                      <==> VariantBytes(k, Replaced(VariantsOf(c, k), e)) <= limits.maxBytes)
                  && (k in after.table ==> e in after.table[k]))
  {
    if Size(e) <= limits.maxEntryBytes {
      FittedKeepsInserted(c, k, e, limits.maxBytes);
    }
  }

  lemma TouchedWellFormed(c: Contents, k: CacheKey)
    requires WellFormed(c)
    ensures WellFormed(Touched(c, k)) && HeldBytes(Touched(c, k)) == HeldBytes(c)
  {
    UsedIsDistinct(c.recency, k);
    if k in c.table {
      TotalUsed(c.table, c.table, c.recency, k);
    }
  }

  lemma {:induction false} SurvivingTotal(c: Contents, keys: seq<CacheKey>, doomed: CacheKey)
    ensures Total(Invalidated(c, doomed).table, Surviving(keys, doomed)) <= Total(c.table, keys)
  {
    if keys != [] {
      var rest := Surviving(keys[1..], doomed);
      SurvivingTotal(c, keys[1..], doomed);
      if SameResource(keys[0], doomed) {
        assert Surviving(keys, doomed) == rest;
      } else {
        assert ([keys[0]] + rest)[1..] == rest;
        assert KeyBytes(Invalidated(c, doomed).table, keys[0]) == KeyBytes(c.table, keys[0]);
      }
    }
  }

  lemma InvalidatedWellFormed(c: Contents, doomed: CacheKey)
    requires WellFormed(c)
    ensures WellFormed(Invalidated(c, doomed)) && HeldBytes(Invalidated(c, doomed)) <= HeldBytes(c)
  {
    SurvivingKeys(c.recency, doomed);
    SurvivingTotal(c, c.recency, doomed);
  }

  // ----- Histories --------------------------------------------------------------------------

  datatype Op = PutOp(key: CacheKey, entry: CacheEntry) | GetOp(key: CacheKey) | InvalidateOp(key: CacheKey) | ClearOp

  function Apply(c: Contents, op: Op, limits: Limits): Contents {
    match op
    case PutOp(k, e) => Put(c, k, e, limits)
    case GetOp(k) => Touched(c, k)
    case InvalidateOp(k) => Invalidated(c, k)
    case ClearOp => EMPTY
  }

  function Run(ops: seq<Op>, limits: Limits): Contents {
    if ops == [] then EMPTY else Apply(Run(ops[..|ops| - 1], limits), ops[|ops| - 1], limits)
  }

  /** Whatever was done to a cache, it is within its budget and holds one variant per selector. */
  lemma {:induction false} EveryRunIsWellFormed(ops: seq<Op>, limits: Limits)
    ensures WellFormed(Run(ops, limits)) && HeldBytes(Run(ops, limits)) <= limits.maxBytes
  {
    if ops != [] {
      var before := Run(ops[..|ops| - 1], limits);
      EveryRunIsWellFormed(ops[..|ops| - 1], limits);
      match ops[|ops| - 1] {
        case PutOp(k, e) => PutKeepsLongestFittingSuffix(before, k, e, limits);
        case GetOp(k) => TouchedWellFormed(before, k);
        case InvalidateOp(k) => InvalidatedWellFormed(before, k);
        case ClearOp =>
      }
    }
  }

  // ----- What the budget means --------------------------------------------------------------

  function BodiesOf(es: seq<CacheEntry>): seq<Bytes> {
    seq(|es|, i requires 0 <= i < |es| => es[i].body)
  }

  /** The bodies of all variants under these keys. */
  function Bodies(table: map<CacheKey, seq<CacheEntry>>, keys: seq<CacheKey>): seq<Bytes> {
    if keys == [] then []
    else (if keys[0] in table then BodiesOf(table[keys[0]]) else []) + Bodies(table, keys[1..])
  }

  lemma {:induction false} FlatConcat(a: seq<Bytes>, b: seq<Bytes>)
    ensures Flat(a + b) == Flat(a) + Flat(b)
  {
    if a == [] {
      assert a + b == b;
    } else {
      assert (a + b)[1..] == a[1..] + b;
      FlatConcat(a[1..], b);
    }
  }

  lemma {:induction false} BodiesOfAreCharged(key: CacheKey, es: seq<CacheEntry>)
    ensures |Flat(BodiesOf(es))| + 256 * |es| <= VariantBytes(key, es)
  {
    if es != [] {
      assert BodiesOf(es)[1..] == BodiesOf(es[1..]);
      BodiesOfAreCharged(key, es[1..]);
    }
  }

  lemma {:induction false} BodiesAreCharged(table: map<CacheKey, seq<CacheEntry>>, keys: seq<CacheKey>)
    ensures |Flat(Bodies(table, keys))| + 256 * |Bodies(table, keys)| <= Total(table, keys)
  {
    hide VariantBytes, BodiesOf;
    if keys != [] {
      BodiesAreCharged(table, keys[1..]);
      if keys[0] in table {
        var es := table[keys[0]];
        BodiesOfAreCharged(keys[0], es);
        FlatConcat(BodiesOf(es), Bodies(table, keys[1..]));
        AsManyBodies(es);
      } else {
        assert Bodies(table, keys) == Bodies(table, keys[1..]);
      }
    }
  }

  lemma AsManyBodies(es: seq<CacheEntry>)
    ensures |BodiesOf(es)| == |es|
  {
  }

  /** After any history the bodies held, and 256 bytes for each of them, come to no more than the budget. */
  lemma BodiesHeldFitTheBudget(ops: seq<Op>, limits: Limits)
    ensures var held := Run(ops, limits);
            var bodies := Bodies(held.table, held.recency);
            |Flat(bodies)| + 256 * |bodies| <= limits.maxBytes
    ensures var held := Run(ops, limits); forall k :: k in held.table <==> k in held.recency
  {
    hide Run, Flat, Bodies;
    EveryRunIsWellFormed(ops, limits);
    BodiesAreCharged(Run(ops, limits).table, Run(ops, limits).recency);
  }

  /** The header lines as they are sent. */
  function HeaderBlock(h: HeaderMap): string {
    if h == [] then "" else h[0].name + ": " + h[0].value + "\r\n" + HeaderBlock(h[1..])
  }

  lemma {:induction false} SizeIsTheResponseAsSent(e: CacheEntry)
    ensures Size(e) == |e.body| + |HeaderBlock(e.headers)|
    decreases |e.headers|
  {
    if e.headers != [] {
      SizeIsTheResponseAsSent(e.(headers := e.headers[1..]));
    }
  }

  /** The texts a selector is made of. */
  function SelectorText(vary: Selector): string {
    if vary == [] then ""
    else vary[0].0 + (match vary[0].1 case Some(v) => v case None => "") + SelectorText(vary[1..])
  }

  predicate IsAscii(s: string) {
    forall i | 0 <= i < |s| :: s[i] as int < 0x80
  }

  lemma {:induction false} Utf8IsNoShorter(s: string)
    ensures Utf8Length(s) >= |s| && (Utf8Length(s) == |s| <==> IsAscii(s))
  {
    if s != "" {
      Utf8IsNoShorter(s[1..]);
      assert s == [s[0]] + s[1..];
    }
  }

  lemma {:induction false} Utf8Concat(a: string, b: string)
    ensures Utf8Length(a + b) == Utf8Length(a) + Utf8Length(b)
  {
    if a == "" {
      assert a + b == b;
    } else {
      assert (a + b)[1..] == a[1..] + b;
      Utf8Concat(a[1..], b);
    }
  }

  lemma {:induction false} SelectorBytesAreItsText(vary: Selector)
    ensures SelectorBytes(vary) == Utf8Length(SelectorText(vary))
  {
    hide Utf8Length;
    if vary == [] {
      NoText();
    } else {
      var value := match vary[0].1 case Some(v) => v case None => "";
      NoText();
      SelectorBytesAreItsText(vary[1..]);
      Utf8Concat(vary[0].0 + value, SelectorText(vary[1..]));
      Utf8Concat(vary[0].0, value);
    }
  }

  lemma NoText()
    ensures Utf8Length("") == 0
  {
  }

  /** What a variant is charged: all it holds and is found by, and 256 bytes more, exactly where the texts
      of its key and selector are ASCII, and at least that where they are not. */
  lemma ChargeIsAllThatIsHeld(key: CacheKey, e: CacheEntry)
    ensures var found := key.url + key.partition + SelectorText(e.vary);
            var held := |e.body| + |HeaderBlock(e.headers)| + |found| + 256;
            Charge(key, e) >= held && (Charge(key, e) == held <==> IsAscii(found))
  {
    hide Utf8Length, HeaderBlock, SelectorText, SelectorBytes, IsAscii, Size;
    var selector := SelectorText(e.vary);
    SizeIsTheResponseAsSent(e);
    SelectorBytesAreItsText(e.vary);
    Utf8Concat(key.url + key.partition, selector);
    Utf8Concat(key.url, key.partition);
    Utf8IsNoShorter(key.url + key.partition + selector);
  }

  /** A response that is longer than the limit for one, its header lines and its body, is not put; any
      other is, and is then held exactly when the variants of its key fit the budget. */
  lemma LongResponsesAreRefused(c: Contents, k: CacheKey, e: CacheEntry, limits: Limits)
    requires WellFormed(c)
    ensures var after := Put(c, k, e, limits);
            if |e.body| + |HeaderBlock(e.headers)| > limits.maxEntryBytes then after == c
            else Holds(after, k, e) <==> VariantBytes(k, Replaced(VariantsOf(c, k), e)) <= limits.maxBytes
  {
    hide HeaderBlock, Fitted, Inserted, Replaced, KeepsLongestFittingSuffix;
    SizeIsTheResponseAsSent(e);
    PutKeepsLongestFittingSuffix(c, k, e, limits);
  }

  /** Putting a variant replaces the one with its selector and decoding and no other. */
  lemma PutReplacesOnlyItsVariant(es: seq<CacheEntry>, e: CacheEntry, other: CacheEntry)
    requires DistinctVariants(es)
    ensures other in Replaced(es, e)
            <==> if other.vary == e.vary && other.decoded == e.decoded then other == e else other in es
  {
    hide Position, Replaced;
    ReplacedVariants(es, e);
    var out := Replaced(es, e);
    if SameSelection(other, e) && other in out {
      var i :| 0 <= i < |out| && out[i] == other;
      var j :| 0 <= j < |out| && out[j] == e;
      assert i == j;
    }
  }

  /** Invalidating a key drops what is held for its method and URL, whatever the partition, and leaves
      the rest as it was. */
  lemma InvalidationDropsEveryPartition(c: Contents, doomed: CacheKey, k: CacheKey)
    requires WellFormed(c)
    ensures var after := Invalidated(c, doomed);
            && WellFormed(after)
            && (k.verb == doomed.verb && k.url == doomed.url ==> k !in after.table)
            && (k.verb != doomed.verb || k.url != doomed.url ==>
                  && (k in after.table <==> k in c.table)
                  && VariantsOf(after, k) == VariantsOf(c, k))
  {
    hide Surviving;
    InvalidatedWellFormed(c, doomed);
  }

  // ----- Who is evicted ---------------------------------------------------------------------

  /** When the key was last asked for, or put a response not refused for its size; negative if never. */
  function LastUse(ops: seq<Op>, k: CacheKey, limits: Limits): (n: int)
    ensures -1 <= n < |ops|
  {
    if ops == [] then -1
    else
      var last := ops[|ops| - 1];
      if last == GetOp(k) || (last.PutOp? && last.key == k && Size(last.entry) <= limits.maxEntryBytes) then |ops| - 1
      else LastUse(ops[..|ops| - 1], k, limits)
  }

  predicate InOrderOfUse(ops: seq<Op>, keys: seq<CacheKey>, limits: Limits) {
    forall i, j | 0 <= i < j < |keys| :: LastUse(ops, keys[i], limits) < LastUse(ops, keys[j], limits)
  }

  lemma SuffixInOrder(ops: seq<Op>, keys: seq<CacheKey>, cut: nat, limits: Limits)
    requires InOrderOfUse(ops, keys, limits) && cut <= |keys|
    ensures InOrderOfUse(ops, keys[cut..], limits)
  {
  }

  /** Using a key last puts it last. */
  lemma UsedInOrder(front: seq<Op>, op: Op, keys: seq<CacheKey>, k: CacheKey, limits: Limits)
    requires InOrderOfUse(front, keys, limits) && Distinct(keys)
    requires op == GetOp(k) || (op.PutOp? && op.key == k && Size(op.entry) <= limits.maxEntryBytes)
    ensures InOrderOfUse(front + [op], Used(keys, k), limits)
  {
    hide Size, LastUse, Without;
    var ops, left := front + [op], Without(keys, k);
    WithoutIsDistinct(keys, k);
    WithoutInOrder(front, keys, k, limits);
    forall x
      ensures LastUse(ops, x, limits) == if x == k then |front| else LastUse(front, x, limits)
    {
      UseSnoc(front, op, k, x, limits);
    }
    assert forall i | 0 <= i < |left| :: left[i] in left && left[i] != k;
  }

  lemma UseSnoc(front: seq<Op>, op: Op, k: CacheKey, x: CacheKey, limits: Limits)
    requires op == GetOp(k) || (op.PutOp? && op.key == k && Size(op.entry) <= limits.maxEntryBytes)
    ensures LastUse(front + [op], x, limits) == if x == k then |front| else LastUse(front, x, limits)
  {
    hide Size;
    assert (front + [op])[..|front|] == front;
  }

  lemma WithoutInOrder(ops: seq<Op>, keys: seq<CacheKey>, k: CacheKey, limits: Limits)
    requires InOrderOfUse(ops, keys, limits)
    ensures InOrderOfUse(ops, Without(keys, k), limits)
  {
    hide LastUse, IndexOf;
    var cut, left := if k in keys then IndexOf(keys, k) else |keys|, Without(keys, k);
    assert forall i | 0 <= i < |left| :: left[i] == keys[if i < cut then i else i + 1];
  }

  lemma {:induction false} SurvivingInOrder(ops: seq<Op>, keys: seq<CacheKey>, doomed: CacheKey, limits: Limits)
    requires InOrderOfUse(ops, keys, limits)
    ensures InOrderOfUse(ops, Surviving(keys, doomed), limits)
  {
    hide LastUse, SameResource;
    if keys != [] {
      var rest, left := keys[1..], Surviving(keys[1..], doomed);
      assert forall i | 0 < i < |keys| :: keys[i] == rest[i - 1];
      SurvivingInOrder(ops, rest, doomed, limits);
      SurvivingKeys(rest, doomed);
      forall i | 0 <= i < |left|
        ensures LastUse(ops, keys[0], limits) < LastUse(ops, left[i], limits)
      {
        assert left[i] in left;
        var j :| 0 <= j < |rest| && rest[j] == left[i];
      }
    }
  }

  lemma UnusedInOrder(front: seq<Op>, op: Op, keys: seq<CacheKey>, limits: Limits)
    requires InOrderOfUse(front, keys, limits)
    requires match op
             case GetOp(k) => k !in keys
             case PutOp(_, e) => Size(e) > limits.maxEntryBytes
             case _ => true
    ensures InOrderOfUse(front + [op], keys, limits)
  {
    hide Size;
    var ops := front + [op];
    assert ops[..|ops| - 1] == front;
    forall i | 0 <= i < |keys|
      ensures LastUse(ops, keys[i], limits) == LastUse(front, keys[i], limits)
    {
      assert keys[i] in keys;
    }
  }

  /** After any history the keys stand in the order of their last use, so that the ones that go for want
      of room are those used longest ago. */
  lemma {:induction false} KeysStandInOrderOfUse(ops: seq<Op>, limits: Limits)
    ensures InOrderOfUse(ops, Run(ops, limits).recency, limits)
  {
    hide Size, LastUse, InOrderOfUse, Used, Surviving, WellFormed, HeldBytes, Fitted;
    if ops == [] {
      NothingIsInOrder(limits);
    } else {
      var front, op := ops[..|ops| - 1], ops[|ops| - 1];
      assert ops == front + [op];
      KeysStandInOrderOfUse(front, limits);
      EveryRunIsWellFormed(front, limits);
      CallKeepsOrderOfUse(front, op, limits);
    }
  }

  lemma NothingIsInOrder(limits: Limits)
    ensures InOrderOfUse([], [], limits) && forall ops :: InOrderOfUse(ops, [], limits)
  {
  }

  lemma CallKeepsOrderOfUse(front: seq<Op>, op: Op, limits: Limits)
    requires InOrderOfUse(front, Run(front, limits).recency, limits) && WellFormed(Run(front, limits))
    ensures InOrderOfUse(front + [op], Apply(Run(front, limits), op, limits).recency, limits)
  {
    hide Run, Size, LastUse, InOrderOfUse, Used, Surviving, HeldBytes, Fitted, Total, Replaced, RestrictedTo;
    var before := Run(front, limits);
    match op {
      case PutOp(k, e) =>
        if Size(e) > limits.maxEntryBytes {
          UnusedInOrder(front, op, before.recency, limits);
        } else {
          var after := Put(before, k, e, limits);
          PutKeepsLongestFittingSuffix(before, k, e, limits);
          UsedInOrder(front, op, before.recency, k, limits);
          SuffixInOrder(front + [op], Used(before.recency, k), |Used(before.recency, k)| - |after.recency|, limits);
        }
      case GetOp(k) =>
        if k in before.table {
          UsedInOrder(front, op, before.recency, k, limits);
        } else {
          UnusedInOrder(front, op, before.recency, limits);
        }
      case InvalidateOp(k) =>
        UnusedInOrder(front, op, before.recency, limits);
        SurvivingInOrder(front + [op], before.recency, k, limits);
      case ClearOp => NothingIsInOrder(limits);
    }
  }

  // ----- What is held -----------------------------------------------------------------------

  /** The response put last for a key and selector, unless something dropped it on purpose since. */
  function LastPut(ops: seq<Op>, k: CacheKey, like: CacheEntry, limits: Limits): Option<CacheEntry> {
    if ops == [] then None
    else
      var earlier := LastPut(ops[..|ops| - 1], k, like, limits);
      match ops[|ops| - 1]
      case PutOp(key, e) =>
        if key == k && SameSelection(e, like) && Size(e) <= limits.maxEntryBytes then Some(e) else earlier
      case GetOp(_) => earlier
      case InvalidateOp(doomed) => if SameResource(k, doomed) then None else earlier
      case ClearOp => None
  }

  /** No put of the history pushed `k` out for want of room. */
  predicate NeverEvicted(ops: seq<Op>, k: CacheKey, limits: Limits) {
    forall n | 0 <= n < |ops| && ops[n].PutOp? ::
      k in Run(ops[..n], limits).table || (ops[n].key == k && Size(ops[n].entry) <= limits.maxEntryBytes)
      ==> k in Run(ops[..n + 1], limits).table
  }

  predicate Holds(c: Contents, k: CacheKey, e: CacheEntry) {
    k in c.table && e in c.table[k]
  }

  /** The keys that stay keep the variants the insertion gave them. */
  lemma PutTable(c: Contents, key: CacheKey, put: CacheEntry, limits: Limits)
    requires WellFormed(c) && Size(put) <= limits.maxEntryBytes
    ensures forall k | k in Put(c, key, put, limits).table ::
              k in Inserted(c, key, put).table && Put(c, key, put, limits).table[k] == Inserted(c, key, put).table[k]
  {
    hide Fitted, Size, Inserted, Total;
    PutKeepsLongestFittingSuffix(c, key, put, limits);
  }

  lemma HoldsAfterPut(c: Contents, k: CacheKey, e: CacheEntry, key: CacheKey, put: CacheEntry, limits: Limits)
    requires WellFormed(c) && Size(put) <= limits.maxEntryBytes
    ensures Holds(Put(c, key, put, limits), k, e)
            <==> && k in Put(c, key, put, limits).table
                 && (if k == key && SameSelection(e, put) then e == put else Holds(c, k, e))
  {
    hide Fitted, Size, Used, Total, Position, KeepsLongestFittingSuffix, Replaced;
    PutKeepsLongestFittingSuffix(c, key, put, limits);
    ReplacedVariants(VariantsOf(c, key), put);
    var inserted, after := Inserted(c, key, put), Put(c, key, put, limits);
    PutTable(c, key, put, limits);
    if k in after.table {
      assert after.table[k] == inserted.table[k];
      if k == key && SameSelection(e, put) && e in after.table[k] {
        var es := inserted.table[k];
        var i :| 0 <= i < |es| && es[i] == e;
        var j :| 0 <= j < |es| && es[j] == put;
        assert i == j;
      }
    }
  }

  /** What one operation does to what is held under a key. */
  lemma HoldsAfter(c: Contents, op: Op, k: CacheKey, e: CacheEntry, limits: Limits)
    requires WellFormed(c)
    ensures Holds(Apply(c, op, limits), k, e)
            <==> match op
                 case PutOp(key, put) =>
                   if Size(put) > limits.maxEntryBytes then Holds(c, k, e)
                   else && k in Apply(c, op, limits).table
                        && (if k == key && SameSelection(put, e) then e == put else Holds(c, k, e))
                 case GetOp(_) => Holds(c, k, e)
                 case InvalidateOp(doomed) => Holds(c, k, e) && !SameResource(k, doomed)
                 case ClearOp => false
  {
    hide Size, Fitted, Inserted, Used, Surviving;
    if op.PutOp? && Size(op.entry) <= limits.maxEntryBytes {
      HoldsAfterPut(c, k, e, op.key, op.entry, limits);
    }
  }

  lemma NeverEvictedBefore(ops: seq<Op>, k: CacheKey, limits: Limits)
    requires ops != [] && NeverEvicted(ops, k, limits)
    ensures NeverEvicted(ops[..|ops| - 1], k, limits)
    ensures var front, last := ops[..|ops| - 1], ops[|ops| - 1];
            last.PutOp? && (k in Run(front, limits).table
                            || (last.key == k && Size(last.entry) <= limits.maxEntryBytes))
            ==> k in Run(ops, limits).table
  {
    hide Run, Size;
    var front := ops[..|ops| - 1];
    assert ops[..|ops|] == ops;
    forall n | 0 <= n < |front| && front[n].PutOp?
      ensures k in Run(front[..n], limits).table
              || (front[n].key == k && Size(front[n].entry) <= limits.maxEntryBytes)
              ==> k in Run(front[..n + 1], limits).table
    {
      assert front[..n] == ops[..n] && front[..n + 1] == ops[..n + 1] && front[n] == ops[n];
    }
  }

  /** The cache is a map from key and selector to the response put last: what it holds was put last
      and not dropped since, and it holds every such response that eviction did not take. */
  lemma {:induction false} CacheHoldsTheLastPut(ops: seq<Op>, k: CacheKey, e: CacheEntry, limits: Limits)
    ensures Holds(Run(ops, limits), k, e) ==> LastPut(ops, k, e, limits) == Some(e)
    ensures NeverEvicted(ops, k, limits) && LastPut(ops, k, e, limits) == Some(e) ==> Holds(Run(ops, limits), k, e)
  {
    hide Size, SameSelection, Apply, NeverEvicted;
    if ops != [] {
      var front, last := ops[..|ops| - 1], ops[|ops| - 1];
      CacheHoldsTheLastPut(front, k, e, limits);
      EveryRunIsWellFormed(front, limits);
      HoldsAfter(Run(front, limits), last, k, e, limits);
      if NeverEvicted(ops, k, limits) {
        NeverEvictedBefore(ops, k, limits);
      }
    }
  }

  // ----- Selection --------------------------------------------------------------------------

  predicate NormalContents(c: Contents) {
    forall k, i | k in c.table && 0 <= i < |c.table[k]| :: NormalSelector(c.table[k][i].vary)
  }

  predicate NormalPuts(ops: seq<Op>) {
    forall n | 0 <= n < |ops| && ops[n].PutOp? :: NormalSelector(ops[n].entry.vary)
  }

  lemma {:induction false} RunsKeepNormalSelectors(ops: seq<Op>, limits: Limits)
    requires NormalPuts(ops)
    ensures NormalContents(Run(ops, limits))
  {
    forall k, i | k in Run(ops, limits).table && 0 <= i < |Run(ops, limits).table[k]|
      ensures NormalSelector(Run(ops, limits).table[k][i].vary)
    {
      var e := Run(ops, limits).table[k][i];
      CacheHoldsTheLastPut(ops, k, e, limits);
      LastPutWasPut(ops, k, e, limits);
    }
  }

  lemma {:induction false} LastPutWasPut(ops: seq<Op>, k: CacheKey, like: CacheEntry, limits: Limits)
    requires LastPut(ops, k, like, limits).Some?
    ensures exists n :: 0 <= n < |ops| && ops[n] == PutOp(k, LastPut(ops, k, like, limits).value)
  {
    var front, last := ops[..|ops| - 1], ops[|ops| - 1];
    if last.PutOp? && last.key == k && SameSelection(last.entry, like) && Size(last.entry) <= limits.maxEntryBytes {
      assert ops[|ops| - 1] == PutOp(k, LastPut(ops, k, like, limits).value);
    } else {
      LastPutWasPut(front, k, like, limits);
      var n :| 0 <= n < |front| && front[n] == PutOp(k, LastPut(ops, k, like, limits).value);
      assert ops[n] == front[n];
    }
  }

  /** Whatever mix of fresh and updated responses was put, no request matches two variants of one
      key that select by the same names. */
  lemma NoRequestMatchesTwoVariants(
    ops: seq<Op>, limits: Limits, k: CacheKey, i: nat, j: nat, request: HeaderMap, decoded: bool)
    requires NormalPuts(ops) && k in Run(ops, limits).table
    requires i < j < |Run(ops, limits).table[k]|
    requires var es := Run(ops, limits).table[k]; SelectorNames(es[i].vary) == SelectorNames(es[j].vary)
    ensures var es := Run(ops, limits).table[k]; !(es[i].Matches(request, decoded) && es[j].Matches(request, decoded))
  {
    var es := Run(ops, limits).table[k];
    EveryRunIsWellFormed(ops, limits);
    RunsKeepNormalSelectors(ops, limits);
    if es[i].Matches(request, decoded) && es[j].Matches(request, decoded) {
      MatchingSelectorsAgree(es[i], es[j], request, decoded);
    }
  }

  /** Put after the response it updates, an entry whose `304` repeats the `Vary` replaces it exactly when
      every listed name is a field name. Otherwise the two stand side by side, and unless `*` is listed
      the request they were stored for matches both. */
  lemma UpdatedReplacesFreshIffFieldNames(
    dates: Dates, status: nat, response: HeaderMap, request: HeaderMap, body: Bytes, decoded: bool,
    requestedAt: int, receivedAt: int, u: Update304)
    requires RepeatsVary(response, u, decoded) && u.request == request
    ensures var e := StoredEntry(dates, status, response, request, body, decoded, requestedAt, receivedAt);
            var updated := UpdatedEntry(e, u);
            && Replaced([e], updated) == (if FieldNames(VaryNames(response)) then [updated] else [e, updated])
            && (StarFree(VaryNames(response)) ==> e.Matches(request, decoded) && updated.Matches(request, decoded))
  {
    hide FieldNames, StarFree, VaryNames, StoredEntry, UpdatedEntry, CacheEntry.Matches, RepeatsVary;
    RepeatedVaryAgreesIffFieldNames(dates, status, response, request, body, decoded, requestedAt, receivedAt, u);
    var e := StoredEntry(dates, status, response, request, body, decoded, requestedAt, receivedAt);
    var updated := UpdatedEntry(e, u);
    assert [e][1..] == [];
    assert [e] + [updated] == [e, updated] && [e][0 := updated] == [updated];
  }

  /** So `Vary: @` and a `304` that repeats it leave two entries that one request matches. */
  lemma OddVaryIsMatchedTwice(dates: Dates, body: Bytes)
    ensures var e := StoredEntry(dates, 200, ODD_VARY, [], body, false, 0, 0);
            var updated := UpdatedEntry(e, Update304(ODD_VARY, 0, 0, []));
            && Replaced([e], updated) == [e, updated]
            && e.Matches([], false) && updated.Matches([], false)
  {
    hide FieldNames, StarFree, VaryNames, StoredEntry, UpdatedEntry, CacheEntry.Matches, RepeatsVary, Replaced;
    OddVaryNames();
    UpdatedReplacesFreshIffFieldNames(dates, 200, ODD_VARY, [], body, false, 0, 0, Update304(ODD_VARY, 0, 0, []));
  }
}
