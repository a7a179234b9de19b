# gosub-sonar: model and proofs

gosub-sonar is an HTTP fetch stack. This project models the parts of it that hold state or read
untrusted text, and proves what each of them promises over every input, every history and, for the
request lifecycle, every interleaving.

- **HTTP cache** (`CacheEntry.dfy`, `CacheFields.dfy`, `CacheDecide.dfy`, `CacheContents.dfy`, `CacheStore.dfy`):
  what a stored response is, what its list fields say, how a `304` changes it, how old and how fresh it is, which
  request it may answer, and the two-index store with its byte budget. `CacheContents` says what the store does as a table and
  a list of keys by use; `CacheStore` is the class with both indexes, proved to do exactly that.
- **Request lifecycle** (`Lifecycle.dfy`, `LifecycleRuns.dfy`, `LifecycleEnds.dfy`, `LifecycleObjects.dfy`): requests that
  share one fetch. The transition system cuts a call of `on_event` at its atomic actions (the swap or
  load of the flag, the delivery, the end of the work, the signal) and lets any number of calls
  interleave; the classes do whole calls, and a call nothing interleaves with is proved to be one.
- **HSTS** (`HstsParser.dfy`, `Hsts.dfy`, `HstsHistory.dfy`): the directive grammar, the policy a header states,
  the store over histories of responses, and the walk up the superdomains.
- **Authentication** (`AuthChallenge.dfy`, `AuthStore.dfy`, `Base64.dfy`): challenge lists, remembered
  credentials and the directories they were accepted in, base64.
- **Bodies** (`BodyTop.dfy`, `ProgressReader.dfy`, `Pump.dfy`, `BodyCapture.dfy`): the peek window and the
  complete fetch, the reader that counts, the pump into a shared body and a file, the bounded copy.
- **CORS** (`Cors.dfy`): safelisted request headers and the names a preflight must ask for.
- Shared by these: `Text.dfy`, `QuotedString.dfy`, `Headers.dfy`, `Collections.dfy`, `NetErrors.dfy`.

Values are modelled as follows. Times are whole nanoseconds and counters are unbounded. A header value
is a string of one `char` per byte, other texts are strings of Unicode characters, a body is a sequence of
bytes, and a header map is the list of its field lines. What comes from outside (reads, timers,
cancellation, file errors, an HTTP-date parser and formatter) is a parameter: a script of what each wait or
write comes out with, or a function.

## Where the code and its documentation differ

- The module documentation of `src/net/lifecycle.rs` (lines 5-9) says an observer sees nothing after the
  end. The load at line 94 and the delivery at line 97 are separate, so a delivery already under way when
  another call ends the request comes after the end. `LateEventIffDeliveryUnderWay` and
  `LateEventNeedsARace` prove that this is exactly when it happens, `LateEventHappens` is a run in which it
  does, and `NothingAfterTheEnd` proves the promise for calls that do not overlap.
- A second end reported by a fetch replaces the one kept for later joiners (line 167), so the requests of one
  fetch can be told different ends (`TwoReportsTwoEnds` is such a run). `OneEndForAllIffReportsAgree` proves
  that they are told one end exactly when each end reported later copies to the one kept first.
- `ProgressReader` is documented to report one end per request. It reports two exactly when it is polled on
  past an end or a failure into the other (`EndsOnceUnlessPolledIntoBoth`, with `PolledIntoBoth` an example);
  the one-end promise is kept by the `Lifecycle` in front of it.
- `max_bytes` is not looked at before the first read of a body that comes out of the cache, so a stored body
  that fits the peek window is given whatever the maximum (`StoredBodyIsHeldToMaximumPastThePeek`, with
  `StoredBodyOverTheMaximum` an example). Off the network the maximum always holds.
- A `Vary` name that is no field name, as in `Vary: @`, is left out of the selecting fields of a fresh response
  (`src/net/cache.rs:724-731`) and kept by a `304` (`src/net/cache.rs:456-466`), so an entry and its update can stand
  side by side and one request match both.
  `UpdatedReplacesFreshIffFieldNames` proves when that happens, `OddVaryIsMatchedTwice` is an example.
- An empty chunk that arrives when a capture's budget is used up marks the preview truncated, though the
  whole body was captured (`ExactlyOnePreview` and `CameToMoreMeansLonger`, with `EmptyChunkMarksTruncated`
  an example).

## Model

| member | source | states |
|---|---|---|
| Text.SplitOutsideQuotes | src/net/utils.rs:295-317 | the one-pass split with two flags yields exactly the parts between the commas that stand outside quoted-strings, escapes included |
| Text.SplitJoins | src/net/utils.rs:295-317 | joining the parts with commas gives the value back, so nothing is lost or reordered |
| Text.SplitParts | src/net/utils.rs:295-317 | no part holds a comma outside quotes, and every part but the last closes its quoted-strings |
| Text.NormalizeListIdempotent | src/net/cache.rs:762-769 | normalising a list twice is normalising it once, for every text, even with a quoted-string left open |
| Text.ElementsOfJoin | src/net/cache.rs:762-769 | a list of trimmed, non-empty elements without bare commas, joined by `, `, splits back into those elements |
| Text.NormalizeListTellsElementsApart | src/net/cache.rs:762-769 | two values normalise alike if and only if they list the same elements in the same order |
| Text.SingleElementNormalizesToItself | src/net/cache.rs:762-769 | a value of one element normalises to itself, so different ones stay different |
| Text.DecimalIsRead | src/net/cache.rs:478-486 | a number written in decimal, with any zeros before it, is read as that number |
| Text.LowerTellsAllButCase | src/net/cache.rs:607-627 | lower-casing makes two texts the same if and only if they differ in the case of ASCII letters at most |
| Headers.GetTextIsTheFirstLine | src/net/hsts.rs:268-274 | the text a field is read by is the value of its first line, if that is visible text |
| CacheEntries.ParseResponseDirectives | src/net/cache.rs:525-554 | of a repeated `max-age` or `stale-while-revalidate` the first counts, flags accumulate, unknown directives are passed over |
| CacheEntries.ParseRequestDirectives | src/net/cache.rs:580-602 | of repeated values the last counts, and `Pragma: no-cache` counts only without a `Cache-Control` |
| CacheEntries.AgeGrows | src/net/cache.rs:321-348 | the current age is never negative, grows with the clock by the time passed, and a response once stale stays stale |
| CacheEntries.AgeAsItsFieldsSay | src/net/cache.rs:321-340 | the current age is under a limit if and only if the time since `Date`, the `Age` field, and the `Age` field with the time the request took all are, each with the time the response has been here |
| CacheEntries.LifetimeAsItsFieldsSay | src/net/cache.rs:294-318 | the lifetime is `max-age`; else `Expires` after the `Date`, or none for one that does not read; else a tenth in whole seconds of the age since `Last-Modified`, a day at most; else there is none |
| CacheEntries.FreshAsItsFieldsSay | src/net/cache.rs:343-348 | a response is fresh if and only if a lifetime its fields give is over every age its fields give |
| CacheEntries.DeltaSecondsReads | src/net/cache.rs:478-486 | digits with whitespace around them are read as their number, up to 2^31 |
| CacheFields.ResponseMeansWhatItSays | src/net/cache.rs:525-554 | for directives written in any case, on any lines, with any whitespace, as tokens or quoted-strings: a flag is set if and only if it is said, and of a repeated `max-age` or `stale-while-revalidate` the first one's number counts, an unreadable `max-age` as zero |
| CacheFields.RequestMeansWhatItSays | src/net/cache.rs:580-602 | for a request the last one's number counts, a `max-stale` without a number accepts any staleness, and `no-cache` may come from `Pragma` |
| CacheFields.PragmaIsListed | src/net/cache.rs:580-602 | `Pragma` counts if and only if there is no `Cache-Control` line and one of its members is `no-cache` in some case |
| CacheFields.VaryNamesAreListed | src/net/cache.rs:772-781 | the selecting names are exactly the non-empty members between commas of the visible `Vary` lines, trimmed and in lower case |
| CacheFields.ConnectionNamesAreListed | src/net/cache.rs:91-99 | the fields `Connection` lists are exactly its members that are tokens once trimmed, in lower case |
| CacheEntries.EntryFromResponse | src/net/cache.rs:694-742 | the removal loops leave the response without the fields `Connection` lists, hop-by-hop, proxy-authentication and `Set-Cookie` fields, dated, and without its coding when decoded |
| CacheEntries.StoredKeepsOtherFields | src/net/cache.rs:694-742 | every field that is not connection-specific, listed by `Connection`, `Set-Cookie` or, decoded, of the coding is stored as it came, and a missing `Date` is the arrival |
| CacheEntries.UpdatedBy304 | src/net/cache.rs:428-470 | the merge loop over the fields of a `304` yields the merged header map, selector and times |
| CacheEntries.UpdateReplacesFields | src/net/cache.rs:428-470 | field by field: a field the `304` carries and may update replaces the stored values whole, every other field keeps its own (section 3.2 of RFC 9111) |
| CacheEntries.UpdateLeavesSomeFields | src/net/cache.rs:436-455 | a `304` leaves `Content-Length`, `Set-Cookie`, the fields its `Connection` lists, and the `Content-Encoding` of a decoded body as stored |
| CacheEntries.UpdatesKeepBodyAndLatestFields | src/net/cache.rs:428-470 | after any number of `304`s body, status and decoding are as stored and each field holds the values of the latest `304` that could give it any |
| CacheEntries.EntryNeverHoldsForbidden | src/net/cache.rs:428-470 | stored once and updated by any `304`s, an entry never holds `Set-Cookie`, hop-by-hop or proxy-authentication fields, nor, decoded, `Content-Encoding` or `Content-Length` |
| CacheEntries.StoredEntryMatchesItsRequest | src/net/cache.rs:279-290 | an entry matches the request it was built from exactly when the response did not say `Vary: *` |
| CacheEntries.EntryMatchesIffRequestsSayTheSame | src/net/cache.rs:279-290 | an entry stored for one request answers another if and only if it wants the same decoding, `Vary` has no `*`, and for every field name listed both have no text line of it or their lines joined by commas list the same elements in the same order |
| CacheEntries.UpdatedEntryMatchesItsRequest | src/net/cache.rs:456-466 | an entry a `304` gave new selecting fields matches the revalidating request unless they hold `*`; otherwise it matches exactly as before |
| CacheEntries.MatchingSelectorsAgree | src/net/cache.rs:279-290 | one request matches two normalised selectors over the same names only if they are one selector |
| CacheEntries.BuiltEntriesHaveNormalSelectors | src/net/cache.rs:724-758 | every entry that storing and `304`s can produce has a normalised selector |
| CacheDecisions.NewestIsNewest | src/net/cache.rs:809-820 | the entry chosen matches, no match has a later date, and of matches of one date it is the last; none is chosen only if none matches |
| CacheDecisions.NewestHasTheLatestDate | src/net/cache.rs:809-820 | no match has a later `Date`, its arrival counting for one without, than the one chosen |
| CacheDecisions.DecideUsesExactlyWhatItMay | src/net/cache.rs:787-889 | a stored response is used if and only if the request lets the cache answer and the rules allow it in that mode, and used stale if and only if they do not but stale-while-revalidate does; always the newest match |
| CacheDecisions.PlainRequestIsAnsweredWhileFieldsAllow | src/net/cache.rs:787-889 | a plain request in the default mode is answered by the newest match if and only if a lifetime its fields give is over every age they give and it is not `no-cache` |
| CacheDecisions.UnusableIsAskedAbout | src/net/cache.rs:352-363 | a newest match that may not be used is asked about with its first `ETag` in `If-None-Match` and its first `Last-Modified` in `If-Modified-Since` and nothing else, and with neither the request is just sent |
| CacheDecisions.ConditionalRequestsAreSent | src/net/cache.rs:919-930 | a request with any of the six range and conditional fields is sent whatever is stored |
| CacheDecisions.OnlyIfCachedNeverSends | src/net/cache.rs:787-889 | an only-if-cached request is used or refused, never sent, unless it goes past the cache; nothing else is refused; a request past the cache is sent |
| CacheDecisions.DecisionWorsensWithTime | src/net/cache.rs:787-889 | in the order use, use stale, anything else, a later time never gives a better decision |
| CacheDecisions.StoredResponseAnswersWhileFresh | src/net/cache.rs:787-889 | through the cache: once a response is put and its key kept, the same plain request is answered from what the cache gives for the key by a match dated no earlier, exactly while that is fresh and not `no-cache`; with no match dated as late it is the response put |
| CacheContents.PutKeepsLongestFittingSuffix | src/net/cache.rs:1152-1185 | after a put the keys left are exactly the longest run of the most recently used that fits the budget, untouched; the key put is among them if and only if its own variants fit; a put refused for size changes nothing |
| CacheContents.EveryRunIsWellFormed | src/net/cache.rs:1028-1057 | over every history the cache is within its budget, keys are listed once, and no two variants of a key select alike |
| CacheContents.BodiesHeldFitTheBudget | src/net/cache.rs:1066-1079 | over every history the bodies held, and 256 bytes for each, come to no more than the budget |
| CacheContents.ChargeIsAllThatIsHeld | src/net/cache.rs:1066-1074 | a variant is charged its body, its header lines as sent, the texts of its URL, partition and selector and 256 bytes, exactly if those texts are ASCII and more if they are not |
| CacheContents.LongResponsesAreRefused | src/net/cache.rs:1152-1185 | a response whose body and header lines as sent are over the limit for one changes nothing; any other is held if and only if the variants of its key fit the budget |
| CacheContents.PutReplacesOnlyItsVariant | src/net/cache.rs:1169-1182 | after a put the variants of the key are those there were, but the one put stands for its selector and decoding |
| CacheContents.InvalidationDropsEveryPartition | src/net/cache.rs:1187-1198 | invalidating a key drops every key of its method and URL, whatever the partition, and leaves the variants of every other key |
| CacheContents.KeysStandInOrderOfUse | src/net/cache.rs:1038-1046 | over every history the keys stand in the order of their last use, by a get or a put, so eviction takes those used longest ago |
| CacheContents.CacheHoldsTheLastPut | src/net/cache.rs:1142-1205 | over every history what is held for a key and selector is what was put last and not dropped since, and unless eviction took the key all of that is held |
| CacheContents.NoRequestMatchesTwoVariants | src/net/cache.rs:1169-1182 | for any mix of puts of fresh and updated entries, no request matches two variants of one key with the same selecting names (section 4.1 of RFC 9111) |
| CacheEntries.SelectorsAgreeIffFieldNames | src/net/cache.rs:456-466 | the selecting fields a fresh response and a `304` make of one list of names agree if and only if every name is a field name |
| CacheContents.UpdatedReplacesFreshIffFieldNames | src/net/cache.rs:1169-1182 | put after the response it updates, an entry whose `304` repeats the `Vary` replaces it if and only if every listed name is a field name; otherwise both stay and, without `*`, one request matches both |
| CacheContents.OddVaryIsMatchedTwice | src/net/cache.rs:724-731 | an input on which one request matches two entries |
| CacheStore.InMemoryHttpCache.constructor | src/net/cache.rs:1098-1104 | a new cache is consistent, empty and has the limits given |
| CacheStore.InMemoryHttpCache.Touch | src/net/cache.rs:1038-1046 | moves the key to the end of the use order in both indexes and ticks the clock, and changes nothing else |
| CacheStore.InMemoryHttpCache.Remove | src/net/cache.rs:1049-1057 | drops the key from both indexes and reports exactly the bytes it was charged, so the subtraction never saturates |
| CacheStore.InMemoryHttpCache.Evict | src/net/cache.rs:1127-1139 | the loop drops keys oldest first until the budget holds; an empty clock index is never met while bytes are counted |
| CacheStore.InMemoryHttpCache.Get | src/net/cache.rs:1143-1150 | gives every variant of the key and counts as a use of it |
| CacheStore.InMemoryHttpCache.Put | src/net/cache.rs:1152-1185 | the indexes, byte count and loop do to the table and use order what `CacheContents.Put` says |
| CacheStore.InMemoryHttpCache.Store | src/net/cache.rs:1169-1184 | replaces the variant with the same selector and decoding or adds one, with the charges adjusted and the key used |
| CacheStore.InMemoryHttpCache.Invalidate | src/net/cache.rs:1187-1198 | drops every partition's variants of that method and URL and no others |
| CacheStore.InMemoryHttpCache.Clear | src/net/cache.rs:1200-1205 | leaves nothing |
| CacheStore.BytesNeedKeys | src/net/cache.rs:1127-1139 | while any byte is counted there is a key and a clock to evict, so the fallback of the loop is unreachable |
| Lifecycle.CopyIsIdempotent | src/net/lifecycle.rs:197-230 | exactly progress and ends can be copied, a copy is the event itself but for a chain of messages, which becomes the one message it reads as, and copying a copy changes nothing |
| Lifecycle.StepKeeps | src/net/lifecycle.rs:87-183 | every atomic action keeps the invariant that ties flags, logs, work counts, calls in flight, handles and the fetch's end together |
| LifecycleRuns.EveryRequestEndsOnce | src/net/lifecycle.rs:37-102 | over every interleaving each request is accepted first and once, told at most one end, its work done no more often than begun, and exactly once each by the time it has ended or been dropped and that end is delivered |
| LifecycleRuns.FetchEndReachesEveryRequest | src/net/lifecycle.rs:132-183 | once the fetch has ended and no call is in flight every request that joined and stayed, before or after the end, has had exactly one end |
| LifecycleRuns.EndedFetchEndsEveryRequest | src/net/lifecycle.rs:159-183 | from any state in which the fetch has ended the calls in flight run out and bring every such request to exactly one end |
| LifecycleRuns.CallsRunOut | src/net/lifecycle.rs:159-183 | calls in flight are never stuck: letting them go on empties them in finitely many actions |
| LifecycleRuns.UnheldRequestIsEndedByItsDrop | src/net/lifecycle.rs:232-243 | a request nobody holds can be dropped, and has had exactly one end and its work done when it is |
| LifecycleRuns.EveryoneCanBeEnded | src/net/lifecycle.rs:87-243 | every state of every run has a continuation after which every request has had exactly one end and its work is done as often as begun |
| LifecycleRuns.LateEventIffDeliveryUnderWay | src/net/lifecycle.rs:88-102 | an event can come after a request's end if and only if at the swap another call had passed its load and not yet delivered |
| LifecycleRuns.LateEventNeedsARace | src/net/lifecycle.rs:88-102 | over every run, if an observer was told something after an end, by a swap or a drop, then somewhere in the run a swap ended that request while another call had passed its load and not yet delivered |
| LifecycleRuns.LateEventHappens | src/net/lifecycle.rs:88-102 | a run from the start of a fetch in which an observer is told `Progress` after `Cancelled` |
| LifecycleEnds.OneEndForAllIffReportsAgree | src/net/lifecycle.rs:132-183 | over every run, from when an end is kept on, every request the fetch ends, early or late and whatever can still follow, is told a copy of that end if and only if each end reported later copies to it |
| LifecycleEnds.AgreeingReportsGiveOneEnd | src/net/lifecycle.rs:132-183 | over every run whose reports agree, every request the fetch ends is told a copy of the end it keeps |
| LifecycleEnds.LateJoinerIsToldTheKeptEnd | src/net/lifecycle.rs:132-146 | a request that joins once an end is kept, and has not ended, is told a copy of that end, and nobody else is told anything |
| LifecycleEnds.SecondReportReplacesTheEnd | src/net/lifecycle.rs:159-169 | after a further report a request that joins and has not ended is told a copy of the new end, whatever was kept before |
| LifecycleEnds.TwoReportsTwoEnds | src/net/lifecycle.rs:159-169 | a run from the start of a fetch in which two requests are told different ends |
| LifecycleObjects.Lifecycle.Accept | src/net/lifecycle.rs:42-62 | opens the request: work begun if there is any, one `Accepted`, not ended |
| LifecycleObjects.Lifecycle.OnEvent | src/net/lifecycle.rs:88-102 | a whole call tells a request that has not ended the event, and with an end finishes its work and signals; one that has ended is left alone |
| LifecycleObjects.Lifecycle.Drop | src/net/lifecycle.rs:235-243 | cancels a request that has not ended and finishes its work; otherwise nothing |
| LifecycleObjects.Shared.constructor | src/net/lifecycle.rs:123-128 | the leader is attached from the start and there is no end yet |
| LifecycleObjects.Shared.Attach | src/net/lifecycle.rs:132-146 | joins the list, or after the end tells the request a copy of it at once and leaves the list alone |
| LifecycleObjects.Shared.Detach | src/net/lifecycle.rs:149-151 | takes every handle of the request off the list and keeps the others |
| LifecycleObjects.Shared.OnEvent | src/net/lifecycle.rs:159-183 | for progress or an end each attached request that stands once in the list and has not ended has one event more in its log, the event itself for the last and a copy for the others, and with an end has ended and finished its work; anything else goes to the leader alone; an end is kept and empties the list |
| LifecycleObjects.EveryoneIsToldOnce | src/net/lifecycle.rs:159-183 | handing an event for all along any list gives each request that has not ended exactly one event more, a copy for all but the last, and an end ends it once however often it stands there |
| LifecycleObjects.UnbrokenReportTells | src/net/lifecycle.rs:159-183 | a report of the transition system whose calls nothing interleaves with tells progress and ends to every attached request, anything else to the leader, as the object's call does, and an end is kept and empties the list |
| LifecycleObjects.NothingAfterTheEnd | src/net/lifecycle.rs:1-10 | when calls do not overlap an observer sees `Accepted` and then exactly the events up to and with the first end |
| LifecycleObjects.UnbrokenCallTells | src/net/lifecycle.rs:88-102 | a call of the transition system run without a break does what one whole call of the object does, in one, two or four actions |
| QuotedString.ReadsWhatIsWritten | src/net/hsts.rs:183-192 | however a text is written as a quoted-string, with or without escapes, reading gives the text and what follows |
| QuotedString.WhatIsReadWasWritten | src/net/hsts.rs:183-192 | whatever is read was a way to write what came out of it |
| HstsParser.Directives | src/net/hsts.rs:156-209 | the loop over the shrinking remainder computes the parse, and ends |
| HstsParser.RenderedParses | src/net/hsts.rs:142-209 | every rendering of a directive list (any blanks, empty directives, tokens or quoted-strings with escapes) parses back to the list |
| HstsParser.ParsedWasWritten | src/net/hsts.rs:142-209 | whatever is accepted is a rendering of what is returned |
| HstsParser.ParsesExactlyTheGrammar | src/net/hsts.rs:142-209 | the parser is the grammar of section 6.1 of RFC 6797: a value parses to a list if and only if it is a way to write it |
| Hsts.ParseSts | src/net/hsts.rs:226-250 | succeeds if and only if the value is in the grammar, names no directive twice in any case, gives `max-age` digits and `includeSubDomains` no value; the policy is the one stated |
| Hsts.MaxAgeIsTheNumberWritten | src/net/hsts.rs:214-219 | a `max-age` is the number written, with any zeros before it, and the largest 64-bit number past that |
| Hsts.StatedOnce | src/net/hsts.rs:226-250 | a value states at most one policy |
| Hsts.IsKnownHost | src/net/hsts.rs:318-338 | the walk says yes if and only if the host without its trailing dots has an unexpired policy or some superdomain of two labels or more has an unexpired one with `includeSubDomains` (section 8.2 of RFC 6797) |
| Hsts.NoPolicyShadowsAnother | src/net/hsts.rs:300-338 | adding a policy for another host makes no known host unknown, so a nearer policy never shadows an ancestor |
| Hsts.StoredPolicyReachesSubdomains | src/net/hsts.rs:92-108 | a policy just stored makes its host known until it expires, and with `includeSubDomains` every host under it when it has two labels or more itself |
| Hsts.AdvertisedPolicyIsKnownUntilItsMaxAge | src/net/hsts.rs:260-338 | with no other policy held, the host of an advertised one is known until exactly its `max-age` has passed, and a subdomain as long if and only if `includeSubDomains` was said and the host has two labels |
| HstsHistories.HistoriesAreBounded | src/net/hsts.rs:58-108 | after any history of responses there are at most 4096 policies |
| HstsHistories.PolicyWasStatedLast | src/net/hsts.rs:252-299 | after any history every policy held was stated, flag and `max-age`, by the last response that concerned its host |
| HstsHistories.KnownHostWasStated | src/net/hsts.rs:252-338 | after any history a host is upgraded only because the last response to concern it or a superdomain of two labels or more stated a policy in force there, the latter with `includeSubDomains` |
| Hsts.InMemoryHstsStore.Store | src/net/hsts.rs:92-108 | keeps at most 4096 entries: only a new host at the limit loses any, and then all that have expired, or if there is none one alone that expires no later than any other |
| Hsts.InMemoryHstsStore.Load | src/net/hsts.rs:88-90 | gives the entry stored for exactly that host |
| Hsts.InMemoryHstsStore.Remove | src/net/hsts.rs:110-112 | removes exactly that host's entry |
| Hsts.Record | src/net/hsts.rs:260-299 | an HTTPS response from a domain whose first header field states a policy leaves the host with expiry at now plus its `max-age`, a century at most, and its `includeSubDomains`, or removes the host for `max-age` zero; any other leaves every policy as it was |
| Hsts.EffectIsDetermined | src/net/hsts.rs:260-299 | a response has only one right effect on the policies |
| AuthChallenges.Unquote | src/net/auth.rs:591-604 | the loop and its shortcut both drop each backslash and keep the character after it |
| AuthChallenges.ParamReadBack | src/net/auth.rs:570-588 | name, `=` and token or quoted value with whitespace around them are read back as that parameter, the name in lower case |
| AuthChallenges.ParseChallengeList | src/net/auth.rs:527-565 | the loop over the elements computes the parse |
| AuthChallenges.SpelledListParses | src/net/auth.rs:516-565 | every spelling of a list of elements (whitespace, empty elements, bare schemes, token68, parameters as tokens or quoted-strings) is read as the challenges it says |
| AuthChallenges.PrintedChallengesParse | src/net/auth.rs:516-604 | printing any list of challenges and parsing it gives the list back, whatever the values, though one comma separates challenges and parameters |
| AuthChallenges.ParsedChallengesAreShaped | src/net/auth.rs:527-588 | for any header text a scheme is one non-empty word, parameter names are lower-case tokens and a token68 is not empty |
| CredentialStores.JoinedCovers | src/net/auth.rs:424-447 | a directory that joins covers everything at or under it and loses no covered path, unless the bound of eight pushes out a directory that has nothing to do with it |
| CredentialStores.JoinedPrefixFree | src/net/auth.rs:351-357 | the directories stay at most eight and none covers another |
| CredentialStores.DirectoriesStandInOrder | src/net/auth.rs:424-447 | over every history the directories of a space stand in the order in which they came to be held |
| CredentialStores.LongestHeldIsPushedOut | src/net/auth.rs:437-446 | the directory a ninth pushes out is the one held for longest, and the others stay in order with the new one last |
| CredentialStores.EveryRunIsWellFormed | src/net/auth.rs:332-357 | over every history at most 256 spaces, different stamps, at most eight prefix-free directories each |
| CredentialStores.FullStoreForgetsTheOldest | src/net/auth.rs:389-418 | a full store makes room for a new space by forgetting exactly the one whose last store is longest ago, and changes no other |
| CredentialStores.RememberedDirectoryWasAccepted | src/net/auth.rs:389-447 | over every history a remembered directory is one where the very credentials held were accepted, held without a break since, for `Basic` from a server only |
| CredentialStores.AcceptanceIsRemembered | src/net/auth.rs:424-447 | accepting changes only that space's directories, and says exactly which paths they cover afterwards |
| CredentialStores.AcceptedIsOffered | src/net/auth.rs:424-473 | right after user and password were accepted at a path they are offered upfront to their origin for every path under its directory |
| CredentialStores.AcceptedIsOfferedWhileKept | src/net/auth.rs:389-473 | through any calls that follow they stay offered for such a path if and only if each call leaves the space those credentials and does not push out the only directory that covers the path |
| CredentialStores.SparingKeepsOffer | src/net/auth.rs:389-447 | storing the same credentials, storing elsewhere with room, forgetting another space and accepting without pushing a directory out all leave the offer |
| CredentialStores.NinthDirectoryEndsAnOffer | src/net/auth.rs:437-446 | a ninth directory that ends the offer for a path under the first |
| CredentialStores.ForgettingEndsTheOffer | src/net/auth.rs:420-422 | forgetting a space ends every offer of it |
| CredentialStores.UpfrontFor | src/net/auth.rs:449-473 | sends only a user and password of a `Basic` server space of that origin, below a directory where they were accepted, the deepest such directory deciding; nothing if and only if there is none |
| CredentialStores.InMemoryCredentialStore.constructor | src/net/auth.rs:361-363 | starts empty |
| CredentialStores.InMemoryCredentialStore.Store | src/net/auth.rs:389-418 | stores with a new stamp, evicting the least stamp when full, and keeps directories only for the same credentials |
| CredentialStores.InMemoryCredentialStore.Forget | src/net/auth.rs:420-422 | forgets exactly that space |
| CredentialStores.InMemoryCredentialStore.AcceptedAt | src/net/auth.rs:424-447 | adds the directory of the path to a known space's list, as `Joined` says |
| CredentialStores.InMemoryCredentialStore.CredentialsFor | src/net/auth.rs:382-387 | gives the credentials stored for exactly that space |
| CredentialStores.InMemoryCredentialStore.Clear | src/net/auth.rs:376-378 | forgets everything |
| CredentialStores.DirectoryOf | src/net/auth.rs:325-328 | the path up to and with its last slash, or `/` for a path without one |
| Base64.Encode | src/net/auth.rs:613-637 | the loop over chunks of three computes the groups of four |
| Base64.SixBitsAtATime | src/net/auth.rs:613-637 | the bits of each group of bytes, six at a time, are the letters of the group |
| Base64.EncodedDecodes | src/net/auth.rs:613-637 | a strict decoder gives every byte string back |
| Base64.DecodedEncodes | src/net/auth.rs:613-637 | every text the strict decoder takes is the encoding of what it gives |
| Base64.EncodedShape | src/net/auth.rs:613-637 | four characters for every three bytes begun, from the alphabet but for one or two `=` at the end as the length has it |
| BodyTop.ReadTop | src/net/fetch.rs:1169-1320 | the peek loop, its waits and both size checks give the top, each chunk is counted as the peek so far, and what counts as delivered is the peek |
| BodyTop.PeekCountsRise | src/net/fetch.rs:1237-1245 | the counts reported while peeking never go back |
| BodyTop.PeekCutsTheBody | src/net/fetch.rs:1181-1285 | for any chunking peek, excess and rest in a row are the body, the peek as long as the window or the body; with reads enough the top gets ready |
| BodyTop.ReadRest | src/net/fetch.rs:1591-1645 | the read loop of a complete fetch with its timers and its check after each read |
| BodyTop.ReadsAllOrRefuses | src/net/fetch.rs:1591-1645 | what is read is all there is, within the maximum if anything was read; what is refused is over it; with reads enough one of the two happens |
| BodyTop.FetchComplete | src/net/fetch.rs:1557-1649 | top and rest put together |
| BodyTop.FetchedBodyIsWholeAndWithinMaximum | src/net/fetch.rs:1557-1649 | a complete fetch off the network gives the whole body and never more than the maximum, refuses for size only a body or a declared length over it, and decides by these alone however the body is chunked |
| BodyTop.TopFailsByItsFirstStop | src/net/fetch.rs:1181-1285 | the top is refused with an error only for the first wait that a timer or the cancellation won, with that error, or for the stream's own; it is ready or waited for only by reads |
| BodyTop.RestFailsByItsFirstStop | src/net/fetch.rs:1591-1645 | the rest fails only by the first wait lost, with its error, or by the stream, and goes on only by reads |
| BodyTop.FetchFailsByItsFirstStop | src/net/fetch.rs:1557-1649 | a complete fetch fails, but for size, only with the stream's error or that of the first wait lost: a read or total timeout, or a cancellation of the peek or of the read |
| BodyTop.StoredBodyIsHeldToMaximumPastThePeek | src/net/fetch.rs:1063-1122 | a stored body is refused if and only if it is over the maximum and does not fit the peek window |
| BodyTop.StoredBodyOverTheMaximum | src/net/fetch.rs:1063-1122 | an input on which the maximum does not hold |
| ProgressReaders.ProgressReader.constructor | src/net/fetch.rs:1384-1408 | starts at what was already received, with nothing reported |
| ProgressReaders.ProgressReader.PollRead | src/net/fetch.rs:1458-1529 | what one poll counts and reports, cancelled before, during or not, with the three flags saying what the log holds |
| ProgressReaders.ProgressReader.Drop | src/net/fetch.rs:1435-1454 | reports an end if none was: finished if the declared length arrived, else cancelled |
| ProgressReaders.EndsOnceUnlessPolledIntoBoth | src/net/fetch.rs:1435-1529 | over any polls and the drop exactly one end is reported if and only if no poll went past an end or failure into the other; otherwise two |
| ProgressReaders.PollReportsWhatItComesTo | src/net/fetch.rs:1458-1529 | each poll reports the count of all bytes so far when it gives some, else the end it comes to unless one of that kind was reported, or for a cancellation any |
| ProgressReaders.DropReportsWhetherAllArrived | src/net/fetch.rs:1435-1454 | letting go of a reader that came to no end reports it finished if and only if a declared length has arrived, and cancelled otherwise; after an end nothing |
| ProgressReaders.PolledIntoBoth | src/net/fetch.rs:1487-1499 | polls that get two ends reported |
| ProgressReaders.CountsNeverGoBack | src/net/fetch.rs:1500-1511 | the count is what was received before and all bytes given since, and the counts reported lie between the two and never go back |
| ProgressReaders.WholeFetchNeverGoesBack | src/net/fetch.rs:1237-1320 | the counts reported while peeking, then by the reader, which starts at what was delivered with the top, and last by letting go of it, never go back |
| Pump.Run | src/net/pump.rs:70-229 | over any events and file faults: the calls the shared body gets, the outcome, which is saved or done only after an empty read before any failure, and the destination written exactly when the run says saved, with peek and all that was received |
| Pump.Transfer | src/net/pump.rs:145-205 | the loop ends as the first event that can end it says, pushes every chunk whatever the file does, and leaves nothing in its read buffer |
| Pump.RunEndsByItsFirstEnd | src/net/pump.rs:145-227 | the first event that is not bytes decides: an empty read tells subscribers the end and leaves the file to its first fault, a read error, a timer or a cancellation tells subscribers and caller that very error |
| Pump.RunGoesOnWhileBytesCome | src/net/pump.rs:97-205 | while bytes come they are pushed and the run goes on; a run for a file alone that cannot be set up fails with that |
| Pump.WriteToFile | src/net/pump.rs:233-252 | writes while the writes succeed and keeps the first failure |
| Pump.Conclude | src/net/pump.rs:207-227 | with a file asked for and no failure there is always a writer, and only a rename that succeeds changes the destination |
| Pump.SubscribersSeeTheBody | src/net/pump.rs:58-229 | at any moment subscribers hold a prefix of peek and source, are told of one end at most, after all of it, and exactly when the transfer ended |
| Pump.SavedMeansNothingFailed | src/net/pump.rs:60-66 | saved if and only if the source ended cleanly and no setup, write, flush or rename failed; a run with a file never ends as one without |
| Pump.ChunkingDoesNotMatter | src/net/pump.rs:70-229 | body and outcome do not depend on how the source cuts its bytes, as long as no single write fails |
| BodyCapture.CapturingBody.constructor | src/net/body_capture.rs:35-54 | seeds the capture with the prefix up to the limit |
| BodyCapture.CapturingBody.Absorb | src/net/body_capture.rs:56-68 | copies a chunk as far as the budget goes |
| BodyCapture.CapturingBody.Report | src/net/body_capture.rs:70-80 | reports once |
| BodyCapture.CapturingBody.PollNext | src/net/body_capture.rs:89-107 | hands every answer on as it came and copies or reports beside it |
| BodyCapture.CapturingBody.Drop | src/net/body_capture.rs:113-118 | an early drop reports what there is as truncated |
| BodyCapture.CapturesUntilTheEnd | src/net/body_capture.rs:56-80 | until the end the capture is the first bytes of the body up to the limit, captured and remaining add up to the limit, and truncated is set exactly when more came |
| BodyCapture.ExactlyOnePreview | src/net/body_capture.rs:83-118 | over any polls and the drop there is exactly one preview: the first bytes of the body, truncated if and only if the body was left early or came to more |
| BodyCapture.CameToMoreMeansLonger | src/net/body_capture.rs:56-68 | without empty chunks, more came exactly when the body is longer than the limit |
| BodyCapture.EmptyChunkMarksTruncated | src/net/body_capture.rs:57-60 | an input on which a body that fits is marked truncated |
| Cors.DecimalGreaterIsNumeric | src/net/cors.rs:197-201 | the comparison of digit strings is that of the numbers, for any lengths and leading zeros |
| Cors.SafelistedRangeIsOneRange | src/net/cors.rs:172-189 | a range value is safelisted if and only if it is `bytes=m-` or `bytes=m-n` with `m` no more than `n` as numbers |
| Cors.SafelistedAsItsArmSays | src/net/cors.rs:142-193 | a field is safelisted if and only if its value has at most 128 bytes and it is `accept` without unsafe bytes, a language field of language bytes, a `content-type` without unsafe bytes whose type is one of three in any case with blanks and parameters, or a `range` of one range |
| Cors.UnsafeRequestHeaderNames | src/net/cors.rs:285-306 | the list is ascending, holds each name once, and holds exactly the names that need approval under the 1024-byte rule |
| Cors.AddingALineRemovesNoName | src/net/cors.rs:285-306 | a field line more, wherever it stands, takes no name off the list |
| Cors.OrderOfLinesDoesNotMatter | src/net/cors.rs:285-306 | the names depend on which lines there are, not on their order |
| Cors.AscendingListIsItsNames | src/net/cors.rs:303-305 | an ascending list is determined by its names, so the same names give the same list |

## Left out

- Sockets, TLS, DNS, timers, spawned work and file system calls: only what they come out with is modelled, as the events and faults a run is given.
- Scheduler, slots, retries, redirect chains, the in-flight map, the preflight cache and the cache collector are not part of this model.
- The inside of `SharedBody` (its subscribers, queues and replay limit): the pump is proved against the calls it makes to it.
- `is_storable`, `contradicted_by`, `changed_per_head`, `effective_mode`, `invalidates`: branch tables that a reading settles.
- HTTP-date parsing and formatting: a function parameter; nothing is assumed of it.
- Heuristic freshness takes a tenth of whole seconds by integer division, where the source multiplies an `f64` and truncates.
- Overflow: clocks, byte counts and stamps are unbounded, and the checked addition of an HSTS expiry to the present time cannot fail here.
- The limit on the length of a header name and on the number of fields of a header map.
- `peer_addr` of a cache entry; the URL of a cache key is a string without a fragment.
- Relaxed-memory effects of `DashMap` and of the credential store's clock: those stores are sequential classes.
- The lifecycle's transition system has one `Shared`; what other fetches report to a request appears as calls made by whoever holds it, and memory orderings are taken as sequentially consistent.
- Which of several equally deep spaces `UpfrontFor` picks and which of several equally soon HSTS entries goes depends on hash order in the source, and is left open here.
- Parsing of URLs and of `HeaderMap`s; whether a host is a domain or an address is given.
- `Credentials::header_value`, `AuthScheme::parse`, `protection_space`: short tables around the parts modelled.
- Decoders of content codings, mixed content, referrer policy, `Origin` and `Sec-Fetch-*` fields, port blocking, wasm stubs, event and type declarations.
- CORS checks of responses, exposed headers and `parse_token_list`.
- Unfinished and Waiting outcomes stand for a run whose script of waits is over while the source would still wait.
- Pump.ChunkingDoesNotMatter: is stated for files whose single writes do not fail, because a failing write is known by its number and chunking changes the numbers.
