# Verified model of the core state machines

A Dafny 4.11 model of the five stateful cores of the service, with proofs that
hold over every input and every run: the provider item registry and its title
matching, the delivery engine with its relay and stream policy, the source
cache and the library derived from it, request pacing and backoff, and the
per-field metadata merge with its alias cache.

`dafny verify dfyconfig.toml` checks the whole project.

## How it is built

Each stateful core has two layers. A value-level specification gives the state
as a datatype and each operation as a function from state to state
(`RegistrySpec.Next`, `DeliverySpec.Step`, `MetadataCache.Step`,
`Derivation.Declared`, `Slots.Slot`). A class has the Go struct's fields and
methods whose bodies take the code's own steps (the listing and search loops,
the paging loop, the kill loops, the nested derivation loop, the retry loop);
every method is proved to move the class exactly as the specification says.
The theorems about whole runs are lemmas about the specification, so they hold
of the methods.

| files | what they cover |
|---|---|
| `Keys`, `Decimal`, `Strings` | percent-escaped store keys, exact prefix listings, decimal numbers, sorting |
| `Identity`, `Claims` | the merge rule, screening, adoption, identity proofs, claim and string unions |
| `Registry`, `ItemRegistry`, `RegistryRuns` | the registry's state machine, its class, and its runs |
| `Policy`, `Relay`, `Delivery`, `Engine`, `DeliveryRuns` | stream limits, relay tickets, the engine's state machine, its class, and its runs |
| `Slots`, `Pacing`, `Gate`, `Backoff` | slot reservation, limiter and governor, the paced call, shift-based backoff |
| `SourceCache` | paged sync, reconciliation, ingest and refresh |
| `Derivation`, `Library` | the declared library, the fold that computes it, the user cache and its invalidation |
| `SyncedLibrary` | a sync and the cached libraries that hear of it through events |
| `Enrichment`, `MetadataCache` | the per-field merge and the record and alias cache |

Conventions. A Go string is a `string` with one char per byte; `Bytes()` and
`IsBytes` say that every char is a byte, which every Go string satisfies.
`NormalizeTitle` is any fixed total function on titles. The store's `List`
returns exactly the keys with the given prefix. Time is an integer number of
nanoseconds handed to each method. A random id is any id not in use. Each
exported method is one atomic step. The registry keeps a ghost history of its
resolutions, and its `Valid()` says that its contents are what that run of the
specification yields; what the source cache resolves is stated over it.

## What the proofs found

* **Duplicates change a proof.** The comment on `SameProof`
  (`core/internal/identity/proof.go:31-34`) says duplicates are ignored;
  `sameIDSet` compares sorted lists. A list is compared as a set, with every
  list free of repetition, if and only if it is free of repetition itself
  (`DuplicatesIgnoredIff`, pair by pair in `SameIdsIff`); appending ids changes
  the proof if and only if one of them is asserted, repeated or not
  (`AppendedIdsChangeProof`).
* **A claim can be lost to a NUL byte.** Claims are keyed by namespace, NUL,
  value. Every asserted id becomes a claim exactly when no two different ids
  involved share a key (`LiteralClaimsIff`), which holds whenever no namespace
  contains a NUL (`NulFreeKeysSeparate`) and fails for the family in
  `IdKeyCollision` (`CollidingIdIsDropped`).
* **A refresh is not all-or-nothing.** `RefreshItems` validates each item as it
  lands, although its comment (`core/internal/sourcecache/sourcecache.go:271-272`)
  says a violation reconciles nothing: a violation at item k leaves the k items
  before it cached and mapped (`RefusedRefreshWrites`). The account's rows stay
  as they were if and only if all of those were cached already just so, and
  whatever the cache if and only if the first item is the one that violates the
  contract (`RefreshItems`, `UnchangedIff`). A new item named twice in one answer
  loses its arrival event (`ArrivalIffNewAndNamedOnce`).
* **A failed sync can change identities.** The comment on the item resolver
  (`core/internal/sourcecache/sourcecache.go:92-95`) promises that a sync lands
  whole or changes nothing identity-related; pages landed before a failure are
  resolved already (`FailedSyncResolves`). A run leaves the registry as it was if
  and only if every item it landed was settled there before (`SyncAccount`).
* **A silent sync can leave a library stale.** Cached libraries hear of a sync
  through availability events alone. Whatever a sync does to rows and registry,
  the libraries left in the cache stay correct if and only if none of them shows
  an item that came, went or moved, an entry whose face changed, or a verdict that
  flipped (`SyncKeepsLibraries`). When a successful sync moves no item to another
  entry and changes no entry, that is: if and only if it announces some change or
  flips no shown verdict. An item that stays and no longer asserts its
  corroborating id flips one, and nothing announces it (`SilentSyncGoesStale`).
* **The concurrency cap needs an unpaced budget.** `Limiter.Allow` does not look
  at `MaxConcurrent` again after a rate wait. The cap holds in every reachable
  scene if and only if the budget imposes no positive interval
  (`ConcurrencyBoundIff`); with one, any number of requests get in.
* **A failed start can keep its slot.** `Start` reports a staging failure if and
  only if the request was admitted and its play menu cannot be staged: a located
  track without an id on a device sink, which manifest validation lets through
  (`BlankTrackFailsStaging`), or another sink's refusal. The session is admitted
  and active all the same, and the member's next start is refused for it
  (`FailedStartHoldsSlot`).
* **The sweep leaves tickets behind.** Every other way to end a session drops
  exactly its relay tickets (`TicketsDieWithSessions`); a sweep does so if and
  only if no ticket belongs to a session it removes (`SweepDropsTicketsIff`,
  with an input in `SweepLeavesTickets`), and no later operation collects what
  it left (`OrphansStay`).
* **A movie contribution can erase a series count, and the reverse.** A merge
  keeps every value it does not take over if and only if the two sides do not
  clash over the kind-specific part (`KeepsUntakenIff`).
* **The governor's doubling is exact for its own constants, not for all.** One
  delay is the capped doubling if and only if its product fits an int64 or the
  wrapped shift is not a positive number below the cap (`DelayExactIff`); all
  delays are if and only if that holds of the first 64 shifts, a check on base
  and cap alone (`AlwaysExactIff`). `DelayInexactInGeneral` is a base and cap
  that fail it.

## Model

| member | source | states |
|---|---|---|
| Keys.EscapeRoundTrip | core/internal/itemregistry/registry.go:621 | unescaping an escaped path segment gives the segment back, for every byte string (section 2.1 of RFC 3986) |
| Keys.EscapeKeepsPlain | core/internal/itemregistry/registry.go:621 | a segment stays as it is iff all its bytes are letters, digits or one of `-_.~$&+:=@` |
| Keys.PrefixIsDirectory | core/internal/itemregistry/registry.go:623-647 | over slash-free segments, a key starts with a directory's prefix exactly when the directory's segments are a proper prefix of the key's |
| Keys.RenderInjective | core/internal/itemregistry/registry.go:623-647 | no two of the registry's mapping, alias, entry, conflict, title-index and id-index keys collide |
| Keys.ExternalIdListing | core/internal/itemregistry/registry.go:645-647 | listing an external id's prefix hits exactly the rows of that namespace and value, and no other key of the registry |
| Keys.TitleListing | core/internal/itemregistry/registry.go:641-643 | listing a title and kind hits exactly their rows, and no other key of the registry |
| Keys.IndexRowTail | core/internal/itemregistry/registry.go:650-655 | the last path segment of an index key is the entry id it was written for |
| Decimal.AtoiOfItoa | core/internal/policy/policy.go:109-116 | every Go int survives formatting and parsing, as the kind segments and stream limits rely on |
| Strings.SortDecides | core/internal/identity/proof.go:48-70 | two sorted lists are equal exactly when the originals are equal as multisets |
| Strings.LeqMeaning | core/internal/delivery/delivery.go:561-569 | the string order is the one of bytes: at the first place of difference the lower string ends or holds the lower byte |
| Identity.DecideMeaning | core/internal/identity/match.go:88-208 | in the items' own fields: two items of one known kind merge iff both assert an id, or some title of each has one non-empty normal form, movies have one known year, and they share a director, a cast member, the known language or the known runtime; a heuristic verdict names the first of these that is shared |
| Identity.MergeKeepsYearAndKind | core/internal/identity/match.go:88-108 | whatever merges is of one known kind, and movies that merge without a shared id have one known year |
| Identity.DecideSymmetric | core/internal/identity/match.go:88-208 | the verdict does not depend on which item is named first |
| Identity.ScreeningKeepsHeuristicMatches | core/internal/identity/select.go:25-66 | screening summaries drops a heuristic match exactly when the two sides assert contradicting ids |
| Identity.ScreenedMeaning | core/internal/identity/select.go:25-66 | a summary passes the gates iff kind, some title and, for movies, the known year agree and no two ids of one namespace differ |
| Identity.Screen | core/internal/identity/select.go:25-46 | returns, in order, exactly the candidates that pass the summary gates; each is of the entry's kind and, for movies, of its known year |
| Identity.Adopt | core/internal/identity/select.go:107-136 | picks a candidate iff it is the only id-corroborated one, or none is corroborated and it is the only one that merges; there is at most one such candidate, and it abstains exactly when there is none |
| Identity.AdoptEquivariant | core/internal/identity/select.go:107-136 | rearranging the candidates rearranges with them which one, if any, may be adopted; with the pick unique, their order decides nothing |
| Identity.SameIdSet | core/internal/identity/proof.go:48-70 | compares the asserted ids as a multiset of keys, by collecting, sorting and comparing |
| Identity.SameProofMeaning | core/internal/identity/proof.go:31-70 | with NUL-free namespaces two proofs are the same iff kind, year and normalized title are and every whole id is asserted equally often |
| Identity.SameProofIsEquivalence | core/internal/identity/proof.go:41-46 | sameness of proofs is reflexive, symmetric and transitive |
| Identity.SameIdsIff | core/internal/identity/proof.go:31-70 | equal proofs assert the same set of ids; of two lists with the same set, one free of repetition, the proofs are equal iff the other is free of repetition too |
| Identity.DuplicatesIgnoredIff | core/internal/identity/proof.go:31-70 | a list is compared as a set with every repetition-free list iff it is repetition-free itself: exactly when the promise to ignore duplicates is met |
| Identity.SameIdsAsSets | core/internal/identity/proof.go:31-70 | on lists without repetition the comparison is set equality, as promised |
| Identity.AppendedIdsChangeProof | core/internal/identity/proof.go:31-70 | appending ids to any list changes the proof iff one of them is asserted, though the set stays the same when all were there before |
| Identity.RepeatedIdChangesProof | core/internal/identity/proof.go:31-70 | the input at which the promise fails: any list with any of its asserted ids once more |
| Identity.IdKeyInjective | core/internal/itemregistry/registry.go:137 | ids whose namespaces hold no NUL never share a key |
| Identity.IdKeyCollision | core/internal/itemregistry/registry.go:137 | every split of a three-part name at its two NULs gives two different asserted ids with one key |
| Claims.MergeClaims | core/internal/itemregistry/registry.go:680-703 | the indexed loop computes the union claim by claim, suppliers added once and sorted |
| Claims.UnionClaimsGuarantee | core/internal/itemregistry/registry.go:680-703 | claims keep their place and only gain suppliers, every asserted id's key is listed with its supplier, and every supplier listed was there before or asserted the key just now |
| Claims.LiteralClaimsIff | core/internal/itemregistry/registry.go:680-703 | every asserted id ends up as a claim of its own iff the ids involved have separate keys |
| Claims.NulFreeKeysSeparate | core/internal/itemregistry/registry.go:137 | NUL-free namespaces are enough for that |
| Claims.CollidingIdIsDropped | core/internal/itemregistry/registry.go:680-703 | of two different ids with one key, the second leaves no claim |
| Claims.MergeStrings | core/internal/itemregistry/registry.go:716-733 | the loop over directors or cast computes the union in order |
| Claims.UnionStringsMembers | core/internal/itemregistry/registry.go:716-733 | the union keeps the old list as its beginning and has exactly the members of both |
| ItemRegistry.BucketsAreCorroboration | core/internal/itemregistry/registry.go:478-523 | in a state with a sound index, an entry has a row in one of the item's id buckets exactly when entry and item share an asserted id |
| ItemRegistry.BucketVerdict | core/internal/itemregistry/registry.go:478-536 | entries found in id buckets merge exactly when they are corroborated, so a bucket hit of the same kind decides |
| ItemRegistry.HeuristicMergeInTitleBucket | core/internal/itemregistry/registry.go:478-523 | every entry that merges on heuristics alone has a row in the item's title bucket |
| ItemRegistry.Registry.List | core/internal/store/store.go:50-52 | a listing returns exactly the stored index keys with the prefix |
| ItemRegistry.Registry.FirstMerging | core/internal/itemregistry/registry.go:496-536 | walks the candidates in order and returns one that merges, or none if none does |
| ItemRegistry.Registry.FindTarget | core/internal/itemregistry/registry.go:478-536 | the index search agrees with a scan of every entry: none is found iff no stored entry merges, and a corroborated one is returned whenever a same-kind entry shares an id |
| ItemRegistry.Registry.Absorb | core/internal/itemregistry/registry.go:542-587 | the entry's claims, directors and cast become the unions, language and runtime are learned if unknown, its index rows are written, and nothing else changes |
| ItemRegistry.Registry.Mint | core/internal/itemregistry/registry.go:382-405 | a new entry under an unused id holds the item's kind, title, year, language, runtime and exactly its people, with the provider as supplier of its ids, and has its index rows |
| ItemRegistry.Registry.Remap | core/internal/itemregistry/registry.go:413-441 | a changed mapping writes the alias of the generation it ends, bumps the generation, and records and announces a conflict iff the entry changed |
| ItemRegistry.Registry.Resolve | core/internal/itemregistry/registry.go:354-441 | rejects exactly the unnamed, untitled, kindless or half-identified; otherwise changes nothing on unchanged material, and else joins an entry the item belongs to by its own fields, one sharing an id if any does, or founds one with the item's material when it belongs to none; status, generation, alias, conflict and announcement follow; the registry stays the outcome of its history |
| ItemRegistry.Registry.Lookup | core/internal/itemregistry/registry.go:446-458 | a blank provider or native id is an error; otherwise the mapped entry of the item, iff it has one |
| ItemRegistry.Registry.Alias | core/internal/itemregistry/registry.go:463-472 | answers for generation g the entry of the item's g-th identity work, as long as a later one superseded it, and nothing otherwise |
| RegistrySpec.MergesIffBelongs | core/internal/itemregistry/registry.go:478-587 | the merge rule holds between item and stored entry iff they are of one known kind and share an asserted id, or their titles, movie years and one signal agree |
| RegistrySpec.NextKeepsInv | core/internal/itemregistry/registry.go:354-441 | every resolution keeps the index sound in both directions, every mapping on a stored entry of its proof's kind that claims the proof's ids from the mapping's provider, and the aliases below the current generation |
| RegistrySpec.NextGrowsEntries | core/internal/itemregistry/registry.go:542-587 | no resolution deletes an entry, changes its kind, title or year, or takes away a claim, supplier, director or cast member |
| RegistryRuns.ReachableInv | core/internal/itemregistry/registry.go:354-441 | the invariant holds after every run of resolutions |
| RegistryRuns.EntriesOnlyGrow | core/internal/itemregistry/registry.go:542-587 | over any run, entries are never deleted, keep kind, title and year, and only gain |
| RegistryRuns.FoundedByFirst | core/internal/itemregistry/registry.go:382-405 | over any run an entry's kind, title and year are those of the item of the first call settled on it, the one that created it |
| RegistryRuns.PeopleExact | core/internal/itemregistry/registry.go:542-587 | over any run somebody is among an entry's directors or cast iff some call that brought it material named them there |
| RegistryRuns.SignalsAreFirstKnown | core/internal/itemregistry/registry.go:542-587 | over any run an entry's language and runtime are the first known ones among the calls that brought it material |
| RegistryRuns.EntriesListOnce | core/internal/itemregistry/registry.go:680-733 | over any run no person, claim key or supplier of an entry is listed twice |
| RegistryRuns.ProvenanceExact | core/internal/itemregistry/registry.go:674-703 | after any run an entry lists a provider for an id's key iff some call of that provider asserting the key was settled on that entry |
| RegistryRuns.ProofIdsAreClaims | core/internal/itemregistry/registry.go:382-441 | with NUL-free namespaces, every id of a mapping's proof is literally a claim of its entry, with the mapping's provider among the suppliers |
| RegistryRuns.HistoryConserved | core/internal/itemregistry/registry.go:413-441 | aliases followed by the current mapping are exactly the sequence of entries the item was placed on |
| RegistryRuns.AliasesAreSuperseded | core/internal/itemregistry/registry.go:463-472 | aliases exist for exactly the generations before the current one |
| RegistryRuns.AliasIsPlacement | core/internal/itemregistry/registry.go:413-472 | each alias names the entry its generation was placed on |
| RegistryRuns.AliasesArePermanent | core/internal/itemregistry/registry.go:463-472 | an alias once written never changes or disappears |
| RegistryRuns.ConflictsCountChanges | core/internal/itemregistry/registry.go:749-766 | an item has as many conflict records as there are adjacent changes in its history |
| RegistryRuns.OthersLeaveItAlone | core/internal/itemregistry/registry.go:354-441 | resolving other items never moves an item's mapping |
| RegistryRuns.ResolveAgain | core/internal/itemregistry/registry.go:362-374 | after any interleaving of other items' resolutions, resolving the same item again is unchanged, returns the same entry and leaves the store as it was |
| RegistryRuns.QuietIffSameMaterial | core/internal/itemregistry/registry.go:362-374 | over any run a resolution is a pure lookup iff the last identity work for its item was done on the same kind, year, normalized title and ids; it answers that work's entry |
| RegistryRuns.UnchangedIffSettled | core/internal/itemregistry/registry.go:354-441 | any stretch of resolutions leaves the registry as it was iff every accepted item's stored proof matched before the stretch |
| Policy.EffectiveLimitMeaning | core/internal/policy/policy.go:94-132 | a count stays below the effective limit iff some limit is set and it is below the overlaid policy's and the provider's, whichever are set; the overlay wins where it speaks |
| Policy.LimitFromText | core/internal/policy/policy.go:94-132 | on the sets' own texts: the override's ceiling replaces the default's, and a further session fits iff a ceiling is left and the count is below the policy's and the provider's, whichever there are |
| Relays.Relay.Grant | core/internal/delivery/relay.go:65-82 | a grant needs a session, a track and a positive lifetime, and adds one ticket under a new token |
| Relays.Relay.Open | core/internal/delivery/relay.go:103-125 | a token opens its ticket exactly until it expires |
| Relays.Relay.Revoke | core/internal/delivery/relay.go:140-148 | drops every ticket of the session and no other |
| Engine.Engine.CountActive | core/internal/delivery/delivery.go:325-340 | the admission loop counts exactly the member's and the account's active sessions |
| Engine.Engine.StageMenu | core/internal/delivery/delivery.go:356-376 | staging grants tickets for located tracks in order and succeeds iff every located track has an id; afterwards every such track has a token |
| Engine.Engine.Start | core/internal/delivery/delivery.go:228-380 | one condition per outcome, each iff and in the fields of sessions and request: rejected, sink failed, member at its cap, account at its limit, staging failed, started; an admission stores one running session under the next id, a refusal reports the queued and running sessions it met and stores none, a staging failure leaves the session admitted |
| Engine.BlankTrackFailsStaging | core/internal/delivery/delivery.go:750-767 | a located track without an id fails staging, and manifest validation lets it through |
| Engine.StagingFailsMeaning | core/internal/delivery/device.go:59-85 | a play menu cannot be staged iff some located track has no id on a device sink, or another sink refuses |
| Engine.FailedStartHoldsSlot | core/internal/delivery/delivery.go:356-376 | after a start that failed in staging, the member with one stream is refused the next start |
| Engine.Engine.Beat | core/internal/delivery/delivery.go:405-420 | only the owning member's heartbeat on a queued or running session is taken, and changes nothing but its time; unknown, foreign and ended sessions are told apart |
| Engine.Engine.ReportProgress | core/internal/delivery/delivery.go:424-439 | only a percentage up to 100 on a queued or running session counts, and changes nothing but its time |
| Engine.Engine.Finish | core/internal/delivery/delivery.go:592-608 | completion marks the session done whatever its status and changes no other, drops its tickets and leaves the index alone; an unknown id is reported |
| Engine.Engine.Revoke | core/internal/delivery/delivery.go:445-469 | ends every session indexed under the key, drops their tickets and the index row, and counts them |
| Engine.Engine.RevokeAllOnAccount | core/internal/delivery/delivery.go:477-495 | ends every session on the account id, whatever its provider or member |
| Engine.Engine.RevokeOthersOnAccount | core/internal/delivery/delivery.go:502-527 | ends exactly the account's active sessions of members not kept |
| Engine.PrefixIsOldest | core/internal/delivery/delivery.go:556-568 | the first k of the active sessions sorted by start and id are the k oldest |
| Engine.Engine.EvictExcess | core/internal/delivery/delivery.go:535-589 | ends exactly the oldest sessions beyond the limit and counts them |
| Engine.Engine.ApplyAccountCap | core/internal/delivery/delivery.go:535-589 | without enforcement changes nothing; with it, over any effective limit that is not negative, leaves min(active, limit) sessions of the account queued or running, each started after every one revoked or together with it under a higher id in byte order, and changes no other session |
| Engine.Engine.SweepOnce | core/internal/delivery/delivery.go:652-691 | removes exactly the active sessions past their allowance or lifetime from map and index, and leaves the relay alone |
| DeliverySpec.StepKeepsInv | core/internal/delivery/delivery.go:322-691 | every operation keeps: actives indexed under their own key, indexed ids stored with that key, members within the instance limit, tickets of stored sessions only on active ones |
| DeliveryRuns.ReachableInv | core/internal/delivery/delivery.go:228-691 | that invariant holds after every run |
| DeliveryRuns.AdmissionWithinLimits | core/internal/delivery/delivery.go:322-352 | an admission leaves its account within the limit then in force and its member within the instance limit, and changes no other session's activity |
| DeliveryRuns.NeverReactivated | core/internal/delivery/delivery.go:405-691 | no run makes an inactive session active again |
| DeliveryRuns.RevokeAccountIsExact | core/internal/delivery/delivery.go:445-469 | the index-driven revocation revokes every queued or running session under the key and changes none under another |
| DeliveryRuns.RevokeAllIsExact | core/internal/delivery/delivery.go:477-495 | the specification read per session: every session on the account id is revoked, and no other changes |
| DeliveryRuns.RevokeOthersIsExact | core/internal/delivery/delivery.go:502-527 | the specification read per session: kept members, other accounts and ended sessions are untouched; the rest of the account's are ended |
| DeliveryRuns.EvictionIsExact | core/internal/delivery/delivery.go:535-589 | enforcement revokes max(0, active - limit) sessions of the account, each started before every survivor, or together with it under a lower id, and changes no other session |
| DeliveryRuns.EvictionIsIdempotent | core/internal/delivery/delivery.go:535-589 | enforcing the same cap again ends nothing |
| DeliveryRuns.OldestIsUnique | core/internal/delivery/delivery.go:556-568 | start and id order leave only one choice of whom to evict |
| DeliveryRuns.TicketsDieWithSessions | core/internal/delivery/device.go:87-95 | revocation, enforcement and completion drop every ticket of the ended sessions and no other ticket |
| DeliveryRuns.SweepDropsTicketsIff | core/internal/delivery/delivery.go:652-691 | in every state, a sweep leaves the tickets an ending would have left iff no ticket belongs to a session it removes |
| DeliveryRuns.OrphansStay | core/internal/delivery/delivery.go:652-691 | over every run, a ticket whose session is no longer stored stays in the relay |
| DeliveryRuns.SweepLeavesTickets | core/internal/delivery/delivery.go:652-691 | an input at which it happens: a session admitted and then swept for its age keeps all its tickets |
| DeliveryRuns.ActiveIffNursed | core/internal/delivery/delivery.go:405-691 | over any run a session stays active iff nothing ends it and at every sweep its last heartbeat or progress is within the allowance and its age within the TTL |
| DeliveryRuns.SweepIsExact | core/internal/delivery/delivery.go:652-691 | a sweep keeps a session iff it is over already, or its age is within the TTL and its heartbeat within interval and grace, or its progress within the TTL for a download; it changes none of those it keeps |
| Slots.ClosedForm | core/internal/pacing/pacing.go:87-105 | the k-th reserved instant is the maximum over j up to k of arrival j plus (k-j) intervals |
| Slots.EarliestSchedule | core/internal/pacing/pacing.go:87-105 | the reserved instants are the earliest schedule that starts nothing before its arrival or within an interval of the one before |
| Slots.SlotsSpaced | core/internal/pacing/pacing.go:87-105 | the i-th and k-th reservations are at least k-i intervals apart |
| Slots.WindowBound | core/internal/pacing/pacing.go:87-105 | a closed window of width W holds at most W/interval + 1 reservations |
| Pacing.RateMeaning | core/internal/pacing/pacing.go:87-105 | the interval of a rate is the whole nanoseconds it leaves per request: as many requests as the rate fit a second at it, and not at one nanosecond more |
| Pacing.RateKept | core/internal/pacing/pacing.go:87-105 | paced at a rate, m requests after one another take more than m seconds over the rate less a nanosecond each |
| Pacing.ReserveIsSlot | core/internal/pacing/pacing.go:87-105 | one constant-time reservation answers with the slot of the whole arrival history |
| Pacing.Limiter.Ask | core/internal/pacing/pacing.go:75-122 | a request is refused iff the concurrency limit is set and reached; otherwise it leaves at its slot of the rate's interval, or failing a rate the minimum spacing, or at once; a slot stays reserved when the caller gives up |
| Pacing.Governor.Ask | core/internal/pacing/pacing.go:162-200 | a request is refused iff a backoff is running; otherwise it leaves at its slot of the provider-wide history |
| Pacing.Governor.NoteError | core/internal/pacing/pacing.go:204-213 | the n-th failure in a row opens a backoff of the n-th delay |
| Pacing.NeverParked | core/internal/pacing/pacing.go:75-131 | with no positive interval, no reachable scene exceeds the cap |
| Pacing.ManyWoken | core/internal/pacing/pacing.go:113-122 | with a positive interval, any number of requests can be in flight at once |
| Pacing.ConcurrencyBoundIff | core/internal/pacing/pacing.go:75-131 | the concurrency cap holds in every reachable scene iff the budget has no positive interval |
| Gating.Gate | core/internal/pacing/pacing.go:226-249 | the places in flight that are not the others' are as before on every exit, and with no others so is the count; the calls the provider logs keep the governor's delay after each failure, start after the backoff in force, stay within the retry bound and decide the result and the failure count; giving up means the context is done, being refused that a backoff was running; a success leaves no backoff in force, a failure one that ends no sooner than its delay after the call, and no call leaves the backoff as it was |
| Gating.GateAll | core/internal/pacing/pacing.go:226-249 | over any list of requests, each with its own budget and context, the provider hears all their calls spaced by the backoff of the failures in a row before them, the first not before the backoff in force at the start, and every place is given back |
| Gating.Attempt | core/internal/pacing/pacing.go:226-249 | the provider hears one call iff both pacers let the attempt pass, started after the backoff, and the place is given back either way |
| Gating.PassLimiter | core/internal/pacing/pacing.go:75-122 | a full limiter is asked again until a place frees or the context is done; an admission takes exactly one place beside the others' and leaves no earlier than a slot reserved since the call, anything else takes none |
| Backoff.DelayExactIff | core/internal/pacing/pacing.go:204-213 | for every base, cap and failure count, the delay is the capped doubling iff the product fits an int64 or the wrapped shift is not a positive number below the cap |
| Backoff.AlwaysExactIff | core/internal/pacing/pacing.go:204-213 | every delay of a governor is the capped doubling iff its first 64 shifts pass that check |
| Backoff.DelayExact | core/internal/pacing/pacing.go:204-213 | one way to pass it: the cap times the base's factor beside its power of two fits an int64 |
| Backoff.GovernorDelayExact | core/internal/slotwiring/pacing.go:184 | with the shipped constants the n-th delay is min(1s * 2^(n-1), 30s), for every n |
| Backoff.DelayInexactInGeneral | core/internal/pacing/pacing.go:204-213 | a base and cap that fail the check, with a delay below the capped doubling |
| Backoff.LateShiftsOutOfRange | core/internal/scheduler/scheduler.go:160-169 | from the twelfth failure on, the wrapped shift is never between zero and the ceiling |
| Backoff.SchedulerWaitBounds | core/internal/scheduler/scheduler.go:151-169 | every wait lies between one second and 24 hours; before the ceiling it is the doubling of a minute less a tenth, plus the draw, of up to two tenths; from the twelfth failure on it is the ceiling |
| SourceCache.Synchronizer.LandPage | core/internal/sourcecache/sourcecache.go:222-239 | a page lands item by item, later reports replacing earlier ones, in no other account, and the registry hears of exactly its items in order when resolution is wired |
| SourceCache.Synchronizer.PullPages | core/internal/sourcecache/sourcecache.go:205-244 | the loop ends within the page bound, having landed exactly the catalogue so far, seen its ids and had exactly its items resolved |
| SourceCache.NeverCompletes | core/internal/sourcecache/sourcecache.go:205-244 | a run that stopped at a bad page, or at the bound, has no completion within it |
| SourceCache.Synchronizer.Reconcile | core/internal/sourcecache/sourcecache.go:374-402 | drops exactly the rows not seen, counts them, and announces departures, then arrivals |
| SourceCache.Synchronizer.SyncAccount | core/internal/sourcecache/sourcecache.go:197-263 | succeeds iff the provider completes a valid catalogue within the bound; then the rows are that catalogue, the departed are counted, and with the registry wired and every cached item mapped each element of the symmetric difference gets exactly one event; a failure deletes no row and keeps manifest and events; the registry hears of exactly what landed and is left as it was iff all of it was settled before |
| SourceCache.FailedSyncResolves | core/internal/sourcecache/sourcecache.go:92-98 | the input at which the promise to change nothing identity-related fails: a new item on the page before the failure |
| SourceCache.Serve | core/internal/sourcecache/sourcecache.go:197-367 | any run of syncs, ingests, refreshes and resolutions elsewhere keeps every cached item mapped |
| SourceCache.SyncOnce | core/internal/sourcecache/sourcecache.go:197-263 | in any cache that keeps its items mapped, as every run of requests does, a sync succeeds iff the provider answers well-formed pages up to one that names no next, within 10000; the account then caches exactly the ids reported, each with its last report, no other account changes, and each departed and then each arrived id is announced exactly once, on its entry |
| SourceCache.CatalogueMeaning | core/internal/sourcecache/sourcecache.go:222-239 | a catalogue holds an id iff one of the pages reports it, with the item last reported under it |
| SourceCache.CompletesMeaning | core/internal/sourcecache/sourcecache.go:205-244 | a sync completes after n pages iff all n are answered with named, titled items of a known kind with whole ids, none twice on a page, and exactly the n-th names no next |
| SourceCache.AnnouncedMeaning | core/internal/sourcecache/sourcecache.go:408-441 | announcing goes id by id: nothing without an account or a mapping, else one event with account, entry and direction |
| SourceCache.ItemCountMeaning | core/internal/sourcecache/sourcecache.go:222-239 | what a sync counts is what its pages held, repetitions included |
| SourceCache.OneEventEach | core/internal/sourcecache/sourcecache.go:408-441 | when every id is mapped, announcing a list yields one event per id, naming its entry |
| SourceCache.Synchronizer.IngestItems | core/internal/sourcecache/sourcecache.go:280-311 | one invalid item rejects the batch before any write; otherwise everything lands, nothing is removed, and exactly the newly cached items are announced as arrivals, each on the entry its own resolution answered, which is its entry in the end when no item repeats; the registry is left as it was iff all items were settled before |
| SourceCache.Synchronizer.RefreshItems | core/internal/sourcecache/sourcecache.go:313-367 | without a refresh client always an error; otherwise what was answered lands, every requested id not answered is dropped and counted, departures and arrivals are announced; a violation leaves exactly the items before it written and resolved, announces nothing, and leaves the rows as they were iff those items were cached already just so, the registry iff they were settled |
| SourceCache.RefreshMeaning | core/internal/sourcecache/sourcecache.go:313-367 | after a refresh the account holds what was answered, as last answered, and what it held and was not asked for |
| SourceCache.UnchangedIff | core/internal/sourcecache/sourcecache.go:313-367 | landing items changes nothing iff they were all cached as they are, and nothing in any cache iff there are none |
| SourceCache.RefusedRefreshWrites | core/internal/sourcecache/sourcecache.go:313-367 | the input at which the promise fails: a new valid item ahead of a violation is cached by the refused refresh |
| SourceCache.ArrivalIffNewAndNamedOnce | core/internal/sourcecache/sourcecache.go:313-367 | a refreshed item is announced as an arrival iff it was not cached and the answer names it once |
| SourceCache.FlaggedMeaning | core/internal/sourcecache/sourcecache.go:313-367 | the arrivals announced are exactly the answered items flagged as new |
| Derivation.EnumerationIsExact | core/internal/library/library.go:291-430 | the nested loops visit exactly the items cached by the given reaches |
| Derivation.FoldedMeans | core/internal/library/library.go:291-430 | at every point of the loop an entry is built iff an observed item maps to it, its rows hold exactly the observing accounts, and the first observation decides corroboration |
| Derivation.EnumerationFirst | core/internal/library/library.go:291-430 | which observation comes first for a row depends only on the order of the reaches, not on the order the store lists keys in |
| Derivation.FoldIsDeclared | core/internal/library/library.go:291-430 | for every enumeration order, the fold yields exactly the declared entries, coverage keys, sorted via lists, identities and metadata references |
| Derivation.JoinCommaMeaning | core/internal/library/library.go:291-430 | an identity's provenance joins its suppliers with commas |
| Library.FreshTells | core/internal/library/library.go:57-75 | in the fields of reaches, rows and registry: a library holds, in byte order, exactly the entries some account that is public, the user's own or shared with the user caches an item of; its rows name exactly those keys and accounts, the lowest account's item decides corroboration; kind, identities and metadata reference are the entry's |
| Library.ClosedRowsUnseen | core/internal/library/library.go:57-75 | the rows of an account closed to the user, another owner's private one included, never change that user's library |
| Library.UnresolvedMeaning | core/internal/library/library.go:291-430 | exactly the entries without a metadata record are marked, in the library's order |
| Library.SharingUnaffected | core/internal/library/library.go:163-179 | a user authorized neither before nor after a sharing change derives the same library |
| Library.DeclaredReadsOwnRows | core/internal/library/library.go:291-430 | a derivation depends on no rows but those of its own reaches |
| Library.SameLibraryIff | core/internal/library/library.go:291-430 | between any two worlds a derivation stays the same iff it shows the same items on the same entries through the same accounts, no shown entry differs in kind, identities or metadata reference, and no shown verdict differs |
| Library.RowsUnaffected | core/internal/library/library.go:454-477 | a user not authorized for an account derives the same library whatever its rows |
| Library.UserOfKey | core/internal/library/library.go:483-502 | the sweep reads back from a cache key the user it was stored for |
| Library.SweepRestores | core/internal/library/library.go:483-502 | sweeping every user whose derivation could differ makes all surviving cached libraries equal to a fresh derivation |
| Library.SharingRestores | core/internal/library/library.go:163-179 | after a sharing change that sweeps everyone authorized before or after, every surviving cached library equals a fresh derivation |
| Library.InvalidationRestores | core/internal/library/library.go:454-477 | invalidating an account after any change to its rows keeps every surviving cached library correct, known account or not |
| Library.Service.AddReach | core/internal/library/library.go:136-147 | registers an account unless its id is blank or taken or it has no synchronizer, and touches no cached library |
| Library.Service.RemoveReach | core/internal/library/library.go:151-155 | unregisters exactly that account, and touches no cached library |
| Library.Service.SweepUserCaches | core/internal/library/library.go:483-502 | deletes exactly the cached libraries of the users chosen |
| Library.Service.SetReachSharing | core/internal/library/library.go:163-179 | changes one reach and drops exactly the cached libraries of those it is open to before or after, keeping the cache coherent; an unknown account is refused |
| Library.Service.InvalidateAccount | core/internal/library/library.go:454-477 | drops the cached libraries of exactly those the account is open to, and all of them when the provider has no such account |
| Library.Service.AccountChanged | core/internal/library/library.go:454-477 | a change of one account's rows followed by its invalidation keeps the cache coherent |
| Library.Service.Derive | core/internal/library/library.go:291-430 | the nested loops compute the declared library of the authorized reaches, which says, in the fields of reaches, rows and registry, exactly what the accounts open to the user show |
| Library.Service.RebuildUser | core/internal/library/library.go:291-430 | stores and returns the declared library and marks exactly its unresolved entries |
| Library.Service.Library | core/internal/library/library.go:258-287 | whether cached or rebuilt, a coherent cache answers with a fresh derivation |
| SyncedLibrary.SyncAndPublish | core/internal/library/library.go:519-525 | a sync changes what the library reads exactly as it changed rows and registry, and sweeps the account's audience iff it announced some change; a successful one announces none iff it keeps every native id |
| SyncedLibrary.SyncKeepsLibraries | core/internal/library/library.go:454-525 | any sync keeps the cached libraries correct iff none left shows an item that came, went or moved, a changed face or a flipped verdict; a sync that moves no item and, as every successful one does, announces a change or keeps the native ids shows no item coming, going or moving, and while no entry changes keeps the libraries correct iff it announces a change or flips no shown verdict |
| SyncedLibrary.CoherenceIff | core/internal/library/library.go:519-525 | whatever changes in the world, coherent cached libraries stay so iff none shows an item that came, went or moved, a changed face or a flipped verdict |
| SyncedLibrary.UnannouncedIff | core/internal/library/library.go:519-525 | a change of rows that keeps the native ids and is not announced keeps coherence iff no cached library shows a verdict that flips |
| SyncedLibrary.DroppedIdsShow | core/internal/library/library.go:291-430 | an account's only item that stays and drops every id it asserted, one of which corroborated it, changes the library, wherever it is mapped afterwards |
| SyncedLibrary.SilentSyncGoesStale | core/internal/sourcecache/sourcecache.go:197-263 | the sync at which a cached library goes stale: it finds the one mapped item again without its ids, succeeds, announces nothing, and the library differs from a fresh derivation |
| Enrichment.NameInjective | core/internal/enrichment/merge.go:108-180 | no two field paths share a provenance name, extras included |
| Enrichment.OwnerNames | core/internal/enrichment/merge.go:49-51 | the recorded owner tells tier and slot apart, and is never empty |
| Enrichment.MergeContribution | core/internal/enrichment/merge.go:66-97 | a blank slot or missing metadata is refused; otherwise each of the thirteen fields and each extra key is taken, with the contributor's credit, iff the contribution populates it and nobody, the contributor itself, or under a catalogue's contribution a provider owns it, and keeps value and credit if not; the kind's own fields unless the merge switches the kind |
| Enrichment.FirstMergeOwnsAll | core/internal/enrichment/merge.go:66-97 | the first contribution owns exactly the fields it populates |
| Enrichment.MergeFollows | core/internal/enrichment/merge.go:183-241 | each path is overwritten and stamped iff the contributor takes it over, and otherwise keeps value and owner; of the kind's own paths given no clash, of the others always |
| Enrichment.KeepsUntakenIff | core/internal/enrichment/merge.go:199-213 | a merge keeps every value it does not take over iff the two sides do not clash over the kind-specific part |
| Enrichment.FoldIsFaithful | core/internal/enrichment/merge.go:66-241 | after any sequence of contributions of one kind, each path is owned by the first catalogue contributor that ever populated it, else the first provider contributor, and holds that owner's latest populated value |
| Enrichment.NeverBlankAgain | core/internal/enrichment/merge.go:66-241 | over any sequence of contributions, of either kind, no field that was ever populated is blank again, the kind's own apart |
| MetadataCache.ResolveFindsRecords | core/internal/metadatacache/metadatacache.go:68-131 | over any run, resolving never returns a ref without a record |
| MetadataCache.WellFormedMeaning | core/internal/metadatacache/metadatacache.go:68-131 | an id is a non-empty namespace, the first colon and a non-empty value |
| MetadataCache.LinkedResolves | core/internal/metadatacache/metadatacache.go:68-131 | over any run an alias once linked to a stored record resolves to it until it is linked anew or that record is deleted |
| MetadataCache.StoredResolves | core/internal/metadatacache/metadatacache.go:68-131 | a stored record resolves under its own id, unless an alias row claims that id |
| MetadataCache.DeletedStaysUnresolvable | core/internal/metadatacache/metadatacache.go:170-194 | after a deletion no id resolves to the ref, and no alias names it, until it is stored again |
| MetadataCache.DeleteTouchesOnlyItsOwn | core/internal/metadatacache/metadatacache.go:170-194 | a deletion changes the resolution of no id that led elsewhere |
| MetadataCache.Cache.PutRecord | core/internal/metadatacache/metadatacache.go:68-83 | a record is stored under a well-formed ref, or refused, changing nothing else |
| MetadataCache.Cache.DeleteRecord | core/internal/metadatacache/metadatacache.go:170-194 | the purge loop removes the record and exactly the aliases that name it |
| MetadataCache.Cache.LinkAlias | core/internal/metadatacache/metadatacache.go:115-131 | an alias is written iff both ids are well formed and the record exists; it then resolves to the record |

## Left out

- RegistryRuns.ResolveAgain: assumes the article list, hence the normalization, is fixed for the life of the registry.
- SourceCache.Synchronizer.SyncAccount: the provider's answers are a function of the page number alone, so page tokens are not compared between requests; account prefixes do not nest and no native id collides with the manifest row.
- Enrichment.FoldIsFaithful: one kind only, because mixing movie and series contributions loses values; `KeepsUntakenIff` says exactly when.
- Engine.Engine.Start: the manifest, rights, pipeline and sink checks before admission are one outcome parameter, and the write of the running status outside the lock is part of the same atomic step.
- Engine.Engine.ApplyAccountCap: a negative effective limit under enforcement, on which the source slices out of range, is excluded.
- Pacing.Limiter.Ask: rates are reals and intervals their floor; floating-point rounding of a rate is not modelled.
- Backoff.SchedulerWaitBounds: the tenth is taken over the reals, not in floating point.
- Library.Service.RebuildUser: timestamps on coverage rows and entries are not part of the derived value.
- Gating.Gate: other callers share the limiter but not the governor, so the spacing is that of a lone caller on its provider; every context is done after finitely many waits.
- SyncedLibrary.SyncKeepsLibraries: metadata records are as before the sync; what `AddReach` and `RemoveReach` leave in the cache is not claimed coherent, since both sweep nothing by design.
- `ListMappings`, which escapes already escaped segments again and so does not enumerate every mapping.
- Wrap-around of the 64-bit mapping generation and of session sequence numbers.
- Goroutine interleavings inside one method; every exported method is one step.
- Go pointers: sessions, sinks and records are values held in the class's maps, so aliasing of a returned session is not captured.
- Store faults, encoding of stored values, Unicode normalization, and wildcards in the SQLite listing.
- Error texts, event and job records, event ids, logging.
- Trimming of Unicode white space; only the ASCII white space characters are trimmed.
- Validation of policy keys other than the stream limit, scheduler registration and run loops, the enrichment queue, bus fan-out, slot routing, page tokens and request validators.
- HTTP adapters, RPC terminations, configuration, cryptography and the web front end.
