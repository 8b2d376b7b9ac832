# kvs replica core in Dafny

A model of the replica-local logic of `kvs`, a sharded, causally consistent
key-value store written in TypeScript. Each replica holds:

- a **causal store**: key → `{val, causalContext{timestamp, causalMetadata}}`.
  A delete writes a tombstone (`val` undefined) and never removes a key.
  Reads check the caller's required timestamps locally, and fall back on a
  remote answer.
- a **vector clock**: address → event count, with a parser from the pair
  list that travels on the wire.
- the **peer replication rules**: an incoming peer write or delete is
  applied, answered with the local winner (ties between concurrent writes
  are broken by the address order `maxIP`), or put on a **deferred queue**.
  A one-second pass over that queue, splicing in place, applies entries
  whose dependencies have arrived and drops entries already seen.
- a **view**: the list of shards and their member addresses. Node `i` of
  the submitted list goes to shard `i mod num_shards`. The old and new
  member lists decide whether a view change happens.
- small helpers:
  - the latest causal context among several;
  - the hub address read out of a URL, and the send-or-relay choice;
  - `isEmpty`;
  - the `ip:port` address validator.

One Dafny module per source file:

| module | file | source |
|---|---|---|
| `Clocks` | `clock.dfy` | `src/models/clock.ts` |
| `ClockServices` | `clock_service.dfy` | `src/services/clock.service.ts` |
| `Kvs` | `kvs_service.dfy` | `src/services/kvs.service.ts` |
| `Views` | `view_service.dfy` | `src/services/view.service.ts` |
| `Queues` | `queue_service.dfy` | `src/services/queue.service.ts` |
| `Handlers` | `handlers.dfy` | `src/io/handlers.io.ts` |
| `Util` | `util.dfy` | `src/utils/util.ts` |
| `CausalContexts` | `causal_context_service.dfy` | `src/services/causalContext.service.ts` |
| `Client` | `client.dfy` | `src/io/client/index.client.ts` |
| `ValidateEnv` | `validate_env.dfy` | `src/utils/validateEnv.ts` |

Shared modules:
- `Interfaces` holds the record shapes of `src/interfaces`, plus the messages
  a replica emits.
- `JsSemantics` spells out the JavaScript built-ins the code relies on:
  - `Math.max`, `Math.abs`;
  - the truncating `%`;
  - `indexOf`, `substring`, `split`;
  - `parseInt` without a radix.
- `Wrappers` holds `Option` and `Result`.

How state is modelled:
- Objects whose fields the code updates in place are classes:
  - `VectorClock`, `ClockService`, `KvsService`, `ViewService`, `QueueService`.
  - Their methods state the whole new state.
- The read-only clock comparisons are loops over a map, as in the source.
  Each is proved to answer exactly a predicate (`SameAddresses`, `Covers`,
  `NextEventFrom`).
- The queue pass `Pop` is proved equal to `Sweep`, a function over the
  original entries. Properties of a pass are proved about `Sweep`.
- Handlers take the service objects, the replica's own address and the
  current time as parameters. Broadcasts are returned as `Emission` values.

Behaviour of the code as written that its names and comments do not
suggest:
- `updateView` sets the shard index to the shard of the *last* listed node,
  which need not be the local node's shard.
- `updateCausalMetadata` raises each other key to the dependency the *record*
  declared, not to the local store's freshest timestamp.
- A replica answering `causal:get-kvs` sends `Array.from` of a plain object.
  That is an empty list, so no records travel.
- Concurrent writes converge on the larger address only when the addresses
  differ in one of the first four parsed parts. With tied parts (one host on
  two ports), each replica applies the other's write (`ConcurrentWritesTiedBothApply`).
- The peer handlers and the queue write records without dependency metadata.
  A later local read of such a record makes `updateCausalMetadata` throw
  (`Object.entries(undefined)`). This is modelled as the `ReadThrew` outcome.

## Model

| member | source | states |
|---|---|---|
| Clocks.VectorClock.constructor | src/models/clock.ts:4-9 | the clock's addresses are exactly the listed ids, each at 0 |
| Clocks.VectorClock.SetClock | src/models/clock.ts:19-21 | entry `p` becomes `v`; every other entry is unchanged |
| Clocks.VectorClock.AddClock | src/models/clock.ts:23-25 | entry `p` becomes 0 even if it had a value; others unchanged |
| Clocks.VectorClock.DeleteClock | src/models/clock.ts:28-30 | address `p` is removed; others unchanged |
| Clocks.VectorClock.IncrementClock | src/models/clock.ts:33-36 | entry `p` becomes its old value + 1, an absent entry counting as 0; others unchanged |
| Clocks.VectorClock.UpdateClock | src/models/clock.ts:39-48 | the new clock is the pointwise-max merge: union of addresses, max where both have the address, the other's value where only it has it |
| Clocks.HasSameAddresses | src/models/clock.ts:100-113 | true iff the argument is absent or the two address sets are equal (size check plus membership loop) |
| Clocks.Equals | src/models/clock.ts:51-62 | true iff the two clocks are the same map |
| Clocks.EqualsIsEntrywise | src/models/clock.ts:51-62 | map equality is the same as equal address sets and equal entries, the reading of the source's loop |
| Clocks.ValidateClock | src/models/clock.ts:65-79 | true iff the received clock is absent or empty, or has the same addresses and no entry ahead of the local one |
| Clocks.CompareClocks | src/models/clock.ts:82-97 | true iff same addresses, the sender's entry is local + 1, and no other entry is ahead |
| Clocks.NextEventWithoutSender | src/models/clock.ts:82-97 | when the sender is not an address, `compareClocks` is the plain same-addresses-and-not-ahead test |
| Clocks.NextEventIsNotCovered | src/models/clock.ts:65-97 | a next event from a listed sender is never already covered, so the two queue tests never both hold |
| Clocks.MergeAddresses | src/models/clock.ts:39-48 | the merged clock's addresses are the union of both |
| Clocks.MergeIsLeastUpperBound | src/models/clock.ts:39-48 | the merge is pointwise at least both clocks, and below any clock that is |
| Clocks.MergeIdempotent | src/models/clock.ts:39-48 | merging the same clock twice equals merging it once |
| Clocks.MergeCoversReceived | src/models/clock.ts:39-79 | after merging a received clock with all local addresses, `validateClock` accepts it |
| ClockServices.ClockService.constructor | src/services/clock.service.ts:11-13 | the service's clock is fresh, with every listed address at 0 |
| ClockServices.ClockService.ParseReceivedClock | src/services/clock.service.ts:19-29 | returns a fresh clock built by `setClock` per pair in order, empty for an absent or empty list; the service's clock is not modified |
| ClockServices.ParsedClockOfNothing | src/services/clock.service.ts:19-21 | an absent and an empty pair list both parse to the empty clock |
| ClockServices.PairsToClockAddresses | src/services/clock.service.ts:22-25 | the parsed clock's addresses are exactly those named in the list |
| ClockServices.PairsToClockLastWins | src/services/clock.service.ts:22-25 | for a repeated address, the value of its last pair wins |
| Kvs.KvsService.constructor | src/services/kvs.service.ts:13-15 | the store starts as the given initial object and the proxy counter at 0 |
| Kvs.KvsService.CreateOrUpdateKv | src/services/kvs.service.ts:113-135 | the key maps to the new record (stamped `now` with the metadata, or `valWithContext` verbatim); all other keys unchanged; `prev` is the old record's value, absent for a missing key or a tombstone |
| Kvs.KvsService.DeleteKv | src/services/kvs.service.ts:154-176 | a present key gets a tombstone with the new context and stays in the store; an absent key leaves the store unchanged; `prev` as for a write |
| Kvs.KvsService.GetKv | src/services/kvs.service.ts:146-152 | returns the key's record exactly when the key is present |
| Kvs.KvsService.GetAllKeys | src/services/kvs.service.ts:137-144 | lists exactly the keys whose record has a value (no tombstones), each once, and `count` is their number |
| Kvs.KvsService.UpdateKvs | src/services/kvs.service.ts:178-183 | right-biased merge: incoming records overwrite, all other records stay |
| Kvs.KvsService.ClearKvs | src/services/kvs.service.ts:185-190 | the store becomes empty |
| Kvs.ReadMetadata | src/services/kvs.service.ts:196-206 | the read key is at the record's timestamp; every other declared key is exactly the larger of its declared value and the caller's (0 when the caller has none); every key only the caller names keeps the caller's value; the key set is the union; no result when the record declared no metadata |
| Kvs.KvsService.UpdateCausalMetadata | src/services/kvs.service.ts:196-206 | the loop over the declared entries computes `ReadMetadata` |
| Kvs.ReceivedMetadataMerge | src/services/kvs.service.ts:208-216 | same keys as the caller's metadata; each value is the caller's or the local timestamp, whichever is larger, so the result is pointwise at least the caller's |
| Kvs.KvsService.UpdateReceivedCausalMetadata | src/services/kvs.service.ts:208-216 | the loop computes `ReceivedMetadataMerge` of the current store |
| Kvs.ReceivedMergeIsSatisfiedLocally | src/services/kvs.service.ts:208-216 | after the merge, a key held locally satisfies a read exactly when its local timestamp had reached the caller's |
| Kvs.HashState | src/services/kvs.service.ts:222-231 | after each truncating-`%` step the hash lies strictly between -m and m, and `p_pow` lies in [0, m) |
| Kvs.Hash | src/services/kvs.service.ts:222-234 | the returned hash lies in [0, 1e9+9) |
| Kvs.HashOfEmpty | src/services/kvs.service.ts:222-234 | the empty string hashes to 0 |
| Kvs.KvsService.HashFunction | src/services/kvs.service.ts:222-234 | the loop computes `Hash`, which lies in [0, 1e9+9) |
| Kvs.KvsService.LookUp | src/services/kvs.service.ts:218-220 | no shard (NaN) for zero shards; otherwise the hash mod the shard count, in [0, abs(num_shards)) |
| Kvs.KvsService.WriteKv | src/services/kvs.service.ts:17-32 | stores the value stamped `now`; answers the caller's metadata raised to the store's timestamps, with the written key at `now`; emits the write broadcast only when the socket layer runs |
| Kvs.KvsService.RemoveKv | src/services/kvs.service.ts:64-82 | tombstones a present key; adds key → timestamp to the answered metadata only when the previous value was defined; emits the delete broadcast only when the socket layer runs |
| Kvs.KvsService.ReadKv | src/services/kvs.service.ts:34-62 | a locally satisfied read answers the stored value; otherwise the remote answer decides when the socket layer runs (timeout fails, found record answered); otherwise absent/tombstoned reads as absent and a stale value fails |
| Kvs.KvsService.InconsistentKeys | src/services/kvs.service.ts:87-93 | collects exactly the required keys that are absent locally or stamped earlier than required |
| Kvs.KvsService.RetrieveAllKeys | src/services/kvs.service.ts:84-111 | succeeds iff no required key is stale, or the socket layer runs and the wait succeeds (as many distinct keys announced consistent as there are stale keys, which need not be the stale ones); a success lists exactly the live keys with their count and the merged metadata, over the store as it is after the wait (the replica's own `getAllKeys` after the catch-up, replication.service.ts:71); the store is the post-wait one exactly when the replica waited |
| Kvs.NoStaleKeysIffAllSatisfied | src/services/kvs.service.ts:84-97 | no key is stale iff every required key satisfies the local read test |
| Kvs.KvsService.NextProxyRequestId | src/services/kvs.service.ts:236-238 | the counter advances by one and the new value is the request id; the store is unchanged |
| Kvs.LiveKeysAfterWriteAndDelete | src/services/kvs.service.ts:113-176 | writing a value lists the key; deleting a present key unlists it but keeps its record |
| Kvs.TombstonesPersist | src/services/kvs.service.ts:154-176 | any number of deletes keeps the key set, and the key reads as a tombstone |
| Views.ViewService.constructor | src/services/view.service.ts:18-23 | empty view, shard index -1, one shard |
| Views.PositionalView | src/services/view.service.ts:137-146 | exactly `n` shards, shard `j` having id `j` |
| Views.ViewService.UpdateView | src/services/view.service.ts:135-148 | with shards: the view becomes the positional view; the shard index is the last node's shard, unchanged for an empty list; with no shards and a non-empty list it throws after emptying the view, the index then being 0 for a negative count |
| Views.NodePlacedByPosition | src/services/view.service.ts:142-146 | node `i` lands in shard `i mod n` |
| Views.PositionalViewIsPermutation | src/services/view.service.ts:142-146 | the shards' node lists, concatenated, are a permutation of the incoming list |
| Views.FirstContaining | src/services/view.service.ts:155-160 | the first shard listing the address, or none when no shard does |
| Views.ViewService.ReplaceView | src/services/view.service.ts:150-162 | stores the view verbatim; the shard index becomes the first shard listing the address, unchanged when none does; throws iff the resulting index names no shard of the new view (the `view[shard_index].nodes` read at line 162), i.e. iff no shard lists the address and the kept index is outside the new view |
| Views.ViewService.DeleteView | src/services/view.service.ts:180-186 | the store is emptied, the view emptied, the shard index reset to -1 |
| Views.ViewService.GetShardReplicas | src/services/view.service.ts:236-242 | returns shard `i`'s nodes; none (the source throws) outside the view |
| Views.ViewService.OldList | src/services/view.service.ts:40-46 | the old view flattened shard by shard |
| Views.Without | src/services/view.service.ts:77-78 | the filter keeps exactly the elements of the first list absent from the second |
| Views.SameMembersIffNoDifference | src/services/view.service.ts:75-78 | the member sets agree iff nothing is missing and nothing is extra |
| Views.Decide | src/services/view.service.ts:56-81 | first view: forwarded to the other listed nodes iff a client sent it; later view from a client: a change iff the member sets differ or the shard count changed, with exactly the missing and the extra nodes |
| Views.ViewService.SetView | src/services/view.service.ts:35-81 | replaces the shard count and rebuilds the view positionally (the shard index as `UpdateView` leaves it); throws iff there are no shards or, for an empty node list, the kept index names no new shard (the `view[shard_index].nodes` read at line 54); otherwise takes the decision `Decide` describes from the old flattened view |
| Queues.Resolved | src/services/queue.service.ts:58-67 | write adds its key, delete keeps the key set, kvs adds the received keys; no key is lost; a write or delete touches no other key |
| Queues.VerdictOf | src/services/queue.service.ts:44-50 | apply iff `compareClocks` holds; drop iff it does not but `validateClock` does; otherwise keep |
| Queues.Examined | src/services/queue.service.ts:44-50 | an applied entry changes the store as `Resolved` says; any other leaves clock and store alone; the clock never decreases |
| Queues.QueueService.constructor | src/services/queue.service.ts:7-9 | the queue starts as the given initial queue, over the shared clock and store services |
| Queues.QueueService.SetQueue | src/services/queue.service.ts:25-29 | the whole queue is replaced |
| Queues.QueueService.Push | src/services/queue.service.ts:31-35 | the entry is appended; earlier entries keep their order |
| Queues.QueueService.Resolve | src/services/queue.service.ts:55-69 | the action is applied to the store and the entry's parsed clock merged into the local clock |
| Queues.QueueService.Pop | src/services/queue.service.ts:37-53 | queue, clock and store after the splice loop are those of `Sweep` over the old queue, clock and store |
| Queues.ResumeKept | src/services/queue.service.ts:39-51 | an examined entry that stays: moving to the next index does not change what the pass leaves |
| Queues.ResumeRemoved | src/services/queue.service.ts:39-50 | an examined entry that is spliced out: continuing at `i + 1` of the spliced queue does not change what the pass leaves |
| Queues.SweepKeepsOrder | src/services/queue.service.ts:39-51 | what stays queued is the old queue with entries removed, in relative order |
| Queues.SweepClockGrows | src/services/queue.service.ts:44-46 | the local clock never decreases during a pass |
| Queues.SweepFromArrival | src/services/queue.service.ts:39-51 | a pass ends with the clock, store and tail queue of the pass over the remainder from any entry, started in the state the pass reaches that entry in |
| Queues.StaysWhenReached | src/services/queue.service.ts:39-51 | an entry, at any position, that the pass reaches skipping it or finds neither applicable nor covered is in the final queue |
| Queues.KeptEntryStays | src/services/queue.service.ts:39-51 | an entry at any position that is examined and meets neither test stays in the queue |
| Queues.SkippedAfterRemoval | src/services/queue.service.ts:39-49 | the entry right after any removed one is not examined in that pass and stays |
| Queues.ClocklessEntryDropped | src/services/queue.service.ts:42-49 | an entry with no clock or an empty one is dropped unapplied by a replica with any address |
| Handlers.WriteStep | src/io/handlers.io.ts:49-80 | never ignores; enqueue iff the clocks differ and `compareClocks` fails; a write-back only with equal clocks and a local record |
| Handlers.DeleteStep | src/io/handlers.io.ts:91-125 | never writes back; enqueue iff the clocks differ and `compareClocks` fails; nothing happens only with equal clocks |
| Handlers.OnKvsWrite | src/io/handlers.io.ts:40-81 | apply: clock merged, value written stamped `now`; write-back: state unchanged, local record and clock rebroadcast; enqueue: state unchanged, entry pushed |
| Handlers.OnKvsDelete | src/io/handlers.io.ts:83-126 | apply: tombstone if present and clock merged; ignore: nothing changes; enqueue: entry pushed, state unchanged |
| Handlers.TieGoesToSender | src/io/handlers.io.ts:51-59 | with equal clocks and tied addresses the sender's write (and delete, with a local record) is applied |
| Handlers.ConcurrentWritesOneApplies | src/io/handlers.io.ts:51-63 | for ordered addresses, of two replicas with equal clocks writing the same key, exactly one applies the other's write and the other writes back |
| Handlers.ConcurrentWritesTiedBothApply | src/io/handlers.io.ts:51-63 | for tied addresses each of the two applies the other's write |
| Handlers.DeleteNeedsLocalRecord | src/io/handlers.io.ts:94-107 | with equal clocks and no local record a write applies but a delete does nothing |
| Handlers.EnqueuedWriteAppliesLater | src/io/handlers.io.ts:69-80 | a queued write is applied by a pass that examines it once the clock has reached the event before it |
| Handlers.OnCausalGetKey | src/io/handlers.io.ts:128-139 | replies with the local record and clock iff the local clock covers the received one |
| Handlers.OnCausalUpdateKey | src/io/handlers.io.ts:141-154 | acts iff the local clock does not cover the received one: clock merged, key written or deleted, key announced consistent; otherwise nothing changes |
| Handlers.OnCausalGetKvs | src/io/handlers.io.ts:156-170 | replies, with an empty record list and the local clock, iff the local clock covers the received one |
| Handlers.OnCausalUpdateKvs | src/io/handlers.io.ts:172-184 | acts iff not covered: clock merged, received records overwrite, and the live keys and their count announced |
| Handlers.OnReplicationConverge | src/io/handlers.io.ts:186-197 | acts iff not covered: clock merged and received records overwrite; otherwise nothing changes |
| Handlers.OnViewChangeKill | src/io/handlers.io.ts:13-23 | a listed replica empties store and view, resets its shard index and shuts down its hub or disconnects; any other does nothing |
| Handlers.OnViewChangeUpdate | src/io/handlers.io.ts:25-30 | a listed replica rebuilds its view positionally from the list, its shard index becoming the last node's shard; with no shards it throws with an empty view (index 0 for a negative count); any other replica changes nothing |
| Handlers.UpdatedViewPlacesReplica | src/io/handlers.io.ts:25-30 | after the update, node `i` of the list is in shard `i mod n` |
| Util.MaxIPFrom | src/utils/util.ts:24-34 | the loop from part `i` returns one of its two arguments |
| Util.MaxIP | src/utils/util.ts:21-35 | returns one of its two arguments |
| Util.MaxIPIsFirstDifference | src/utils/util.ts:24-34 | `b` exactly when the first part that decides favours `b`; `a` otherwise |
| Util.MaxIPTieGoesToFirst | src/utils/util.ts:33-34 | when no part decides, the first argument wins |
| Util.MaxIPAntisymmetric | src/utils/util.ts:24-31 | when some part decides, both argument orders pick the same address |
| Util.PortSuffixIgnored | src/utils/util.ts:26-28 | `parseInt` of a part followed by `:port` is the part's digits alone |
| Util.TenBeatsNine | src/utils/util.ts:26-28 | parts compare as numbers: "10" > "9" |
| Util.NaNNeverDecides | src/utils/util.ts:26-28 | a missing or non-numeric part never decides |
| Util.IsEmpty | src/utils/util.ts:7-19 | true exactly for null, undefined, "", and an array or object with no own keys; never for a number |
| JsSemantics.TruncRem | src/services/kvs.service.ts:229-230 | JavaScript's `%`: the magnitude is abs(a) mod abs(b) and the sign follows the dividend |
| JsSemantics.IndexOf | src/io/client/index.client.ts:26-27 | the first occurrence at or after the clamped start, or -1 when there is none |
| JsSemantics.Split | src/utils/util.ts:23-24 | at least one piece, none containing the separator, and joining them back gives the string |
| JsSemantics.ParseIntStopsAtNonDigit | src/utils/util.ts:26-28 | `parseInt` of digits followed by a non-digit (not an `x`) is the digits' value |
| CausalContexts.GetLatestCausalContext | src/services/causalContext.service.ts:3-12 | at least 0 and every entry's timestamp; the default or an input entry; ties keep the earliest; the default when no timestamp is positive |
| Client.GetIP | src/io/client/index.client.ts:24-29 | the result never contains `/` |
| Client.GetIPOfUrl | src/io/client/index.client.ts:24-29 | for `scheme//host` followed by nothing or a `/`-path, the result is `host` |
| Client.GetIPOfEmpty | src/io/client/index.client.ts:14-29 | the initial empty address reads as "" |
| Client.GetIPWithoutScheme | src/io/client/index.client.ts:26-28 | with no `//`, the first character is dropped and reading stops at the next `/` |
| Client.SendTo | src/io/client/index.client.ts:117-124 | direct emit iff the target is the hub's address, relay with `{replica, event, data}` otherwise |
| ValidateEnv.AddressValidator | src/utils/validateEnv.ts:3-10 | accepts exactly the D.D.D.D:P shape and returns the input unchanged; otherwise fails with the message naming the input |
| ValidateEnv.RegexMatchesShape | src/utils/validateEnv.ts:5-6 | the anchored regex matches exactly the strings with one colon, a digit port and four 1–3 digit groups |
| ValidateEnv.MatchesFourGroups | src/utils/validateEnv.ts:5-6 | four 1–3 digit groups and a digit port are matched |
| ValidateEnv.NoRangeCheck | src/utils/validateEnv.ts:5-9 | any such groups are accepted whatever their values (`999.999.999.999:0` too) |

## Left out

- Sockets, HTTP, timers and locks:
  - socket.io transport, the hub relays and hub failover;
  - the Express controllers and routes;
  - the one-second `setInterval` that runs `pop`;
  - the 20-second event waits (`getCausalConsistency`, `getConsistentVal`,
    `getConsistentKeys`, and the promise part of `proxyRequest`);
  - `async-mutex`.
  Each modelled method and handler runs as one step, without interleaving.
  The source yields at every `await`, between its locked blocks and between
  the service calls a handler makes in a row (for example `writeKv` awaits
  `createOrUpdateKv` before it reads the store again); interleavings at
  those points are not modelled. Remote answers are parameters
  (`RemoteRead`; for the key listing, whether the catch-up succeeded and the
  store the handlers left during the wait), and `Date.now()` is the parameter
  `now`.
- Missing source files:
  - `src/models/kvs.model.ts` and `src/models/queue.ts` are not part of this
    model; the initial store and queue are constructor parameters.
  - `kvsService.parseReceivedKvs` is not part of this model. The store it
    would parse is passed in already parsed: the `receivedKvs` parameter,
    and the `KvsAction` payload of a queue entry.
  - `onKvsAll` and the shard-proxy handlers are not modelled, because they
    depend on these missing members.
- `setView` and `replaceView`, left-out parts:
  - the `addClock` calls on the shard's replicas (view.service.ts:53-54 and
    162-163); only the throw of the `view[shard_index]` read before them is
    modelled, as the `threw` result of `SetView` (line 54) and of
    `ReplaceView` (line 162);
  - `sendViewChange`, starting the hub, connecting and disconnecting;
  - the rehashing block (view.service.ts:114-128);
  - the hub-takeover test, which depends on socket state.
  The decision records which nodes are missing and extra, and whom a first
  view is forwarded to.
- `getView`, `getCurrentKvs`, `getClock`, `size`, `vcToString`,
  `checkReplicas` and `changeIOServer` are not modelled: they are accessors,
  logging or socket calls.
- `updates.last`, the anti-entropy bookkeeping written by the store
  operations, is not modelled.
- `cleanEnv` reading `process.env` is not modelled. Only the address
  predicate is.
- Queues.QueueService.Pop: every record a pass writes is stamped with the
  same `now`, whereas the source calls `Date.now()` once per applied entry.
- Handlers.OnCausalUpdateKey: the `value` field is taken as the string to
  store. On the wire, `onCausalGetKey` puts the whole record there
  (handlers.io.ts:136), and the source then stores that object as the
  value. Records nested inside values are not modelled.
- Handlers.OnKvsWrite: the `val` field is taken as the string to store.
  On the wire, `writeKv` broadcasts the stored record (kvs.service.ts:27-28)
  and the write-back sends the local record (handlers.io.ts:62), so the
  source stores a record nested inside the value. Records nested inside
  values are not modelled.
- Queues.Resolved: a queued write applies its `val` as a string, for the
  same reason as `Handlers.OnKvsWrite`; the source would store the nested
  record.
- Views.ViewService.UpdateView: with zero shards and a non-empty list the
  source leaves the shard index NaN (`0 % 0`). The model's index is an
  integer, and it promises nothing about the index in that case.
- Handlers.OnViewChangeUpdate: the payload is taken as the node list, as
  the handler reads it. The one sender, view.service.ts:128, sends an
  object `{ sender, view }`, on which `data.includes` throws; that mismatch
  is not modelled.
- Kvs.KvsService.ReadKv: the store changes that handlers make while the
  read waits are not part of this method. Its answer does not read the
  store after the wait.
- Kvs.Hash: characters are Unicode scalar values, not UTF-16 code units.
  Strings with characters above U+FFFF hash differently from `charCodeAt`.
  For all other strings every intermediate value stays below 2^53, so
  JavaScript's arithmetic is exact and equal to the model's.
- Util.IsEmpty: JavaScript numbers are integers here; floating point (NaN,
  -0, fractions) is not modelled.
- JsSemantics.ParseIntStopsAtNonDigit: values are exact integers, whereas
  JavaScript rounds values above 2^53.
- CausalContexts.GetLatestCausalContext: the object's key order is the order
  of the input sequence.
- Store keys and metadata keys are assumed not to name members of
  `Object.prototype` (`toString`, `constructor`, `__proto__`, ...). The
  source keeps both in plain JavaScript objects, where such names are
  inherited: `deleteKv` would write a tombstone over an absent `toString`,
  `readKv` and `updateReceivedCausalMetadata` would throw on the inherited
  value, `receivedMetadata[k] || 0` would yield a function and `Math.max`
  NaN, and `__proto__` never becomes an own key. The model's maps have no
  inherited entries.
- Kvs.KvsService.RetrieveAllKeys: `caughtUp` is a free parameter. The
  source's wait counts every key of each consistency announcement, and an
  announcement is the announcing replica's whole live-key listing, so it can
  succeed while a stale key is still stale, or never succeed on that event;
  the model does not derive `caughtUp` from the announcements.
- Integer-valued fields (timestamps, clock entries, shard counts) are
  unbounded integers. Non-integer numbers are not modelled.
