# rxjs stream toolkit, modelled in Dafny

This project models the stream operators of the `blueflag-rxjs` and
`92green-rxjs` packages and proves properties of the model.

- **`complete()`** emits one `COMPLETE` sentinel when its source completes.
- **`bufferDistinct(predicate)`** groups runs of values that share one comparison value.
- **`memoryCache`** is an id-keyed table of `AsyncSubject`s. It has a `load`, a `save` and a `clear` operator.
- **`multiCache`** stacks cache layers behind one `load` and one `clear`.
- **The batching `dataloader`** keys requests with `argsToKey` and coalesces them through a `memoryCache`. It collects missing ids per time window and calls a bulk loader once per chunk of `batchSize`.
- **`zipDiff`**, in two variants, joins two streams by key:
  - the `92green` one uses tombstones and skip flags;
  - the `blueflag` one keeps matched partners and deletes on flush.

An observable is modelled as a finite trace: values, then at most one
terminal notification (module `Traces`). Every operator is a total
function on traces or a step function over immutable state. The state is a
Dafny `map` or an insertion-ordered `seq` of `(key, value)` pairs, which
stands for a JavaScript `Map` (module `Keyed`).

Modules and files:

| module | file | models |
|---|---|---|
| `Wrappers` | wrappers.dfy | `Option` |
| `Traces` | traces.dfy | traces, `concat`, `filter` |
| `Keyed` | keyed.dfy | JavaScript `Map`/object entries: `get`, `set` in insertion order |
| `CompleteSignal` | complete_signal.dfy | `complete()` |
| `BufferDistinct` | buffer_distinct.dfy | `bufferDistinct` |
| `ArgsKey` | args_key.dfy | `argsToKey` |
| `MemoryCache` | memory_cache.dfy | `memoryCache` |
| `MultiCache` | multi_cache.dfy | `multiCache` |
| `DataLoader` | dataloader.dfy | the batching loader |
| `ZipTypes` | zip_types.dfy | what both `zipDiff` variants share |
| `ZipTombstone` | zip_diff_tombstone.dfy | `zipDiff` of `92green-rxjs` |
| `ZipRetain` | zip_diff_retain.dfy | `zipDiff` of `blueflag-rxjs` |

How the main operators are modelled:

- **`argsToKey`.** `JSON.stringify` is a free term: a `Key` is the structure
  that would be stringified. Two keys are therefore equal exactly when the
  stringified structures are. A root `null` gets the key `"null"`, as the code
  computes it; only `undefined` gets `''`.
- **`memoryCache`.**
  - A slot is either `Waiting(tickets)` or `Ready(payload)`. `Waiting` is a
    subject that has not completed; the tickets are the loads subscribed to it.
  - A truthy `maxItems` makes the table an LRU map. The model keeps its
    recency order and capacity bound.
- **The dataloader.** It is driven by a sequence of `Request(args)` and
  `Tick` signals. A `Tick` closes the current `bufferTime` window. The bulk
  loader is a function from an args list to either a result list or a
  rejection. It answers each call before the next signal.
  - A request whose key holds a not-found payload gets that payload replayed
    from the cache (`cache.load`, dataloader.js line 60). Its item is
    `undefined`, so the filter at line 69 sends it to the not-found stream
    again, and the key is fetched again in a later window.
- **`zipDiff`.** The two sources are one interleaved sequence of
  notifications, each labelled with its side, in the order `merge`
  delivers them. When side `s` completes,
  `sendBufferedItemsOnComplete(Other(s))` releases the waiting items of the
  other side, `Other(s)`.

## Model

| member | source | states |
|---|---|---|
| Traces.Concat | packages/blueflag-rxjs/src/operators/complete.js:11 | `concat` emits the source's values, then the tail only if the source completed; it ends as the source ends |
| Traces.Filter | packages/blueflag-rxjs/src/operators/complete.js:12 | `filter` keeps exactly the values that satisfy the predicate, in order, and keeps the source's ending |
| Traces.KeepIf | packages/blueflag-rxjs/src/operators/complete.js:12 | the kept values are values of the input that satisfy the predicate, and every input value that satisfies it is kept |
| Keyed.Lookup | packages/92green-rxjs/src/zipDiff.js:68 | `Map.get` finds a value stored under the key, and finds nothing exactly when the key is absent |
| Keyed.Put | packages/92green-rxjs/src/zipDiff.js:92 | `Map.set` adds the key to the key set and keeps keys unique; a new key is appended at the end, in insertion order |
| Keyed.PutInPlace | packages/blueflag-rxjs/src/zipDiff.js:81 | `Map.set` on a present key replaces that entry's value where it stands and leaves every other entry and the order unchanged |
| Keyed.PutHere | packages/92green-rxjs/src/zipDiff.js:79 | `get` after `set(k, v)` returns `v` |
| Keyed.PutOthers | packages/92green-rxjs/src/zipDiff.js:92 | `set(k, v)` does not change what `get` returns for any other key |
| CompleteSignal.CompleteOp | packages/blueflag-rxjs/src/operators/complete.js:10-14 | the output is a well-formed trace that carries only `COMPLETE` values and ends exactly as the source ends |
| CompleteSignal.KeepSentinelsOfPlain | packages/blueflag-rxjs/src/operators/complete.js:12 | no value of the source other than `COMPLETE` passes the filter |
| CompleteSignal.SentinelOnlyOnCompletion | packages/blueflag-rxjs/src/operators/complete.js:11-12 | the output's values are exactly `[COMPLETE]` when the source completes and none otherwise, so the sentinel is the last value |
| CompleteSignal.CompleteOpOutcome | packages/blueflag-rxjs/src/operators/complete.js:11-12 | the whole output trace for each source ending: nothing while open, `COMPLETE` then completion, or the error alone |
| CompleteSignal.SilentWhileOpen | packages/blueflag-rxjs/src/operators/complete.js:11-12 | while the source only emits values, the output emits nothing |
| CompleteSignal.OneSentinelOnCompletion | packages/blueflag-rxjs/src/operators/complete.js:11 | values followed by completion give exactly one `COMPLETE` and then completion |
| CompleteSignal.ErrorWithoutSentinel | packages/blueflag-rxjs/src/operators/complete.js:11 | values followed by an error give that error and no sentinel |
| BufferDistinct.OnValue | packages/blueflag-rxjs/src/operators/bufferDistinct.js:15-25 | a value emits the pending group exactly when it is not the first value and its comparison value differs from the group's; the group is emitted before the value is added, and the new group is `[value]`; otherwise the value is appended |
| BufferDistinct.Run | packages/blueflag-rxjs/src/operators/bufferDistinct.js:14-33 | the output is a well-formed trace that ends exactly as the source ends |
| BufferDistinct.BufferDistinct | packages/blueflag-rxjs/src/operators/bufferDistinct.js:7-35 | the output ends as the source does; on completion the groups are the split of the source values into maximal runs, and otherwise the groups emitted so far concatenate to a prefix of the values |
| BufferDistinct.CompletedRunSplit | packages/blueflag-rxjs/src/operators/bufferDistinct.js:15-31 | on completion, the emitted groups concatenate to the input, each group is non-empty with one comparison value, and consecutive groups differ |
| BufferDistinct.UnfinishedRunSplit | packages/blueflag-rxjs/src/operators/bufferDistinct.js:15-26 | while open or after an error, the emitted groups followed by the pending group reproduce the input |
| BufferDistinct.FirstRunIsMaximal | packages/blueflag-rxjs/src/operators/bufferDistinct.js:17-24 | the first group of a run split is the longest prefix of values that share the first value's comparison value |
| BufferDistinct.RunSplitUnique | packages/blueflag-rxjs/src/operators/bufferDistinct.js:15-31 | a sequence has at most one split into maximal runs, so the groups are determined by the input |
| BufferDistinct.RunSplitEmpty | packages/blueflag-rxjs/src/operators/bufferDistinct.js:27-31 | a run split has no groups exactly when there are no values, so an empty source completes with no group |
| BufferDistinct.BufferDistinctCompleted | packages/blueflag-rxjs/src/operators/bufferDistinct.js:7-33 | for any split of the values into maximal runs, the operator on values then completion emits exactly those runs and completes |
| BufferDistinct.FeedNonEmpty | packages/blueflag-rxjs/src/operators/bufferDistinct.js:22-24 | once a value has arrived the pending group is never empty |
| BufferDistinct.ErrorDiscardsPending | packages/blueflag-rxjs/src/operators/bufferDistinct.js:26 | on an error the pending group is never emitted and the error is forwarded |
| ArgsKey.LessTransitive | packages/92green-rxjs/src/dataloader.js:25 | the string comparison the sort uses is transitive |
| ArgsKey.LessTotal | packages/92green-rxjs/src/dataloader.js:25 | any two different strings are ordered one way or the other |
| ArgsKey.Present | packages/92green-rxjs/src/dataloader.js:16-23 | an entry is kept if and only if its value is neither `null` nor `undefined` |
| ArgsKey.PresentCount | packages/92green-rxjs/src/dataloader.js:16-23 | each kept entry is kept as many times as it occurs, and no other entry is kept |
| ArgsKey.PresentAppend | packages/92green-rxjs/src/dataloader.js:16-23 | filtering two entry lists joined gives the two filtered lists joined, so the kept entries stay in their original order |
| ArgsKey.Insert | packages/92green-rxjs/src/dataloader.js:25 | inserting into a sorted entry list keeps it sorted and adds exactly that entry |
| ArgsKey.SortByKey | packages/92green-rxjs/src/dataloader.js:25 | the sort returns a permutation of the entries sorted by key name |
| ArgsKey.StrictlySortedUnique | packages/92green-rxjs/src/dataloader.js:25 | two strictly sorted entry lists with the same members are equal, so the sorted order does not depend on the input order |
| ArgsKey.Canonical | packages/92green-rxjs/src/dataloader.js:15-25 | a collection's canonical entries are sorted by name, and each is an entry of the collection with a present value |
| ArgsKey.ArgsToKey | packages/92green-rxjs/src/dataloader.js:11-31 | the key is `''` exactly for `undefined`; a collection's key is a list with one pair per present entry |
| ArgsKey.PairEncodesEntry | packages/92green-rxjs/src/dataloader.js:16-27 | every pair of a collection's key is the name of a present entry of the collection paired with its value's key |
| ArgsKey.PresentEntryEncoded | packages/92green-rxjs/src/dataloader.js:16-27 | every present entry of a collection appears in its key with its child's key |
| ArgsKey.PairsStrictlySorted | packages/92green-rxjs/src/dataloader.js:25 | the pairs of an object's key are strictly sorted by name |
| ArgsKey.ObjectKeyIff | packages/92green-rxjs/src/dataloader.js:13-30 | two objects get the same key if and only if they have the same present field names with same-keyed values |
| ArgsKey.FieldOrderIrrelevant | packages/92green-rxjs/src/dataloader.js:16-25 | objects that differ only in field order get the same key |
| ArgsKey.MissingFieldsIgnored | packages/92green-rxjs/src/dataloader.js:20-22 | dropping the `null` and `undefined` fields of an object does not change its key |
| ArgsKey.SamePresentSameKey | packages/92green-rxjs/src/dataloader.js:16-23 | objects with the same present fields in the same order get the same key |
| ArgsKey.MissingFieldAdded | packages/92green-rxjs/src/dataloader.js:20 | adding a `null` or `undefined` field anywhere in an object does not change its key |
| ArgsKey.SameCanonicalSameKey | packages/92green-rxjs/src/dataloader.js:27-30 | collections with the same canonical entries get the same key |
| ArgsKey.EquivalentSameKey | packages/92green-rxjs/src/dataloader.js:11-31 | values equal up to field order and missing fields, at every depth, get the same key |
| ArgsKey.ScalarKeyIff | packages/92green-rxjs/src/dataloader.js:30 | a scalar shares its key with another value exactly when the two are equal, so `2`, `3` and `"2"` all get different keys |
| ArgsKey.IndexKeyInjective | packages/92green-rxjs/src/dataloader.js:16 | different array indices give different `for...in` names |
| ArgsKey.ArrayAsObject | packages/92green-rxjs/src/dataloader.js:16-27 | an array gets the key of the object mapping its index names to its items |
| ArgsKey.TrailingMissingIgnored | packages/92green-rxjs/src/dataloader.js:20 | a trailing `null` or `undefined` item does not change an array's key |
| MemoryCache.New | packages/92green-rxjs/src/memoryCache.js:34-36 | a new table is empty and well formed |
| MemoryCache.Use | packages/92green-rxjs/src/memoryCache.js:39 | touching an id of an LRU table makes it the most recently used and keeps the others in order; a plain `Map` keeps its order |
| MemoryCache.Evicted | packages/92green-rxjs/src/memoryCache.js:34-36 | an insertion evicts exactly when an LRU table is full, and then evicts the least recently used id |
| MemoryCache.Add | packages/92green-rxjs/src/memoryCache.js:44 | inserting an id stores its slot as the most recent and removes the evicted id, if any, keeping the capacity bound |
| MemoryCache.Load | packages/92green-rxjs/src/memoryCache.js:38-46 | a new id gets a waiting slot and its payload is forwarded; a ready id delivers the stored payload and forwards nothing; a waiting id gains the load as a waiter; no other slot changes except by eviction |
| MemoryCache.Save | packages/92green-rxjs/src/memoryCache.js:48-57 | saving a waiting id makes it ready with the payload and answers every waiter with it, in order; otherwise the table is unchanged and nobody is answered |
| MemoryCache.Clear | packages/92green-rxjs/src/memoryCache.js:59-62 | clearing removes the id's slot whatever its state and nothing else |
| MemoryCache.JoinWaiting | packages/92green-rxjs/src/memoryCache.js:39-42 | repeated loads of a waiting id forward nothing and queue up as its waiters |
| MemoryCache.CoalescedLoads | packages/92green-rxjs/src/memoryCache.js:38-54 | of several loads of a new id only the first is forwarded, and the save answers all the others with the saved payload |
| MemoryCache.LoadAfterSave | packages/92green-rxjs/src/memoryCache.js:39-42 | a load after the save delivers the saved payload |
| MemoryCache.FirstSaveWins | packages/92green-rxjs/src/memoryCache.js:51 | a second save of an id leaves the table unchanged and answers nobody |
| MemoryCache.ClearForgets | packages/92green-rxjs/src/memoryCache.js:59-62 | after a clear, a load of the id is forwarded as a fresh miss and a save answers nobody |
| MemoryCache.RecentlyLoadedSurvives | packages/92green-rxjs/src/memoryCache.js:34-36 | with capacity at least two, the id loaded last survives the next load of a different id |
| MemoryCache.LoadConserves | packages/92green-rxjs/src/memoryCache.js:38-46 | a load either answers its ticket or adds it to the waiters, without losing or duplicating a waiter |
| MemoryCache.SaveConserves | packages/92green-rxjs/src/memoryCache.js:48-57 | a save moves waiters to the answered tickets without losing or duplicating any |
| MultiCache.Tag | packages/92green-rxjs/src/multiCache.js:47 | `setSource` keeps the id and the item and sets the source |
| MultiCache.Level | packages/92green-rxjs/src/multiCache.js:43-82 | a payload whose item exists is tagged `'input'` and reaches no layer; otherwise the layer's `load` is called first; only layers from this one down are called, and none is cleared |
| MultiCache.Load | packages/92green-rxjs/src/multiCache.js:42-83 | with no layers `load` is the identity; an existing item is tagged `'input'` with no layer call |
| MultiCache.Descend | packages/92green-rxjs/src/multiCache.js:56-69 | the descent stops at the first layer that finds the item, tagged with that layer's name, or at the last layer |
| MultiCache.LevelOutput | packages/92green-rxjs/src/multiCache.js:67-75 | a missing payload comes back as the deepest probe's result passed back up through the `save` of every layer above the one that answered |
| MultiCache.LevelLoads | packages/92green-rxjs/src/multiCache.js:56-71 | `load` is called once on each layer from this one down to the one that answered, in list order, and on no other |
| MultiCache.LevelSaves | packages/92green-rxjs/src/multiCache.js:67-73 | `save` is called exactly on the layers above the answering one that have a `save`, deepest first |
| MultiCache.LevelOrder | packages/92green-rxjs/src/multiCache.js:67-73 | every `load` call comes before every `save` call |
| MultiCache.FirstHitWins | packages/92green-rxjs/src/multiCache.js:56-65 | every layer before the answering one missed and handed its result to the next; a hit is the answering layer's result tagged with its name; a miss everywhere is the last layer's untagged result |
| MultiCache.LoadCallLog | packages/92green-rxjs/src/multiCache.js:42-83 | for a missing payload, the layers up to the first hit are loaded in order, then exactly the layers above it that have a `save` are saved; the hit layer and the last layer are never saved into |
| MultiCache.Clear | packages/92green-rxjs/src/multiCache.js:89-95 | `clear` calls each layer's `clear` exactly once, from the last layer to the first, and calls no `load` or `save` |
| DataLoader.Chunk | packages/92green-rxjs/src/dataloader.js:71-73 | the chunks concatenate to the window, are non-empty and at most `batchSize` long, and all but the last are full; a non-positive size gives at most one chunk |
| DataLoader.MapSet | packages/92green-rxjs/src/dataloader.js:80-83 | setting a key in the result map makes it map to the value and leaves the other keys alone |
| DataLoader.LastWins | packages/92green-rxjs/src/dataloader.js:80-83 | building the map from the results gives each key the last result with that key |
| DataLoader.MatchBack | packages/92green-rxjs/src/dataloader.js:80-90 | a payload gets the last result whose args have the payload's key, and nothing exactly when no result has that key |
| DataLoader.RouteConserves | packages/92green-rxjs/src/dataloader.js:64-69 | every payload the cache delivers goes either to the found stream or to the not-found stream, exactly once |
| DataLoader.Arrive | packages/92green-rxjs/src/dataloader.js:55-66 | a new key joins the window; a key holding a found item is answered from the cache and never reaches the loader; a key holding a not-found payload replays it into the window; a waiting key gains a waiter |
| DataLoader.SaveEntries | packages/92green-rxjs/src/dataloader.js:85-93 | saving a chunk keeps the cache well formed, and it neither adds nor drops a cached id |
| DataLoader.SaveEntriesMatched | packages/92green-rxjs/src/dataloader.js:85-93 | every payload of a chunk is answered with the result matched to its key |
| DataLoader.SaveEntriesReady | packages/92green-rxjs/src/dataloader.js:93 | after saving a chunk, every id the chunk carried is ready in the cache |
| DataLoader.ProcessChunks | packages/92green-rxjs/src/dataloader.js:74-93 | at most one loader call per chunk; on failure, the last call is the one the loader rejected |
| DataLoader.ProcessCalls | packages/92green-rxjs/src/dataloader.js:74-77 | loader calls carry the chunks' args in payload order, one chunk at a time, and stop at the first rejection |
| DataLoader.Close | packages/92green-rxjs/src/dataloader.js:68-94 | closing a window calls the loader on exactly the window's args, in order, unless a call is rejected; an empty window calls nothing |
| DataLoader.CloseBatches | packages/92green-rxjs/src/dataloader.js:71-73 | every loader call carries between one and `batchSize` args |
| DataLoader.Start | packages/92green-rxjs/src/dataloader.js:51 | the loader starts with an empty unbounded cache and an empty window |
| DataLoader.Feed | packages/92green-rxjs/src/dataloader.js:53-96 | feeding signals keeps the cache well formed and numbers the requests consecutively |
| DataLoader.Session | packages/92green-rxjs/src/dataloader.js:53-96 | the output completes only if the input completed; otherwise it ends as the input did, or fails with a reason that the loader rejects some call with |
| DataLoader.SessionFrom | packages/92green-rxjs/src/dataloader.js:53-96 | one stream from a given state: the output completes only if the input completed; otherwise it ends as the input did, or fails with a reason the loader rejects some call with |
| DataLoader.Run | packages/92green-rxjs/src/dataloader.js:96 | the output is a well-formed trace with one item per answer; it completes only if the input completed, and otherwise ends as the input did or with a loader rejection |
| DataLoader.ArriveConserves | packages/92green-rxjs/src/dataloader.js:55-66 | a request is either answered or becomes outstanding, without disturbing the others |
| DataLoader.CloseConserves | packages/92green-rxjs/src/dataloader.js:68-94 | closing a window loses no outstanding request and answers none twice |
| DataLoader.CloseKeepsInv | packages/92green-rxjs/src/dataloader.js:68-94 | after a window closes, every cached id is ready and the bookkeeping invariant holds |
| DataLoader.FeedConserves | packages/92green-rxjs/src/dataloader.js:53-96 | with a loader that never rejects, the answered and the outstanding requests together are exactly the requests so far |
| DataLoader.EveryRequestAnsweredOnce | packages/92green-rxjs/src/dataloader.js:96 | with a loader that never rejects and a completed input, every request is answered exactly once and the output completes |
| DataLoader.OneItemPerRequest | packages/92green-rxjs/src/dataloader.js:96 | under the same conditions the output has one item per request, `undefined` included |
| DataLoader.EveryRequestAnsweredFrom | packages/92green-rxjs/src/dataloader.js:53-96 | from any state with no open subject and an empty window, a loader that never rejects and a completed input, every request is answered exactly once, the output completes, and no subject is left open |
| DataLoader.CloseRejected | packages/92green-rxjs/src/dataloader.js:77 | with a rejecting loader, a non-empty window fails with the rejection, answers nobody and leaves the cache as it was |
| DataLoader.FeedRejecting | packages/92green-rxjs/src/dataloader.js:74-77 | with a rejecting loader, no request is answered and any failure is that rejection |
| DataLoader.RejectingLoaderFails | packages/92green-rxjs/src/dataloader.js:74-96 | with a rejecting loader, a completed input with a request gives an output that is that error alone |
| DataLoader.Unsubscribe | packages/92green-rxjs/src/memoryCache.js:38-46 | a finished stream leaves every subject in place, open or completed, but no ticket waits any more |
| DataLoader.Stream | packages/92green-rxjs/src/dataloader.js:51-96 | a later stream over the shared cache: it completes only if its input completed; it stays open instead if one of its requests is still unanswered, and otherwise any other ending is a loader rejection |
| DataLoader.LaterStreamAnswered | packages/92green-rxjs/src/dataloader.js:51 | after streams that left only completed subjects, a stream with a loader that never rejects and a completed input answers each request exactly once, completes, and again leaves only completed subjects |
| DataLoader.LaterStreamStalls | packages/92green-rxjs/src/memoryCache.js:38-53 | after a stream whose fetch for `a` was rejected, a later stream asking for `a` with a loader that never rejects fetches nothing, answers nothing and never completes |
| ZipTypes.KeyerOf | packages/92green-rxjs/src/zipDiff.js:34-37 | side A uses `keyBy`; side B uses `keyByB`, or `keyBy` when `keyByB` is absent |
| ZipTypes.Tag | packages/92green-rxjs/src/zipDiff.js:99-103 | a tagged item keeps the item and side and is keyed by its own side's keyer |
| ZipTypes.Single | packages/92green-rxjs/src/zipDiff.js:105-107 | a released item appears under its own side's field only |
| ZipTypes.Join | packages/92green-rxjs/src/zipDiff.js:80-83 | a matched pair carries the A item under `a` and the B item under `b`, whichever arrived first |
| ZipTypes.EndingNeedsBoth | packages/92green-rxjs/src/zipDiff.js:155-159 | the merged input completes only after both sides completed, and fails only with an error a side sent |
| ZipTombstone.Pipe | packages/92green-rxjs/src/zipDiff.js:66-93 | an item with a tombstoned key is dropped; a live other-side partner gives the joined pair and tombstones the key; an unmatched item of a side whose partner completed is emitted alone; otherwise it is stored under its key, silently |
| ZipTombstone.PipeOthers | packages/92green-rxjs/src/zipDiff.js:66-93 | an item never changes the buffer entry of another key |
| ZipTombstone.Release | packages/92green-rxjs/src/zipDiff.js:119-123 | the flush tombstones exactly the live entries of the released side and keeps the rest of the buffer in place |
| ZipTombstone.ReleaseOrder | packages/92green-rxjs/src/zipDiff.js:48-56 | the flush emits the released side's waiting items alone, in buffer insertion order |
| ZipTombstone.ReleaseWaiting | packages/92green-rxjs/src/zipDiff.js:120-122 | after the flush nothing of the released side waits, and the other side's waiting items are unchanged |
| ZipTombstone.Finish | packages/92green-rxjs/src/zipDiff.js:113-125 | when side `s` completes, the other side's waiting items are emitted alone in insertion order, and that side skips the buffer from then on |
| ZipTombstone.Drive | packages/92green-rxjs/src/zipDiff.js:134-159 | the operator ends exactly as the merged input ends, and completion means both sides completed |
| ZipTombstone.ZipDiff | packages/92green-rxjs/src/zipDiff.js:155-159 | the output is well formed and completes only after both inputs completed |
| ZipTombstone.StartInv | packages/92green-rxjs/src/zipDiff.js:46 | the empty buffer satisfies the invariant |
| ZipTombstone.PutKeepsInv | packages/92green-rxjs/src/zipDiff.js:92 | storing an item under its own key keeps one entry per key, each under its item's key |
| ZipTombstone.PipeKeepsInv | packages/92green-rxjs/src/zipDiff.js:66-93 | an item keeps the invariant: one entry per key, each under its item's key, and no live item of a side that skips the buffer |
| ZipTombstone.FinishKeepsInv | packages/92green-rxjs/src/zipDiff.js:113-125 | a flush keeps the invariant |
| ZipTombstone.DriveKeepsInv | packages/92green-rxjs/src/zipDiff.js:134-159 | the invariant holds throughout a run |
| ZipTombstone.ReleaseKeepsTombstone | packages/92green-rxjs/src/zipDiff.js:122 | a flush never revives a tombstone |
| ZipTombstone.TombstonesStay | packages/92green-rxjs/src/zipDiff.js:73-75 | once a key is tombstoned it stays tombstoned for the rest of the run |
| ZipTombstone.DriveConserves | packages/92green-rxjs/src/zipDiff.js:73-92 | the items emitted plus the items still waiting are contained in the items waiting before plus the items accepted |
| ZipTombstone.NoItemEmittedTwice | packages/92green-rxjs/src/zipDiff.js:121-123 | the output's items, with multiplicity, are contained in the input's items: nothing is emitted twice |
| ZipTombstone.NothingLeftBehind | packages/92green-rxjs/src/zipDiff.js:146-153 | when the output completes, no item is left waiting in the buffer |
| ZipTombstone.LateItemReleased | packages/92green-rxjs/src/zipDiff.js:86-89 | when A completes and B then sends an unmatched item and completes, the item is emitted alone as `{b}` before completion |
| ZipRetain.Pipe | packages/blueflag-rxjs/src/zipDiff.js:71-95 | an item with an other-side partner gives the joined pair and leaves the buffer unchanged; an unmatched item is stored under its key, replacing its own side's entry, silently |
| ZipRetain.Release | packages/blueflag-rxjs/src/zipDiff.js:100-104 | the flush deletes entries: what is kept comes from the buffer and belongs to the other side |
| ZipRetain.ReleaseOrder | packages/blueflag-rxjs/src/zipDiff.js:45-51 | the flush emits the released side's items alone, in buffer insertion order |
| ZipRetain.ReleaseWaiting | packages/blueflag-rxjs/src/zipDiff.js:101-104 | after the flush nothing of the released side waits, and the other side's items are unchanged |
| ZipRetain.ReleaseKeeps | packages/blueflag-rxjs/src/zipDiff.js:101-103 | an entry of the other side keeps its key and item through the flush |
| ZipRetain.Finish | packages/blueflag-rxjs/src/zipDiff.js:97-106 | when side `s` completes, the other side's waiting items are emitted alone in insertion order and deleted, and `s`'s waiting items stay |
| ZipRetain.Drive | packages/blueflag-rxjs/src/zipDiff.js:114-125 | the operator ends exactly as the merged input ends |
| ZipRetain.ZipDiff | packages/blueflag-rxjs/src/zipDiff.js:119-125 | the output is well formed and completes only after both inputs completed |
| ZipRetain.PipeKeepsInv | packages/blueflag-rxjs/src/zipDiff.js:76-83 | storing an item keeps one entry per key, each under its item's key |
| ZipRetain.ReleaseUnique | packages/blueflag-rxjs/src/zipDiff.js:103 | deleting flushed entries keeps keys unique and adds no key |
| ZipRetain.FinishKeepsInv | packages/blueflag-rxjs/src/zipDiff.js:97-106 | a flush keeps the invariant |
| ZipRetain.DriveKeepsInv | packages/blueflag-rxjs/src/zipDiff.js:114-125 | the invariant holds throughout a run |
| ZipRetain.LateItemsStay | packages/blueflag-rxjs/src/zipDiff.js:122-123 | an item that waits after its partner side completed stays waiting for the rest of the run |
| ZipRetain.NeverReleasedLate | packages/blueflag-rxjs/src/zipDiff.js:122-123 | once a side has completed, the other side's items are never emitted alone again |
| ZipRetain.OnlyMatchesBeforeCompletion | packages/blueflag-rxjs/src/zipDiff.js:119 | until a side completes, every emitted object holds both an `a` and a `b` item |
| ZipRetain.PartnerReused | packages/blueflag-rxjs/src/zipDiff.js:76-94 | two A items matching one waiting B item both emit a pair with it, and it keeps waiting |
| ZipRetain.NothingInvented | packages/blueflag-rxjs/src/zipDiff.js:114-125 | every emitted item was waiting in the buffer or was delivered by the input |
| ZipRetain.LateItemLost | packages/blueflag-rxjs/src/zipDiff.js:122-123 | when A completes and B then sends an unmatched item and completes, the output completes empty and the item stays buffered |

## Left out

- Rxjs scheduling and lifecycle are not modelled: subscription, `share`, unsubscription (beyond a finished stream no longer waiting on the shared cache), and the interleaving of merged branches beyond one given order. Each operator is one pass over a finite trace.
- `bufferTime` windows are given as `Tick` signals rather than timed by a clock.
- The dataloader's bulk loader answers each call at once, before the next signal, so a window never overlaps a pending call.
- The dataloader's `loader` returns an Observable, which `mergeMap` at line 77 lets emit zero, one or several result arrays, each matched back separately. The model gives each call exactly one result list or one rejection.
- A loader that errors part-way through a window fails the whole output at that call. What the other concurrent branches had already emitted is not modelled.
- The memory cache's LRU map keeps its capacity bound and recency order. `lru_map`'s other internals are not modelled.
- `save` and `clear` of `memoryCache` return the payload unchanged. The model does not return it, because nothing downstream in the modelled core uses it.
- `complete()` does not change what other subscribers of the same source see. This holds because every model function is pure, so there is no member for it.
- `JSON.stringify` string escaping, number formatting and floats are not modelled. Numbers are integers. `for...in` over inherited properties is not modelled either.
- Name ordering is by code point, not by UTF-16 code unit as in JavaScript; the two agree below U+10000.
- The dataloader follows the positional signature `(loader, getArgsFromData, timeToBuffer, batchSize)` of dataloader.js line 49. Its tests pass one object, which that signature does not read.
- The dataloader's `memoryCache()` is created without `maxItems`, so the model's loader cache is unbounded.
- `route.js`, the DynamoDB helpers, the index files and the jest configuration are not part of this model.
- Both `zipDiff` variants give the two sides one item type, because `keyByB` defaults to `keyBy` and must accept both sides' items.
- ArgsKey.ArgsToKey: its own contract gives only the shape of a collection's key. The pairs themselves are stated in `ArgsKey.PresentEntryEncoded`, `ArgsKey.PairEncodesEntry` and `ArgsKey.PairsStrictlySorted`.
- MemoryCache.LoadConserves: stated for a table without `maxItems`. With an LRU table, evicting a waiting id loses its waiters, and the source does the same.
- MemoryCache.SaveConserves: stated for a table without `maxItems`, for the same reason.
- DataLoader.FeedConserves: stated for a loader that never rejects. The rejecting case is covered by `DataLoader.FeedRejecting`.
- DataLoader.EveryRequestAnsweredOnce: stated for a loader that never rejects, and for the first stream through the operator. Later streams are covered by `DataLoader.LaterStreamAnswered`, which needs every subject left by earlier streams to have completed.
- DataLoader.Session: models the first stream through the operator, from a fresh cache. The cache of dataloader.js line 51 is made once per `dataloader(...)` call and shared by every stream the operator is applied to; `DataLoader.Stream` models a later stream. A fetch that was rejected, or a window still pending when the input failed, leaves its subjects open, and the source never clears them (`DataLoader.LaterStreamStalls`). Streams are modelled one after another, not overlapping.
- Both `zipDiff` variants model one subscription of the returned observable. `buffer` and `skipBuffer` (92green zipDiff.js lines 46 and 58; blueflag zipDiff.js line 43) are made once per `zipDiff(...)` call, so a second subscription would share them; that is not modelled.
- MultiCache: layers are per-payload functions. In the source a layer's `load`, `save` and `clear` are rxjs operators (multiCache.js lines 58, 72 and 92) that may drop, repeat or defer payloads; `memoryCache.load`, for one, holds back a payload whose id is waiting (memoryCache.js lines 38-46). Only one-payload-in, one-payload-out layers are modelled.
- DataLoader.CloseKeepsInv: does not state that a replayed not-found payload is fetched again in the next window. The replay path is modelled but not proved.
- DataLoader.Session: answers carry a request number, used only for counting. The output the source emits is the item alone, as `DataLoader.OneItemPerRequest` uses.
- ZipTombstone.NoItemEmittedTwice: stated with multiplicity over item values, since equal items cannot be told apart.
- ZipRetain.NothingInvented: the `blueflag` variant re-emits a waiting partner on every match (`ZipRetain.PartnerReused`), so no at-most-once property holds there and only membership is stated.

## Findings

| source | as written | input that shows it | evidently intended | confidence | as-written member | corrected member |
|---|---|---|---|---|---|---|
| packages/blueflag-rxjs/src/zipDiff.js:122-123 | `sendBufferedItemsOnComplete('b')` runs once, when A completes, so a B item arriving after that without a match is stored and never emitted | A completes, then B emits an item with a new key, then B completes: the output completes without `{b: item}` | once a side has completed, the other side's unmatched items are emitted alone, which the `92green` variant does with its skip flags | medium, not executed | ZipRetain.LateItemLost | ZipTombstone.LateItemReleased |
