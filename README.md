# leviq: a verified model of the queue engine and the goleveldb bucket adapter

leviq keeps persistent FIFO-style queues in an ordered key-value store
(LevelDB). A queue owns a namespace, which is a key prefix. Each entry is stored at
`namespace + ID.Key()`. An in-memory heap holds the IDs waiting to be taken,
and an availability channel holds one token per waiting ID. The goleveldb
backend exposes the same store as namespaced buckets. Each bucket supports
ordered iteration, atomic batches, point reads and clearing.

The model has four modules:

- `Ordered` (`ordered.dfy`) defines byte strings and their lexicographic order.
  `SortedKeys` is the ascending enumeration of a finite key set, and is the order a store
  iterator yields keys in. Its lemmas show this key order is a strict total order, and that the keys under a prefix form
  one contiguous run.
- `KV` (`kv.dfy`) models the store as a class over a `map` from keys to values.
  A batch is a sequence of records applied in order (`Apply`). An iterator is a snapshot
  enumeration built one least key at a time (`Enumerate`, `Store.Seek`,
  `Store.PrefixRange`). `SeekReachesPrefixFirst` proves that a seek to a
  prefix meets the prefix's keys first, in order.
- `GoLevelDB` (`goleveldb.dfy`) models `backend/goleveldb/goleveldb.go`, the
  `Bucket` and `Batch` classes.
- `Leviq` (`queue.dfy`) models `queue.go`, the `Queue` class with its ID
  heap and token counter.

Modelling decisions:

- The availability channel `c` is the counter `Queue.tokens`. `Queue.Valid()`
  states that it always equals the number of waiting IDs.
- awaitKeys's timer is the parameter `cutoff`: the number of tokens the loop
  receives before the timer fires. This covers both outcomes of Go's `select`
  when a token and the timeout are ready together.
- The model is sequential. No other goroutine puts while awaitKey waits.
- `internal.KeyToID` and `ID.Key` are functions of a `Codec`. Where a
  proof needs the two to be inverse, that is the hypothesis
  `RoundTrips(codec)`.
- `KeyToID` returns an ID together with its error. The ID it returns on
  failure is the codec's third function, `idOnError`, and `take` stores it as
  queue.go:192 does.
- `splitKey` and `joinKey` are not part of this model's sources. They are
  given concrete definitions: `JoinKey` concatenates the namespace and the key,
  and `SplitKey` strips the namespace exactly when the key has it as a byte
  prefix. `RecoveryScansNamespace`, `ClearAsWrittenDiverges` and
  `StageDeletes` rely on that definition.
- `internal.IDHeap` is known only through its pop: some waiting ID is removed and returned.
- A read failure of the levigo store is the parameter `faulty`, the set of
  keys whose `Get` fails.
- A batch function is given as the sequence of calls it makes
  (`BatchCall`) and the error it returns. A `ForEach` callback is a pure
  function from a key and value to an optional error.

The model follows the code in these places:

- When `take` fails to read a value, it returns only the error. The IDs it
  already popped are not pushed back onto the heap (queue.go:183-189).
- goleveldb's `Get` reports `ErrNotFound` for a missing key (`Store.Get`).
- `take` keeps only the error of the last key's conversion: each iteration
  overwrites `err` (queue.go:192). With a round-tripping codec no conversion
  fails (`TakeDecodesPopped`).
- `awaitKeys` with `n <= 0` never returns early, because the length check at
  queue.go:163 never matches. It then pops until the tokens run out or the
  timer fires, and its contract pins exactly that result.

The helper functions `KeysOf` (the keys of a sequence of IDs) and `OnlyKey`
(awaitKey's choice between `b[0]` and nil) appear in the contracts of
`Queue.AwaitKeys`, `Queue.Take` and `Queue.AwaitKey`.

## Model

| member | source | states |
|---|---|---|
| Leviq.Queue.Init | queue.go:26-57 | pushes, with one token each, the IDs that `InitScan` decodes from the namespace's keys in ascending order, and returns the error it stops at; the heap/token invariant is kept |
| Leviq.Queue.Recover | queue.go:41-56 | the recovery loop over an iterator's keys: stops at the first key outside the namespace, returns the first decoding error, otherwise pushes the ID with one token |
| Leviq.RecoveryScansNamespace | queue.go:33-45 | seeking to the namespace and stopping at the first key outside it scans exactly the namespace's keys in order, so keys beyond the namespace never matter |
| Leviq.InitScanStopsAtNamespaceEnd | queue.go:42-46 | keys after the first key outside the namespace are never decoded |
| Leviq.InitScanDecodes | queue.go:41-54 | every pushed ID is the decoding of the corresponding namespace key, in order; without an error all keys are pushed; with one, the scan stops exactly at the first key that fails to decode and returns its error |
| Leviq.JoinKey | queue.go:185 | the joined key has the namespace as prefix and the key as the rest |
| Leviq.SplitKey | queue.go:42-46 | a key is split exactly when it has the namespace as prefix, and joining the result gives the key back |
| Leviq.Queue.SetSync | queue.go:62-64 | sets the sync flag to the argument and changes nothing else |
| Leviq.Queue.ClearCorrected | queue.go:68-97 | `Clear` corrected to advance the iterator: one write removes exactly the keys under the namespace and leaves every other key untouched |
| Leviq.ClearLoopAsWritten | queue.go:83-89 | the loop as written, bounded by fuel: if it exits at all, it exits without having staged anything |
| Leviq.StageDeletes | queue.go:83-89 | the corrected loop, which advances the iterator: it stages one delete for each key of the namespace's run and stops at the first key outside it |
| Leviq.ClearLoopNeverExits | queue.go:83-89 | as written, the loop never exits once the iterator stands on a key of the namespace, for any number of iterations |
| Leviq.ClearAsWrittenDiverges | queue.go:68-97 | as written, `Clear` on a store with any key in the namespace never reaches its write |
| Leviq.ClearLoopEmptyNamespace | queue.go:83-89 | as written, `Clear` on an empty namespace exits at once with an empty batch |
| Leviq.IDHeap.constructor | queue.go:103-104 | `internal.NewIDHeap`: a new heap holds no IDs |
| Leviq.Queue.constructor | queue.go:15-22 | the queue's fields: its namespace, store and codec, a fresh empty heap, no tokens (so the invariant holds) and `sync` off; the code that creates a queue is not part of this model, so the initial `sync` value is an assumption |
| Leviq.Queue.Transaction | queue.go:100-107 | returns a new transaction on this queue with two fresh, distinct, empty ID heaps |
| Leviq.Txn.constructor | queue.go:101-106 | the transaction refers to its queue and holds fresh empty `puts` and `takes` heaps |
| Leviq.IDHeap.PushID | queue.go:51 | the heap gains exactly the pushed ID |
| Leviq.IDHeap.PopID | queue.go:129 | removes and returns one ID that was waiting |
| Leviq.Queue.PutKey | queue.go:111-118 | every given ID joins the heap with one token each; the token count grows by the number of IDs |
| Leviq.Queue.AwaitKey | queue.go:123-143 | with a token, pops exactly one waiting ID and returns its key; without one, returns nil and pops nothing |
| Leviq.Queue.AwaitKeys | queue.go:148-171 | pops IDs and returns their keys until it has `n` keys (only for `n >= 1`), the tokens run out or the timer fires; never more than the available tokens, the cutoff, or `n` when `n >= 1`; the keys are exactly those of the IDs removed from the heap; nothing but the tokens and the heap changes |
| Leviq.Queue.Take | queue.go:174-196 | awaits up to `n` keys; if reading any of them fails, returns only the error; otherwise returns the keys, their values read at `namespace + key`, one converted ID per key and the last conversion's error; popped IDs leave the heap in both cases |
| Leviq.Queue.ReadTaken | queue.go:178-195 | the read loop: the value of each key at `namespace + key`, one converted ID per key and the last conversion error, or only the read error if any read fails |
| Leviq.DecodedIDs | queue.go:179-192 | one ID per key, each the ID `KeyToID` returns for that key, whether or not it also fails |
| Leviq.TakeDecodesPopped | queue.go:192 | with a round-tripping codec, the IDs `take` returns are exactly the popped IDs, with no error |
| GoLevelDB.Bucket.constructor | backend/goleveldb/goleveldb.go:49-54 | a bucket of a store whose namespace is the name's bytes |
| GoLevelDB.Bucket.ForEach | backend/goleveldb/goleveldb.go:70-83 | the callback calls and the returned error are `Visit` over the bucket's entries in ascending key order |
| GoLevelDB.VisitRange | backend/goleveldb/goleveldb.go:74-82 | the iteration loop hands each key, with the namespace stripped, and its value to the callback until one fails |
| GoLevelDB.VisitStopsAtFirstError | backend/goleveldb/goleveldb.go:74-82 | the callback sees a prefix of the entries in order, up to and including the first failing one, whose error is returned; there is no error exactly when no callback fails, and then every entry is visited |
| GoLevelDB.BucketEntriesExact | backend/goleveldb/goleveldb.go:71-76 | the entries visited are exactly the store's keys under the namespace, stripped of it, in ascending order, each with its stored value |
| GoLevelDB.Bucket.Batch | backend/goleveldb/goleveldb.go:89-100 | a failing batch function leaves the store unchanged and its error is returned; otherwise all staged records are applied in one write |
| GoLevelDB.StagedInNamespace | backend/goleveldb/goleveldb.go:132-142 | every staged record names a key under the bucket's namespace |
| GoLevelDB.BatchIsolation | backend/goleveldb/goleveldb.go:89-100 | a batch through a bucket leaves every key outside its namespace unchanged |
| GoLevelDB.StagedAppend | backend/goleveldb/goleveldb.go:132-142 | calls without a clear stage their records after the earlier ones |
| GoLevelDB.StagedAvoids | backend/goleveldb/goleveldb.go:132-142 | calls that never name `k` stage no record on the namespaced `k` |
| GoLevelDB.GetAfterBatchPut | backend/goleveldb/goleveldb.go:132-136 | after a committed batch that puts `(k, v)` and does not later clear or touch `k`, the store holds `v` at the namespaced `k` |
| GoLevelDB.Bucket.Get | backend/goleveldb/goleveldb.go:103-106 | returns the value at the namespaced key, or `ErrNotFound` exactly when that key is missing |
| GoLevelDB.Batch.constructor | backend/goleveldb/goleveldb.go:90-94 | a handle on the bucket's store and namespace with nothing staged |
| GoLevelDB.Batch.Put | backend/goleveldb/goleveldb.go:132-136 | stages one put on the namespaced key and returns no error |
| GoLevelDB.Batch.Delete | backend/goleveldb/goleveldb.go:138-142 | stages one delete on the namespaced key and returns no error |
| GoLevelDB.Batch.Write | backend/goleveldb/goleveldb.go:144-147 | applies every staged record to the store in one write |
| GoLevelDB.Batch.Clear | backend/goleveldb/goleveldb.go:149-151 | drops everything staged |
| GoLevelDB.Batch.Close | backend/goleveldb/goleveldb.go:153-155 | drops everything staged |
| GoLevelDB.Bucket.Clear | backend/goleveldb/goleveldb.go:109-123 | as written: the store afterwards is `ClearedAsWritten`, with the stripped keys removed instead of the range's keys |
| GoLevelDB.ClearAsWrittenKeeps | backend/goleveldb/goleveldb.go:115-119 | as written, a key survives exactly when the namespace followed by it is not also a stored key |
| GoLevelDB.StrippedRange | backend/goleveldb/goleveldb.go:115-118 | the keys the loop deletes are exactly the range's keys with the namespace stripped |
| GoLevelDB.ClearAsWrittenMisses | backend/goleveldb/goleveldb.go:109-123 | a concrete store where clearing namespace `[1]` keeps its key `[1,2]` and deletes the outside key `[2]` |
| GoLevelDB.ClearAsWrittenEmptyNamespace | backend/goleveldb/goleveldb.go:109-123 | with the empty namespace the stripped keys are the keys, so as written the store is emptied |
| GoLevelDB.ClearAsWrittenKeepsSome | backend/goleveldb/goleveldb.go:115-119 | as written, clearing a non-empty namespace that holds keys always leaves at least one of its keys, so the store is emptied of the namespace only when the namespace is empty |
| GoLevelDB.Bucket.ClearCorrected | backend/goleveldb/goleveldb.go:109-123 | deleting the full keys instead: exactly the keys under the namespace are removed and every other key stays |

The supporting modules have no source lines of their own. `KV.Store.Seek`
and `KV.Store.PrefixRange` give the iterators of queue.go:30-38 and
goleveldb.go:71-72 in the order `Ordered.SortedKeys` fixes. `KV.Apply`
and its lemmas give the atomic write of queue.go:96 and goleveldb.go:122
and 146.

## Left out

- `Open`, `Destroy`, `New`, `NewMem` and `DB.Close` of the adapter are left out: they open or remove files and storage engines.
- Concurrency is left out: the queue's mutex, the `select` blocking on the channel, and producers putting while a consumer waits. The model is sequential.
- Time is left out: the timer in `awaitKeys` is represented by the `cutoff` parameter and is not otherwise modelled.
- Errors of the engine itself are left out for goleveldb's `Get`, `Write` and iterators, and for levigo's `Write`: the model's writes and iterations always succeed. Only levigo read failures in `take` are modelled, through `faulty`.
- The `internal` package is not part of this model. The heap order, the key encoding of IDs and `KeyToID`, including the ID it returns on failure, are parameters.
- `splitKey` and `joinKey` are not part of this model. They are defined here as prefix stripping and concatenation.
- Leviq.IDHeap.PopID: returns any waiting ID, not necessarily the least, since the heap's ordering lives in the `internal` package.
- Leviq.Queue.AwaitKey: for a nonzero wait with no token available, the model returns nil, because no other caller can put during the wait.
- levigo's `Get` returns nil for a missing key and a zero-length slice for a stored empty value; the model reads both as the empty value (`Store.GetOrNil`), so the values `take` returns do not tell a stale ID's missing entry from an empty one.
- Callbacks and batch functions are pure in the model: the calls a batch function makes are given up front, and neither kind of function can touch the store while it runs.
- `append(ns[:], k...)` may write into spare capacity of `ns` that other slices share. Byte sequences are values here, so this aliasing is not modelled.
- `MaxQueue` is left out: queue.go never uses it.
- The `sync` flag and the write options only affect durability. Their values are recorded and have no other effect.

## Findings

| source | as written | input that shows it | evidently intended | confidence | as-written member | corrected member |
|---|---|---|---|---|---|---|
| queue.go:83-89 | the loop of `Queue.Clear` never calls `it.Next()`, so it stages deletes of the same key forever and never writes | any store holding a key under the queue's namespace | advance the iterator after each delete, so every key of the namespace is deleted in one batch | not executed | Leviq.ClearAsWrittenDiverges | Leviq.Queue.ClearCorrected |
| backend/goleveldb/goleveldb.go:115-119 | `Bucket.Clear` deletes `k`, the key with the namespace stripped, instead of `kk` | store `{[1,2]: [7], [2]: [8]}`, namespace `[1]`: `[1,2]` survives and `[2]` is deleted | delete `kk`, removing exactly the bucket's keys | not executed | GoLevelDB.ClearAsWrittenMisses | GoLevelDB.Bucket.ClearCorrected |
