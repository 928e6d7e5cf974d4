# RateLimitter in Dafny

This project models `RateLimitter`, a sliding-window admission limiter in the manner of
nftables "limit rate". A caller passes a key (an address, a user id, ...) and a
millisecond timestamp to `allowAccess`. The limiter then does three things:

1. It evicts records from the head of the queue, whatever their key, while the head is older than `timestamp - timeWindow`. It stops at the first record that is not.
2. It rejects the access if the key has a set of at least `accessLimit` records.
3. Otherwise it admits the access: the record goes to the tail of a global queue and into its key's set.

Only admitted accesses are counted, so repeated rejected attempts never extend a block.

## Files

- `access_log.dfy` is module `AccessLog`. It holds the `Access` record and pure functions over the queue:
  - `DropExpired`: eviction from the head.
  - `Index`: the per-key view the map must equal.
  - `Link` and `Unlink`: the map updates done by admission and by eviction.
  - `CountKey`: entries per key.
  - Lemmas about these functions.
- `rate_limitter.dfy` is module `RateLimiting`.
  - Class `RateLimitter` has the fields `accessList` (the queue, a `seq`) and `accessMap` (a `map` from key to a `set` of records), plus the two immutable settings.
  - The class has both constructors and the methods `AllowAccess`, `AddAccess` and `ClearOldAccess`. `ClearOldAccess` is a `while` loop, as in the source.
  - `Valid()` is the class invariant. It requires the queue to hold distinct records. It requires the map to be exactly `Index(accessList)`. It caps every key's set at `max(accessLimit, 1)`.
- `scenarios.dfy` is module `LimiterScenarios`. It holds client methods that replay the unit tests as proved scenarios.

Each record carries an `id`, which stands for Java object identity. `Access` does not
override `equals`, so two accesses with the same key and time are distinct members of a
`HashSet`. The limiter hands out ids from a counter `nextId`, and the counter advances
only when an access is admitted. The object of a rejected access is never stored, so its
identity is never observed.

## Model

| member | source | states |
|---|---|---|
| `RateLimiting.RateLimitter.constructor` | src/main/java/com/example/RateLimitter.java:46-49 | The window and the limit are stored unchecked. The queue and the map start empty, and the invariant holds. |
| `RateLimiting.RateLimitter.Default` | src/main/java/com/example/RateLimitter.java:54-57 | The defaults are a 60000 ms window and a limit of 10, with an empty queue and map. |
| `RateLimiting.RateLimitter.AllowAccess` | src/main/java/com/example/RateLimitter.java:63-79 | Eviction runs first, for all keys. The result is false exactly when the key is present after eviction with at least `accessLimit` records. On false, the state is the evicted state and nothing else. On true, the new record is at the queue's tail and in its key's set (created if absent), and other keys are unchanged. With `accessLimit >= 1`, no key exceeds the limit. A time-ordered queue stays time-ordered when the new time is not before any queued time. A queue with no record later than the call's time still has none afterwards, so calls with non-decreasing times chain. |
| `RateLimiting.RateLimitter.AddAccess` | src/main/java/com/example/RateLimitter.java:84-97 | The record is appended to the queue and added to its key's set, which is created when absent. The lock-step invariant is preserved. |
| `RateLimiting.RateLimitter.ClearOldAccess` | src/main/java/com/example/RateLimitter.java:102-126 | The loop leaves exactly `DropExpired` of the old queue. The head, if any, is not older than `now - timeWindow`. Each evicted record leaves its key's set, and emptied keys leave the map. |
| `RateLimiting.PushKeeps` | src/main/java/com/example/RateLimitter.java:89-96 | Appending a record with a new identity to a key below its limit keeps the invariant: distinct records, map equal to the index, sets within the cap. |
| `RateLimiting.PopKeeps` | src/main/java/com/example/RateLimitter.java:119-123 | Polling the head and unlinking it from its key's set keeps the invariant. The head's key is always in the map, so the source's `get` never returns null here. |
| `RateLimiting.PopShrinks` | src/main/java/com/example/RateLimitter.java:119-123 | Dropping the head keeps ids increasing. Afterwards every key's set is at most as large as before. |
| `RateLimiting.SortedAfter` | src/main/java/com/example/RateLimitter.java:89-125 | Eviction followed by an optional append keeps the queue time-ordered if the new time is not before any queued time. It also keeps every record no later than the new time. |
| `AccessLog.DropExpired` | src/main/java/com/example/RateLimitter.java:109-125 | Eviction as a function: polls the head while it is older than the horizon (strict `<`) and stops at the first record that is not. Its properties are stated by `DropExpiredSpec` and `DropExpiredAt`. |
| `AccessLog.Link` | src/main/java/com/example/RateLimitter.java:90-96 | Index update on admission: the record joins its key's set, and a new one-record set is created when the key is absent. `IndexPush` proves that it yields the index of the extended queue. |
| `AccessLog.Unlink` | src/main/java/com/example/RateLimitter.java:120-122 | Index update on eviction: the record leaves its key's set, and the key is removed once the set is empty. When the key is absent, the map is returned unchanged, where the Java code would throw a NullPointerException at line 120. That branch cannot be reached under the invariant, because `PopKeeps` proves the head's key is in the map. `IndexPop` proves that `Unlink` yields the index of the polled queue. |
| `AccessLog.DropExpiredSpec` | src/main/java/com/example/RateLimitter.java:109-125 | Eviction leaves a suffix of the queue. Every dropped record is older than the horizon, and the new head, if any, is not older. A record exactly at the horizon is kept. |
| `AccessLog.DropExpiredAt` | src/main/java/com/example/RateLimitter.java:109-125 | Eviction stops at the first record that is not expired. It leaves exactly `q[d..]` when the first `d` records are expired and the next is not. |
| `AccessLog.SortedEvictionExact` | src/main/java/com/example/RateLimitter.java:110-116 | On a time-ordered queue, a record survives eviction if and only if its time is not before the horizon. |
| `AccessLog.ExpiredKeyRemoved` | src/main/java/com/example/RateLimitter.java:111-122 | On a time-ordered queue, a key whose records have all expired is absent from the index after eviction, whatever key the caller used. |
| `AccessLog.SortedDropExpired` | src/main/java/com/example/RateLimitter.java:110-116 | Eviction keeps a time-ordered queue time-ordered. |
| `AccessLog.SortedSuffix` | src/main/java/com/example/RateLimitter.java:119 | Every suffix left by polling the head of a time-ordered queue is time-ordered. |
| `AccessLog.SortedAppend` | src/main/java/com/example/RateLimitter.java:89 | Appending a record no older than the queued ones keeps the queue time-ordered. |
| `AccessLog.LockStep` | src/main/java/com/example/RateLimitter.java:27-35 | For the index of any queue, every queued record sits in its own key's set. Every set member is a queued record of that key. No key maps to an empty set. |
| `AccessLog.IndexPop` | src/main/java/com/example/RateLimitter.java:119-123 | The index of the queue without its head equals the old index with the head unlinked: removed from its key's set, and the key dropped once the set is empty. |
| `AccessLog.IndexCons` | src/main/java/com/example/RateLimitter.java:119-123 | Unlinking the first record from the index of `[h] + t` gives the index of `t`, when `h` does not occur in `t`. |
| `AccessLog.PopKeys` | src/main/java/com/example/RateLimitter.java:119-123 | Polling the head shrinks only the head's own key's set, by exactly that record. Other keys and their presence are unchanged. |
| `AccessLog.IndexPush` | src/main/java/com/example/RateLimitter.java:89-96 | The index of the queue with a new record appended equals the old index with that record linked into its key's set. |
| `AccessLog.KeySetCount` | src/main/java/com/example/RateLimitter.java:29-35 | Records are distinct by identity, so a key's set has as many members as the key has queue entries, same-time duplicates included. |
| `AccessLog.IndexCount` | src/main/java/com/example/RateLimitter.java:72-73 | A key is in the map exactly when it has queue entries. Its set size is then its number of entries. |
| `AccessLog.CountKeyAppend` | src/main/java/com/example/RateLimitter.java:89 | Appending a record adds one entry to its own key's count and none to any other key. |
| `AccessLog.EvictionShrinks` | src/main/java/com/example/RateLimitter.java:119-123 | Eviction never adds a record to any key's set and never makes a set larger. |
| `LimiterScenarios.SetLimitScenario` | src/test/java/com/example/RateLimitterTest.java:77-86 | With window 1000 and limit 3, three accesses at one instant are admitted. A fourth in the window is rejected. One at `t + 1001` is admitted. |
| `LimiterScenarios.DefaultLimitScenario` | src/test/java/com/example/RateLimitterTest.java:45-75 | With the defaults, ten accesses of one address are admitted and the eleventh rejected. A second address gets its own ten. An access at `t + 60001` is admitted, leaves fewer than 10 queued records, and leaves the second address without a map entry. |
| `LimiterScenarios.ZeroLimitScenario` | src/main/java/com/example/RateLimitter.java:72-74 | With limit 0, a key without records is still admitted once, and its next access in the window is rejected. |
| `LimiterScenarios.AllowRepeatedly` | src/test/java/com/example/RateLimitterTest.java:18-20 | Repeated accesses within the window are all admitted while the key has room. Its count grows by one per call, and other keys' counts stay the same. |
| `LimiterScenarios.Rejected` | src/main/java/com/example/RateLimitter.java:72-74 | An access by a key that has used its limit within the window is rejected and leaves the queue unchanged. Rejected attempts leave no trace. |
| `LimiterScenarios.AllowedAfterExpiry` | src/test/java/com/example/RateLimitterTest.java:70-73 | An access after every queued record has expired is admitted, and the invariant still holds. The queue then holds that one record, with the caller's key and time. The map then holds that key alone, mapped to the set of that one record. |

Two behaviours of the code that the model keeps:

- **Construction.** The constructors do not reject a non-positive window or limit (RateLimitter.java:46-49). With `accessLimit <= 0`, a key without records is still admitted once, because the rejection test requires the key's set to exist (RateLimitter.java:73). `ZeroLimitScenario` shows this. `Valid()` therefore caps sets at `max(accessLimit, 1)`.
- **Scenario timestamps.** The tests read the clock on every call, so the times within a run are successive, non-decreasing clock readings. The scenarios put every call of a run at one instant `t`, which is one of the runs the tests allow, and then make one call at `t + window + 1`.

## Left out

- `synchronized` on `allowAccess`: the model is sequential, and each `AllowAccess` call is one atomic step.
- Java `long` overflow in `accessTime - timeWindow`: times and windows are unbounded integers.
- `Serializable` and the test's serialized-size check (`getMemoryConsumption`): these are Java object serialization with no behaviour to model.
- The clock: the tests read `System.currentTimeMillis()`. Here the time is a parameter, and the scenarios take an arbitrary `t`.
- `ArrayDeque`, `HashMap` and `HashSet` internals and their amortised cost: the queue is a `seq`, the map a `map`, and each key's records a `set` of identity-carrying records.
- `src/main/java/com/example/Access.java`: a getter/setter bean that `RateLimitter` does not use. Only the key-and-time `Access` record declared in RateLimitter.java is modelled.
- Caller-supplied timestamps are not required to be non-decreasing, as in the source. Time order of the queue is proved only under that condition (`AllowAccess`, `SortedAfter`). Without it, the model evicts exactly what the source evicts, which is not always every expired record.
- `LimiterScenarios.AllowRepeatedly` requires a non-negative window. The scenarios use 1000 ms and 60000 ms.
- `RateLimiting.RateLimitter.AddAccess` requires the key to be below its limit. That is the guard at its only call site (RateLimitter.java:73-76), and the per-key cap in the invariant depends on it. The private Java method does not check it itself.
