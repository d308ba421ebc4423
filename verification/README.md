# Caching table factory

A model of Phoenix's `CachingHTableFactory`. This is the table factory that the
secondary-index writer uses to reach index tables. It keeps one
`CachedHTableWrapper` per table name in a bounded LRU map. A shared list,
`workingTables`, records every wrapper that has been handed out and not yet
closed. When the map is full, its eviction hook `removeLRU` closes a least
recently used wrapper, but only one that nobody holds.

The model is a functional state machine. A `Factory` value holds:

- the cache as a sequence of `(name, wrapper)` entries, least recently used first;
- the grants (the `workingTables` list) as a multiset of wrapper identities;
- how many times each wrapper's raw handle has had its close called;
- how many times the delegate factory was asked to open each name;
- the identity the next wrapper will get.

`getTable`, the wrapper's `close` and the eviction hook are pure transitions
on that value. Calls into code the model cannot see are parameters of the
transition: whether the delegate's open throws, and whether a raw close
throws. The same holds for the LRU map's ordering, which the model assumes
as written in the `CachingFactory` module comment:

- a hit moves the entry to the most-recent end;
- a put of a new name into a full map scans from the least-recent end until the hook accepts an entry, and removes that entry;
- if the hook accepts no entry, the new entry is added all the same.

Modules:

- `Outcomes`: `Option` and `Status`.
- `BytesPtrs`: table names as a window onto a byte buffer, compared by the bytes inside the window.
- `Recency`: the ordered index, with lookup, removal and move-to-most-recent.
- `CachingFactory`: the factory, the hook, `getTable`, `close`, and the well-formedness invariant `Valid`.
- `Sessions`:
  - sequences of calls with an event log and the grant-accounting theorem;
  - a client-side view, `Session`, whose step keeps the factory's grants equal to what the clients hold.
- `Scenarios`: concrete runs showing the eviction order and the two surprising behaviours of the code.

Some of the code's behaviour differs from what its own comments suggest or
from what a caller might expect. The model follows the code:

- An eviction never removes a victim that is still in use. The comment on
  `close` (lines 135-139) says the real close happens when the eviction
  happens, and that it waits until every grant is cleared out. The hook
  returns false for a held victim, so the entry stays cached, and the cache
  can hold more entries than its capacity. Once the victim's grants reach
  zero, a later eviction scan closes it and removes it (`CachingFactory.Insert`).
  `Scenarios.HeldVictimStays` shows the first half.
- A victim whose close throws is not removed. The log message at lines 71-72
  says the failure is ignored "since being removed from queue". The hook then
  returns false, so the entry stays cached: its close was called and threw,
  and the next `getTable` for that name hands the same wrapper out again.
  `Scenarios.FailedCloseStaysCached` and `Scenarios.ClosedWrapperHandedOut`
  show this.
- Physical close is not at most once. Every `close` that finds no grant
  closes the raw handle again (`Scenarios.RepeatedCloseClosesAgain`).

## Model

| member | source | states |
|---|---|---|
| CachingFactory.New | phoenix-core/src/main/java/org/apache/phoenix/hbase/index/table/CachingHTableFactory.java:96-99 | A factory exists exactly when the cache size is at least one, since the LRU map refuses a smaller size. It starts with an empty cache, no grants, no closes and no opens, and it is well formed. |
| CachingFactory.RemoveLru | phoenix-core/src/main/java/org/apache/phoenix/hbase/index/table/CachingHTableFactory.java:56-75 | On a victim with no grant, the hook calls its raw close exactly once. It accepts the victim if and only if the victim has no grant and that close does not throw. On a victim with a grant it calls no close. No other handle's close count changes. |
| CachingFactory.Scan | phoenix-core/src/main/java/org/apache/phoenix/hbase/index/table/CachingHTableFactory.java:50-57 | The victim is the first entry, counting from the least-recent end, that the hook accepts. Every entry before it was refused. |
| CachingFactory.ScanCloses | phoenix-core/src/main/java/org/apache/phoenix/hbase/index/table/CachingHTableFactory.java:57-68 | The scan calls close exactly once on each ungranted entry it hands to the hook, up to and including the victim, and on nothing else. |
| CachingFactory.UnusedUnheld | phoenix-core/src/main/java/org/apache/phoenix/hbase/index/table/CachingHTableFactory.java:64-66 | Everything the eviction closes has zero grants. |
| CachingFactory.UnusedCovers | phoenix-core/src/main/java/org/apache/phoenix/hbase/index/table/CachingHTableFactory.java:64-66 | Every ungranted entry the scan passes is closed. |
| CachingFactory.UnusedCached | phoenix-core/src/main/java/org/apache/phoenix/hbase/index/table/CachingHTableFactory.java:57-58 | The eviction closes only wrappers that are in the cache. |
| CachingFactory.Insert | phoenix-core/src/main/java/org/apache/phoenix/hbase/index/table/CachingHTableFactory.java:109 | Below capacity, the new entry is appended and nothing is closed. At capacity, the first acceptable entry is removed, and the closes grow by the ungranted entries up to and including it. If no entry is acceptable, every entry was refused and the new one is appended anyway. Either way the new entry is the most recently used one, only ungranted handles are closed, and nothing but the cache and the close counts changes. |
| CachingFactory.GetTable | phoenix-core/src/main/java/org/apache/phoenix/hbase/index/table/CachingHTableFactory.java:103-115 | `getTable` returns a wrapper unless the delegate's open threw. The hit and miss cases are stated in full by the next two rows. |
| CachingFactory.GetTableHit | phoenix-core/src/main/java/org/apache/phoenix/hbase/index/table/CachingHTableFactory.java:106-113 | A hit returns the wrapper already cached under the name. It makes no delegate call and no close. It adds exactly one grant for that wrapper and none for any other, and makes the entry the most recently used. |
| CachingFactory.GetTableMiss | phoenix-core/src/main/java/org/apache/phoenix/hbase/index/table/CachingHTableFactory.java:106-109 | A miss calls the delegate exactly once for the name. If the delegate throws, that call is the only change. Otherwise the new wrapper gets a fresh identity and exactly one grant (from the constructor, lines 126-130), and it is cached under the name as the most recently used entry. |
| CachingFactory.WrapperCreated | phoenix-core/src/main/java/org/apache/phoenix/hbase/index/table/CachingHTableFactory.java:126-130 | Creating the wrapper on a miss (line 108) adds exactly one delegate call, for the name, and exactly one grant, for the new identity. It leaves the cache, the capacity and the close counts alone. |
| CachingFactory.GetTableClosesOnlyUnused | phoenix-core/src/main/java/org/apache/phoenix/hbase/index/table/CachingHTableFactory.java:64-68 | `getTable` closes only raw handles whose wrappers have zero grants, both before and after the call. |
| CachingFactory.Close | phoenix-core/src/main/java/org/apache/phoenix/hbase/index/table/CachingHTableFactory.java:133-143 | With at least one grant, close removes exactly one of its own grants, closes nothing, changes no other grant and reports success. With no grant, close leaves the grants unchanged, calls the raw close exactly once, and reports failure if and only if that close throws. |
| CachingFactory.GetTableKeepsValid | phoenix-core/src/main/java/org/apache/phoenix/hbase/index/table/CachingHTableFactory.java:103-115 | After any `getTable`, whether a hit, a miss or a failed open: names and wrappers in the cache are distinct, only created wrappers appear, and every wrapper that left the cache has no grant and has been closed. |
| CachingFactory.InsertKeepsValid | phoenix-core/src/main/java/org/apache/phoenix/hbase/index/table/CachingHTableFactory.java:107-109 | Putting a freshly created wrapper under an uncached name keeps the same invariant, including for the victim that leaves. |
| CachingFactory.CloseKeepsValid | phoenix-core/src/main/java/org/apache/phoenix/hbase/index/table/CachingHTableFactory.java:133-143 | A wrapper's `close` keeps the same invariant. |
| BytesPtrs.BytesPtr.Key | phoenix-core/src/main/java/org/apache/phoenix/hbase/index/table/CachingHTableFactory.java:104 | The cache key is a copy of the pointer's window: it has the window's length, and its bytes are the window's bytes in order. |
| Recency.Find | phoenix-core/src/main/java/org/apache/phoenix/hbase/index/table/CachingHTableFactory.java:106 | Lookup compares names by their bytes. A result is the position of an entry under exactly those bytes, and no earlier entry has them. There is no result if and only if no entry has them. |
| Recency.Touch | phoenix-core/src/main/java/org/apache/phoenix/hbase/index/table/CachingHTableFactory.java:106 | A hit makes its entry the last (most recently used) one. The other entries keep their relative order, and no entry is gained or lost. |
| Sessions.Apply | phoenix-core/src/main/java/org/apache/phoenix/hbase/index/table/CachingHTableFactory.java:103-143 | Each call keeps the factory well formed. A call that returns a wrapper adds one grant for it. A close that finds a grant removes one. Any other call leaves the grants alone. On any call, a raw close happens only on a wrapper that had no grant. A skipped call changes nothing. |
| Sessions.GrantAccounting | phoenix-core/src/main/java/org/apache/phoenix/hbase/index/table/CachingHTableFactory.java:103-143 | Over any sequence of calls, a wrapper's grant count equals the number of `getTable` calls that returned it minus the number of its `close` calls that found a grant to remove (plus its starting count). |
| Sessions.Start | phoenix-core/src/main/java/org/apache/phoenix/hbase/index/table/CachingHTableFactory.java:96-99 | A new factory's grants agree with clients that hold nothing. |
| Sessions.Step | phoenix-core/src/main/java/org/apache/phoenix/hbase/index/table/CachingHTableFactory.java:103-143 | With clients that close only wrappers they hold, each call keeps the factory's grants equal to the wrappers the clients hold. No raw handle is closed while a client holds its wrapper. A client's `close` never closes a raw handle. |
| Scenarios.SameBytesSameEntry | phoenix-core/src/main/java/org/apache/phoenix/hbase/index/table/CachingHTableFactory.java:104-109 | Two pointers whose windows hold the same bytes get the same answer from `getTable`, whatever the buffers around the windows hold. |
| Scenarios.RepeatedCloseClosesAgain | phoenix-core/src/main/java/org/apache/phoenix/hbase/index/table/CachingHTableFactory.java:134-141 | Two closes of a wrapper with no grant call the raw close twice. |
| Scenarios.FirstOpen | phoenix-core/src/main/java/org/apache/phoenix/hbase/index/table/CachingHTableFactory.java:96-113 | With capacity 2, the first `getTable` A creates wrapper 0 with one grant, and its caller's close only returns that grant. |
| Scenarios.SecondOpen | phoenix-core/src/main/java/org/apache/phoenix/hbase/index/table/CachingHTableFactory.java:107-109 | Below capacity, B is appended as wrapper 1 and nothing is closed. |
| Scenarios.HitMovesToBack | phoenix-core/src/main/java/org/apache/phoenix/hbase/index/table/CachingHTableFactory.java:106-113 | A hit on A returns wrapper 0 again and moves A to the most-recent end. |
| Scenarios.EvictionOrder | phoenix-core/src/main/java/org/apache/phoenix/hbase/index/table/CachingHTableFactory.java:56-68 | After A, B, A, a `getTable` C evicts B, the least recently used, and closes B's raw handle. A stays cached. |
| Scenarios.FirstOpenSmall | phoenix-core/src/main/java/org/apache/phoenix/hbase/index/table/CachingHTableFactory.java:107-109 | With capacity 1, the first `getTable` A creates wrapper 0 with one grant. |
| Scenarios.HeldVictimStays | phoenix-core/src/main/java/org/apache/phoenix/hbase/index/table/CachingHTableFactory.java:64-74 | With capacity 1 and A's wrapper held, `getTable` B neither closes nor removes A. The cache ends up holding both entries. |
| Scenarios.HeldScan | phoenix-core/src/main/java/org/apache/phoenix/hbase/index/table/CachingHTableFactory.java:64-74 | In that run, the scan for B's insertion refuses the held A without closing it, and B is appended anyway. |
| Scenarios.ThrowingScan | phoenix-core/src/main/java/org/apache/phoenix/hbase/index/table/CachingHTableFactory.java:63-74 | In the third run, the scan for B's insertion calls the free A's raw close. The close throws, the hook refuses A, and B is appended next to it. |
| Scenarios.FailedCloseStaysCached | phoenix-core/src/main/java/org/apache/phoenix/hbase/index/table/CachingHTableFactory.java:63-74 | With capacity 1 and A released, `getTable` B calls A's raw close. When that close throws, A stays cached next to B, with its close counted once. |
| Scenarios.ClosedWrapperHandedOut | phoenix-core/src/main/java/org/apache/phoenix/hbase/index/table/CachingHTableFactory.java:106-113 | The next `getTable` A then hands out wrapper 0, whose raw handle has already been closed. |

## Left out

- Thread synchronisation: the `synchronized` blocks at lines 64 and 105, and the synchronized list at line 85. Each public call is one atomic transition; interleavings are not modelled.
- The LRU map itself. It is not part of this model; its ordering and its no-victim behaviour are the assumptions stated above, and the map's own argument check is the `cacheSize >= 1` condition of `New`.
- A capacity bound. Nothing bounds the cache size, because a map whose entries are all held grows past its capacity (`Scenarios.HeldVictimStays`).
- `getCacheSize` and the `Configuration` constructor (lines 78-80 and 92-94). They only read a setting whose default is 1000; the model takes the size as given.
- Logging and `Bytes.toString`.
- `shutdown` (lines 118-120). It only forwards to the delegate.
- `DelegateHTable` forwarding and all HBase I/O. Opening and closing a raw handle are events recorded in counters, and their failures are parameters.
- Wrapper equality. `workingTables.contains` and `remove` compare wrappers with `equals`. The model compares them by identity, since `DelegateHTable`'s equality is not part of this model.
- Physical close "at most once". The code does not promise it (`Scenarios.RepeatedCloseClosesAgain`).
- Sessions.Step: the no-close-while-held property is stated for one call, given a consistent session. Together with `Sessions.Start` it is an inductive invariant. It is not restated as a theorem over whole call sequences.
- Scenarios.ClosedWrapperHandedOut: states the returned wrapper and its close count, not the whole resulting state.
