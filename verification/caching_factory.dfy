/**
 The caching table factory: a name-to-wrapper cache in front of a delegate
 factory, a shared multiset of grants (one per wrapper handed out and not yet
 closed), and the eviction hook that decides whether the least recently used
 wrapper may leave the cache.

 Every public operation is one atomic transition on an immutable `Factory`.
 The outcomes of calls into code that is not modelled (the delegate's open, a
 raw handle's close) are parameters.

 The ordering policy comes from an LRU map library that is not part of this
 model. It is assumed to behave as follows. A lookup hit moves the entry to
 the most-recent end. Inserting a new name while the map holds `capacity` or
 more entries scans from the least-recent end, calling the hook on each entry
 until one is accepted. That entry is removed. If none is accepted, the new
 entry is added anyway.
 */
module CachingFactory {
  import opened Outcomes
  import opened BytesPtrs
  import opened Recency

  datatype Factory = Factory(
    capacity: nat,
    /** cached entries, least recently used first */
    recency: seq<Entry>,
    /** the shared working-tables list: one occurrence per outstanding grant */
    grants: multiset<HandleId>,
    /** how many times each wrapper's raw handle has had its close called */
    closes: multiset<HandleId>,
    /** how many times the delegate was asked to open each name */
    opens: multiset<Name>,
    /** identity the next wrapper will get */
    nextHandle: HandleId)

  /**
   The state every reachable factory is in: the index is a map, only created
   wrappers appear anywhere, and every wrapper that has left the cache holds
   no grant and has had its raw handle's close called.
   */
  ghost predicate Valid(f: Factory) {
    && f.capacity >= 1
    && DistinctNames(f.recency)
    && DistinctHandles(f.recency)
    && Allocated(f)
    && LeftClosed(f)
  }

  /** Only wrappers already created are cached, granted or closed. */
  ghost predicate Allocated(f: Factory) {
    && (forall k :: 0 <= k < |f.recency| ==> f.recency[k].handle < f.nextHandle)
    && (forall h :: h in f.grants ==> h < f.nextHandle)
    && (forall h :: h in f.closes ==> h < f.nextHandle)
  }

  /** A wrapper that has left the cache holds no grant and has had its raw handle's close called. */
  ghost predicate LeftClosed(f: Factory) {
    forall h: HandleId :: h < f.nextHandle && h !in Handles(f.recency) ==> f.grants[h] == 0 && f.closes[h] >= 1
  }

  /** A factory over an empty cache of the given size; the map rejects a size below one. */
  function New(cacheSize: int): (r: Option<Factory>)
    ensures r.Some? <==> cacheSize >= 1
    ensures r.Some? ==> Valid(r.value) && r.value.capacity == cacheSize
    ensures r.Some? ==> r.value.recency == [] && r.value.grants == multiset{}
    ensures r.Some? ==> r.value.closes == multiset{} && r.value.opens == multiset{}
  {
    if cacheSize < 1 then None
    else Some(Factory(cacheSize, [], multiset{}, multiset{}, multiset{}, 0))
  }

  /** The hook accepts a victim: nobody holds a grant on it and its close does not throw. */
  predicate Removable(grants: multiset<HandleId>, h: HandleId, throws: set<HandleId>) {
    grants[h] == 0 && h !in throws
  }

  datatype Hook = Hook(removable: bool, closes: multiset<HandleId>)

  /**
   The eviction hook on one candidate, given the grants and the close counts.
   With no grant outstanding it closes the raw handle and accepts the victim
   unless that close throws; the exception is swallowed and the victim
   refused. With a grant outstanding it refuses without closing. The hook has
   no way to change the grants.
   */
  function RemoveLru(grants: multiset<HandleId>, closes: multiset<HandleId>, victim: HandleId, closeThrows: bool): (r: Hook)
    ensures grants[victim] == 0 ==> r.closes[victim] == closes[victim] + 1
    ensures grants[victim] > 0 ==> r.closes[victim] == closes[victim]
    ensures forall h :: h != victim ==> r.closes[h] == closes[h]
    ensures r.removable <==> grants[victim] == 0 && !closeThrows
  {
    if victim !in grants then Hook(!closeThrows, closes + multiset{victim})
    else Hook(false, closes)
  }

  /** The wrappers among `s` that hold no grant: those the hook closes when it meets them. */
  function Unused(s: seq<Entry>, grants: multiset<HandleId>): (u: multiset<HandleId>)
  {
    if |s| == 0 then multiset{}
    else (if grants[s[0].handle] == 0 then multiset{s[0].handle} else multiset{}) + Unused(s[1..], grants)
  }

  /** The hook only ever closes wrappers nobody holds... */
  lemma {:induction false} UnusedUnheld(s: seq<Entry>, grants: multiset<HandleId>)
    ensures forall h :: h in Unused(s, grants) ==> grants[h] == 0
  {
    if |s| > 0 {
      UnusedUnheld(s[1..], grants);
    }
  }

  /** ... it closes each of those it meets ... */
  lemma {:induction false} UnusedCovers(s: seq<Entry>, grants: multiset<HandleId>)
    ensures forall k :: 0 <= k < |s| && grants[s[k].handle] == 0 ==> s[k].handle in Unused(s, grants)
  {
    if |s| > 0 {
      UnusedCovers(s[1..], grants);
      forall k | 0 < k < |s|
        ensures s[k] == s[1..][k - 1]
      {
      }
    }
  }

  /** ... and it meets only cached wrappers. */
  lemma {:induction false} UnusedCached(s: seq<Entry>, grants: multiset<HandleId>)
    ensures forall h :: h in Unused(s, grants) ==> h in Handles(s)
  {
    if |s| > 0 {
      UnusedCached(s[1..], grants);
      forall h | h in Unused(s[1..], grants)
        ensures h in Handles(s)
      {
        var k :| 0 <= k < |s[1..]| && s[1..][k].handle == h;
        assert s[k + 1].handle == h;
      }
    }
  }

  datatype ScanResult = ScanResult(victim: Option<nat>, closes: multiset<HandleId>)

  /**
   The scan for a removable entry, from position `i` towards the most-recent
   end: the hook runs on each entry in turn until it accepts one. The result
   is the first accepted position, together with the close counts the hook
   calls left behind.
   */
  function Scan(rec: seq<Entry>, grants: multiset<HandleId>, closes: multiset<HandleId>, i: nat, throws: set<HandleId>): (r: ScanResult)
    requires i <= |rec|
    ensures r.victim.Some? ==> i <= r.victim.value < |rec|
    ensures r.victim.Some? ==> Removable(grants, rec[r.victim.value].handle, throws)
    ensures forall k :: i <= k < |rec| && (r.victim.None? || k < r.victim.value) ==>
      !Removable(grants, rec[k].handle, throws)
    decreases |rec| - i
  {
    if i == |rec| then ScanResult(None, closes)
    else
      var h := rec[i].handle;
      var hook := RemoveLru(grants, closes, h, h in throws);
      if hook.removable then ScanResult(Some(i), hook.closes)
      else Scan(rec, grants, hook.closes, i + 1, throws)
  }

  /** Position just past the last entry the scan handed to the hook. */
  function ScanEnd(rec: seq<Entry>, r: ScanResult): (stop: nat)
  {
    if r.victim.Some? && r.victim.value < |rec| then r.victim.value + 1 else |rec|
  }

  /**
   The scan calls the raw close exactly once on each wrapper it meets that
   holds no grant, and on nothing else.
   */
  lemma {:induction false} ScanCloses(rec: seq<Entry>, grants: multiset<HandleId>, closes: multiset<HandleId>, i: nat, throws: set<HandleId>)
    requires i <= |rec|
    ensures var r := Scan(rec, grants, closes, i, throws);
      i <= ScanEnd(rec, r) && r.closes == closes + Unused(rec[i..ScanEnd(rec, r)], grants)
    decreases |rec| - i
  {
    var r := Scan(rec, grants, closes, i, throws);
    if i < |rec| {
      var h := rec[i].handle;
      var hook := RemoveLru(grants, closes, h, h in throws);
      assert hook.closes == closes + (if grants[h] == 0 then multiset{h} else multiset{});
      UnusedStep(rec, i, ScanEnd(rec, r), grants);
      if hook.removable {
        assert rec[i + 1..i + 1] == [];
      } else {
        ScanCloses(rec, grants, hook.closes, i + 1, throws);
      }
    } else {
      assert rec[i..|rec|] == [];
    }
  }

  /** Unfolding `Unused` on a slice by its first element. */
  lemma UnusedStep(s: seq<Entry>, i: nat, stop: nat, grants: multiset<HandleId>)
    requires i < stop <= |s|
    ensures Unused(s[i..stop], grants) ==
      (if grants[s[i].handle] == 0 then multiset{s[i].handle} else multiset{}) + Unused(s[i + 1..stop], grants)
  {
    assert s[i..stop][1..] == s[i + 1..stop];
  }

  datatype Insertion = Insertion(next: Factory, victim: Option<nat>)

  /**
   Putting a new name into the cache. Below capacity the entry is appended as
   the most recently used. At or above capacity the scan picks the first
   removable entry from the least-recent end, which leaves the cache; if the
   scan finds none, the new entry is appended all the same.
   */
  function Insert(f: Factory, e: Entry, throws: set<HandleId>): (r: Insertion)
    ensures r.next == f.(recency := r.next.recency, closes := r.next.closes)
    ensures |f.recency| < f.capacity ==> r.victim.None? && r.next.recency == f.recency + [e] && r.next.closes == f.closes
    ensures r.victim.Some? ==>
      var j := r.victim.value;
      && f.capacity <= |f.recency|
      && j < |f.recency|
      && Removable(f.grants, f.recency[j].handle, throws)
      && (forall k :: 0 <= k < j ==> !Removable(f.grants, f.recency[k].handle, throws))
      && r.next.recency == RemoveAt(f.recency, j) + [e]
      && r.next.closes == f.closes + Unused(f.recency[..j + 1], f.grants)
    ensures |r.next.recency| >= 1 && r.next.recency[|r.next.recency| - 1] == e
    ensures forall h :: r.next.closes[h] > f.closes[h] ==> f.grants[h] == 0
    ensures f.capacity <= |f.recency| && r.victim.None? ==>
      && (forall k :: 0 <= k < |f.recency| ==> !Removable(f.grants, f.recency[k].handle, throws))
      && r.next.recency == f.recency + [e]
      && r.next.closes == f.closes + Unused(f.recency, f.grants)
  {
    if |f.recency| < f.capacity then Insertion(f.(recency := f.recency + [e]), None)
    else
      var s := Scan(f.recency, f.grants, f.closes, 0, throws);
      ScanCloses(f.recency, f.grants, f.closes, 0, throws);
      UnusedUnheld(f.recency[..ScanEnd(f.recency, s)], f.grants);
      assert f.recency[0..|f.recency|] == f.recency;
      match s.victim
      case Some(j) =>
        assert f.recency[0..j + 1] == f.recency[..j + 1];
        Insertion(f.(recency := RemoveAt(f.recency, j) + [e], closes := s.closes), Some(j))
      case None => Insertion(f.(recency := f.recency + [e], closes := s.closes), None)
  }

  /** What `getTable` hands back: a wrapper, or the delegate's IOException. */
  datatype Result = Table(handle: HandleId) | OpenFailed

  datatype Reply = Reply(next: Factory, result: Result)

  /**
   `getTable`. The name is looked up by its bytes. A hit returns the cached
   wrapper and adds one grant for it. A miss asks the delegate to open the
   table; if that throws, nothing but the delegate call is recorded. Otherwise
   a new wrapper is created with one grant and inserted as the most recently
   used entry.
   */
  function GetTable(f: Factory, tableName: BytesPtr, openThrows: bool, throws: set<HandleId>): (r: Reply)
    requires DistinctNames(f.recency) && tableName.Valid()
    ensures r.result.Table? || openThrows
  {
    var key := tableName.Key();
    match Find(f.recency, key)
    case Some(k) =>
      var h := f.recency[k].handle;
      Reply(f.(recency := Touch(f.recency, k), grants := f.grants + multiset{h}), Table(h))
    case None =>
      if openThrows then Reply(f.(opens := f.opens + multiset{key}), OpenFailed)
      else Reply(Insert(Wrapped(f, key), Entry(key, f.nextHandle), throws).next, Table(f.nextHandle))
  }

  /**
   A hit returns the wrapper already cached under those bytes, does not call
   the delegate, adds exactly one grant for that wrapper and none for any
   other, and makes it the most recently used entry.
   */
  lemma GetTableHit(f: Factory, tableName: BytesPtr, openThrows: bool, throws: set<HandleId>, k: nat)
    requires DistinctNames(f.recency) && tableName.Valid()
    requires k < |f.recency| && f.recency[k].name == tableName.Key()
    ensures var r := GetTable(f, tableName, openThrows, throws);
      var h := f.recency[k].handle;
      && r.result == Table(h)
      && r.next.grants[h] == f.grants[h] + 1
      && (forall g :: g != h ==> r.next.grants[g] == f.grants[g])
      && r.next.opens == f.opens && r.next.closes == f.closes && r.next.nextHandle == f.nextHandle
      && r.next.recency == Touch(f.recency, k)
      && r.next.capacity == f.capacity
  {
  }

  /**
   A miss calls the delegate exactly once for the name. If the delegate
   throws, that call is all that changes. Otherwise the new wrapper gets the
   next identity and exactly one grant, and is cached under the name as the
   most recently used entry.
   */
  lemma GetTableMiss(f: Factory, tableName: BytesPtr, openThrows: bool, throws: set<HandleId>)
    requires Valid(f) && tableName.Valid()
    requires forall k :: 0 <= k < |f.recency| ==> f.recency[k].name != tableName.Key()
    ensures var r := GetTable(f, tableName, openThrows, throws);
      && r.next.opens == f.opens + multiset{tableName.Key()}
      && (openThrows ==> r.result == OpenFailed && r.next == f.(opens := r.next.opens))
      && (!openThrows ==>
        && r.result == Table(f.nextHandle)
        && r.next.nextHandle == f.nextHandle + 1
        && r.next.grants == f.grants + multiset{f.nextHandle}
        && r.next.grants[f.nextHandle] == 1
        && |r.next.recency| >= 1
        && r.next.recency[|r.next.recency| - 1] == Entry(tableName.Key(), f.nextHandle))
  {
    assert f.nextHandle !in f.grants;
  }

  /** `getTable` only ever closes raw handles whose wrappers nobody holds, before or after the call. */
  lemma GetTableClosesOnlyUnused(f: Factory, tableName: BytesPtr, openThrows: bool, throws: set<HandleId>)
    requires DistinctNames(f.recency) && tableName.Valid()
    ensures var r := GetTable(f, tableName, openThrows, throws);
      forall h :: r.next.closes[h] > f.closes[h] ==> f.grants[h] == 0 && r.next.grants[h] == 0
  {
  }

  datatype Closing = Closing(next: Factory, status: Status)

  /**
   A wrapper's `close`: it takes one grant of its own out of the working
   tables. Only when it has none left to take does it close its raw handle,
   whose IOException reaches the caller.
   */
  function Close(f: Factory, h: HandleId, closeThrows: bool): (r: Closing)
    requires h < f.nextHandle
    ensures r.next == f.(grants := r.next.grants, closes := r.next.closes)
    ensures f.grants[h] > 0 ==>
      && r.next.grants[h] == f.grants[h] - 1
      && (forall g :: g != h ==> r.next.grants[g] == f.grants[g])
      && r.next.closes == f.closes
      && r.status == Ok
    ensures f.grants[h] == 0 ==>
      && r.next.grants == f.grants
      && r.next.closes[h] == f.closes[h] + 1
      && (forall g :: g != h ==> r.next.closes[g] == f.closes[g])
      && (r.status == IoFailure <==> closeThrows)
  {
    if h in f.grants then Closing(f.(grants := f.grants - multiset{h}), Ok)
    else Closing(f.(closes := f.closes + multiset{h}), if closeThrows then IoFailure else Ok)
  }

  /** A lookup hit keeps the factory well formed. */
  lemma TouchKeepsValid(f: Factory, k: nat)
    requires Valid(f) && k < |f.recency|
    ensures Valid(f.(recency := Touch(f.recency, k), grants := f.grants + multiset{f.recency[k].handle}))
  {
    var rest := RemoveAt(f.recency, k);
    RemoveAtKeepsDistinct(f.recency, k);
    AppendKeepsDistinct(rest, f.recency[k]);
    AppendHandles(rest, f.recency[k]);
    assert Touch(f.recency, k) == rest + [f.recency[k]];
  }

  /**
   The shape of every successful miss: the new wrapper is appended, the
   entries in `gone` leave the cache, and the close counts grow by `closed`.
   If everything that leaves was unused and closed, the result is well formed.
   */
  lemma MissKeepsValid(f: Factory, g: Factory, kept: seq<Entry>, gone: set<HandleId>, closed: multiset<HandleId>)
    requires Valid(f)
    requires g.capacity == f.capacity && g.nextHandle == f.nextHandle + 1
    requires |g.recency| == |kept| + 1 && g.recency[..|kept|] == kept && g.recency[|kept|].handle == f.nextHandle
    requires DistinctNames(g.recency) && DistinctHandles(g.recency)
    requires Handles(kept) == Handles(f.recency) - gone
    requires g.grants == f.grants + multiset{f.nextHandle}
    requires g.closes == f.closes + closed
    requires forall x :: x in closed ==> x in Handles(f.recency)
    requires forall x :: x in gone ==> f.grants[x] == 0 && x in closed
    ensures Valid(g)
  {
    assert g.recency == kept + [g.recency[|kept|]];
    AppendHandles(kept, g.recency[|kept|]);
    MissKeepsAllocated(f, g, closed);
    MissKeepsLeftClosed(f, g, kept, gone, closed);
  }

  lemma MissKeepsAllocated(f: Factory, g: Factory, closed: multiset<HandleId>)
    requires Allocated(f)
    requires g.nextHandle == f.nextHandle + 1
    requires Handles(g.recency) <= Handles(f.recency) + {f.nextHandle}
    requires g.grants == f.grants + multiset{f.nextHandle}
    requires g.closes == f.closes + closed
    requires forall x :: x in closed ==> x in Handles(f.recency)
    ensures Allocated(g)
  {
    forall k | 0 <= k < |g.recency|
      ensures g.recency[k].handle < g.nextHandle
    {
      var x := g.recency[k].handle;
      assert x in Handles(g.recency);
      if x != f.nextHandle {
        var i :| 0 <= i < |f.recency| && f.recency[i].handle == x;
      }
    }
    forall x | x in g.closes
      ensures x < g.nextHandle
    {
      if x in closed {
        var i :| 0 <= i < |f.recency| && f.recency[i].handle == x;
      }
    }
  }

  lemma MissKeepsLeftClosed(f: Factory, g: Factory, kept: seq<Entry>, gone: set<HandleId>, closed: multiset<HandleId>)
    requires LeftClosed(f)
    requires g.nextHandle == f.nextHandle + 1
    requires Handles(g.recency) == Handles(kept) + {f.nextHandle}
    requires Handles(kept) == Handles(f.recency) - gone
    requires g.grants == f.grants + multiset{f.nextHandle}
    requires g.closes == f.closes + closed
    requires forall x :: x in gone ==> f.grants[x] == 0 && x in closed
    ensures LeftClosed(g)
  {
    forall x: HandleId | x < g.nextHandle && x !in Handles(g.recency)
      ensures g.grants[x] == 0 && g.closes[x] >= 1
    {
      if x in gone {
        assert x in closed;
      } else {
        assert x !in Handles(f.recency);
      }
    }
  }

  /** The factory just before a miss inserts its new wrapper. */
  function Wrapped(f: Factory, key: Name): (w: Factory)
  {
    f.(opens := f.opens + multiset{key}, grants := f.grants + multiset{f.nextHandle}, nextHandle := f.nextHandle + 1)
  }

  /**
   Creating the wrapper on a miss: the delegate has been called once for the
   name, and the wrapper's constructor has added exactly one grant, for the
   new identity. The cache and the close counts are untouched.
   */
  lemma WrapperCreated(f: Factory, key: Name)
    ensures var w := Wrapped(f, key);
      && f.opens <= w.opens && w.opens - f.opens == multiset{key}
      && f.grants <= w.grants && w.grants - f.grants == multiset{f.nextHandle}
      && w.nextHandle == f.nextHandle + 1
      && w.capacity == f.capacity && w.recency == f.recency && w.closes == f.closes
  {
  }

  /** A miss whose scan finds no victim keeps the factory well formed. */
  lemma AppendKeepsValid(f: Factory, key: Name, closed: multiset<HandleId>, g: Factory)
    requires Valid(f)
    requires forall k :: 0 <= k < |f.recency| ==> f.recency[k].name != key
    requires forall x :: x in closed ==> x in Handles(f.recency)
    requires g == Wrapped(f, key).(recency := f.recency + [Entry(key, f.nextHandle)], closes := f.closes + closed)
    ensures Valid(g)
  {
    var e := Entry(key, f.nextHandle);
    assert f.nextHandle !in Handles(f.recency);
    AppendKeepsDistinct(f.recency, e);
    assert g.recency[..|f.recency|] == f.recency;
    MissKeepsValid(f, g, f.recency, {}, closed);
  }

  /** A miss that evicts the victim at position `j` keeps the factory well formed. */
  lemma EvictKeepsValid(f: Factory, key: Name, j: nat, closed: multiset<HandleId>, g: Factory)
    requires Valid(f)
    requires forall k :: 0 <= k < |f.recency| ==> f.recency[k].name != key
    requires j < |f.recency| && f.grants[f.recency[j].handle] == 0
    requires forall x :: x in closed ==> x in Handles(f.recency)
    requires f.recency[j].handle in closed
    requires g == Wrapped(f, key).(recency := RemoveAt(f.recency, j) + [Entry(key, f.nextHandle)], closes := f.closes + closed)
    ensures Valid(g)
  {
    var e := Entry(key, f.nextHandle);
    assert f.nextHandle !in Handles(f.recency);
    var kept := RemoveAt(f.recency, j);
    RemoveAtKeepsDistinct(f.recency, j);
    AppendKeepsDistinct(kept, e);
    assert g.recency[..|kept|] == kept;
    MissKeepsValid(f, g, kept, {f.recency[j].handle}, closed);
  }

  /** The scan that stops at the victim `j` closed the victim, and only cached wrappers. */
  lemma VictimClosed(rec: seq<Entry>, j: nat, grants: multiset<HandleId>)
    requires j < |rec| && grants[rec[j].handle] == 0
    ensures rec[j].handle in Unused(rec[..j + 1], grants)
    ensures forall x :: x in Unused(rec[..j + 1], grants) ==> x in Handles(rec)
  {
    UnusedCovers(rec[..j + 1], grants);
    UnusedCached(rec[..j + 1], grants);
    assert rec[..j + 1][j] == rec[j];
    forall x | x in Unused(rec[..j + 1], grants)
      ensures x in Handles(rec)
    {
      var k :| 0 <= k < j + 1 && rec[..j + 1][k].handle == x;
      assert rec[k].handle == x;
    }
  }

  /** Inserting a fresh wrapper under a name not yet cached keeps the factory well formed. */
  lemma InsertKeepsValid(f: Factory, key: Name, throws: set<HandleId>)
    requires Valid(f)
    requires forall k :: 0 <= k < |f.recency| ==> f.recency[k].name != key
    ensures Valid(Insert(Wrapped(f, key), Entry(key, f.nextHandle), throws).next)
  {
    match Insert(Wrapped(f, key), Entry(key, f.nextHandle), throws).victim
    case None => InsertAppendKeepsValid(f, key, throws);
    case Some(j) => InsertEvictKeepsValid(f, key, throws, j);
  }

  lemma InsertAppendKeepsValid(f: Factory, key: Name, throws: set<HandleId>)
    requires Valid(f)
    requires forall k :: 0 <= k < |f.recency| ==> f.recency[k].name != key
    requires Insert(Wrapped(f, key), Entry(key, f.nextHandle), throws).victim.None?
    ensures Valid(Insert(Wrapped(f, key), Entry(key, f.nextHandle), throws).next)
  {
    var w := Wrapped(f, key);
    var ins := Insert(w, Entry(key, f.nextHandle), throws);
    if |f.recency| < f.capacity {
      AppendKeepsValid(f, key, multiset{}, ins.next);
    } else {
      UnusedCached(f.recency, w.grants);
      AppendKeepsValid(f, key, Unused(f.recency, w.grants), ins.next);
    }
  }

  lemma InsertEvictKeepsValid(f: Factory, key: Name, throws: set<HandleId>, j: nat)
    requires Valid(f)
    requires forall k :: 0 <= k < |f.recency| ==> f.recency[k].name != key
    requires Insert(Wrapped(f, key), Entry(key, f.nextHandle), throws).victim == Some(j)
    ensures Valid(Insert(Wrapped(f, key), Entry(key, f.nextHandle), throws).next)
  {
    var w := Wrapped(f, key);
    var ins := Insert(w, Entry(key, f.nextHandle), throws);
    VictimClosed(f.recency, j, w.grants);
    EvictKeepsValid(f, key, j, Unused(f.recency[..j + 1], w.grants), ins.next);
  }

  /** Every `getTable` call, hit, miss or failed open, keeps the factory well formed. */
  lemma GetTableKeepsValid(f: Factory, tableName: BytesPtr, openThrows: bool, throws: set<HandleId>)
    requires Valid(f) && tableName.Valid()
    ensures Valid(GetTable(f, tableName, openThrows, throws).next)
  {
    var key := tableName.Key();
    match Find(f.recency, key)
    case Some(k) =>
      TouchKeepsValid(f, k);
    case None =>
      if !openThrows {
        InsertKeepsValid(f, key, throws);
      }
  }

  /** A wrapper's `close` keeps the factory well formed. */
  lemma CloseKeepsValid(f: Factory, h: HandleId, closeThrows: bool)
    requires Valid(f) && h < f.nextHandle
    ensures Valid(Close(f, h, closeThrows).next)
  {
  }
}
