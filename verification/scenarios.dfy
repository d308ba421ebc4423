/**
 Fixed runs of the factory that show how the policy plays out, including
 behaviour a caller might not expect. Each run is a chain of named states;
 each lemma takes one call from one named state to the next.
 */
module Scenarios {
  import opened Outcomes
  import opened BytesPtrs
  import opened Recency
  import opened CachingFactory

  /** A pointer over the whole of `bytes`. */
  function Whole(bytes: seq<bv8>): (p: BytesPtr)
    ensures p.Valid() && p.Key() == bytes
  {
    BytesPtr(bytes, 0, |bytes|)
  }

  /** Three table names, "A", "B" and "C" as bytes. */
  const A: Name := [65]
  const B: Name := [66]
  const C: Name := [67]

  lemma NamesDiffer()
    ensures A != B && B != C && A != C
  {
    assert A[0] != B[0] && B[0] != C[0] && A[0] != C[0];
  }

  /** Names are compared by their bytes: pointers into different buffers with the same window contents get the same answer. */
  lemma SameBytesSameEntry(f: Factory, p: BytesPtr, q: BytesPtr, openThrows: bool, throws: set<HandleId>)
    requires DistinctNames(f.recency) && p.Valid() && q.Valid()
    requires p.Key() == q.Key()
    ensures GetTable(f, p, openThrows, throws) == GetTable(f, q, openThrows, throws)
  {
  }

  /**
   Closing a wrapper that holds no grant calls the raw close every time:
   physical close is not at most once.
   */
  lemma RepeatedCloseClosesAgain(f: Factory, h: HandleId, first: bool, second: bool)
    requires h < f.nextHandle && f.grants[h] == 0
    ensures Close(Close(f, h, first).next, h, second).next.closes[h] == f.closes[h] + 2
  {
  }

  // Run 1, capacity 2: getTable A, B, A, C, each wrapper closed by its caller before the next call.

  const Empty2 := Factory(2, [], multiset{}, multiset{}, multiset{}, 0)
  const HoldA := Factory(2, [Entry(A, 0)], multiset{0}, multiset{}, multiset{A}, 1)
  const IdleA := HoldA.(grants := multiset{})
  const HoldB := Factory(2, [Entry(A, 0), Entry(B, 1)], multiset{1}, multiset{}, multiset{A, B}, 2)
  const IdleAB := HoldB.(grants := multiset{})
  const HoldA2 := IdleAB.(recency := [Entry(B, 1), Entry(A, 0)], grants := multiset{0})
  const IdleBA := HoldA2.(grants := multiset{})
  const HoldC := Factory(2, [Entry(A, 0), Entry(C, 2)], multiset{2}, multiset{1}, multiset{A, B, C}, 3)

  /** The first call opens A as wrapper 0; its caller's close only returns the grant. */
  lemma FirstOpen()
    ensures New(2) == Some(Empty2)
    ensures GetTable(Empty2, Whole(A), false, {}) == Reply(HoldA, Table(0))
    ensures Close(HoldA, 0, false) == Closing(IdleA, Ok)
  {
    assert Find(Empty2.recency, A) == None;
    assert Insert(Wrapped(Empty2, A), Entry(A, 0), {}).next == HoldA;
  }

  /** Below capacity, B is appended as wrapper 1 and nothing is closed. */
  lemma SecondOpen()
    ensures GetTable(IdleA, Whole(B), false, {}) == Reply(HoldB, Table(1))
    ensures Close(HoldB, 1, false) == Closing(IdleAB, Ok)
  {
    NamesDiffer();
    assert Find(IdleA.recency, B) == None;
    assert Insert(Wrapped(IdleA, B), Entry(B, 1), {}).next == HoldB;
  }

  /** The hit on A hands out wrapper 0 again and makes A the most recently used. */
  lemma HitMovesToBack()
    ensures GetTable(IdleAB, Whole(A), false, {}) == Reply(HoldA2, Table(0))
    ensures Close(HoldA2, 0, false) == Closing(IdleBA, Ok)
  {
    assert Find(IdleAB.recency, A) == Some(0);
    assert Touch(IdleAB.recency, 0) == HoldA2.recency;
    assert IdleAB.grants + multiset{0} == HoldA2.grants;
  }

  /** At capacity, C evicts the least recently used B, whose raw handle is closed; A stays. */
  lemma EvictionOrder()
    ensures GetTable(IdleBA, Whole(C), false, {}) == Reply(HoldC, Table(2))
  {
    NamesDiffer();
    assert Find(IdleBA.recency, C) == None;
    assert Insert(Wrapped(IdleBA, C), Entry(C, 2), {}).next == HoldC;
  }

  // Run 2, capacity 1: getTable A, kept open, then getTable B.

  const Empty1 := Factory(1, [], multiset{}, multiset{}, multiset{}, 0)
  const HeldA1 := Factory(1, [Entry(A, 0)], multiset{0}, multiset{}, multiset{A}, 1)
  const Overfull := Factory(1, [Entry(A, 0), Entry(B, 1)], multiset{0, 1}, multiset{}, multiset{A, B}, 2)

  /** With capacity 1, the first call opens A as wrapper 0, and its caller's close only returns the grant. */
  lemma FirstOpenSmall()
    ensures GetTable(Empty1, Whole(A), false, {}) == Reply(HeldA1, Table(0))
    ensures Close(HeldA1, 0, false) == Closing(IdleA1, Ok)
  {
    assert Find(Empty1.recency, A) == None;
    assert Insert(Wrapped(Empty1, A), Entry(A, 0), {}).next == HeldA1;
  }

  /**
   A victim still in use is neither closed nor removed: the cache grows past
   its capacity and both wrappers stay cached.
   */
  lemma HeldVictimStays()
    ensures GetTable(HeldA1, Whole(B), false, {}) == Reply(Overfull, Table(1))
  {
    NamesDiffer();
    assert Find(HeldA1.recency, B) == None;
    HeldScan();
  }

  /** The scan for B's insertion: A's wrapper is held, so the hook refuses it without closing it. */
  lemma HeldScan()
    ensures Insert(Wrapped(HeldA1, B), Entry(B, 1), {}).next == Overfull
  {
    var w := Factory(1, [Entry(A, 0)], multiset{0, 1}, multiset{}, multiset{A, B}, 2);
    assert Wrapped(HeldA1, B) == w;
    assert RemoveLru(w.grants, w.closes, 0, false) == Hook(false, multiset{});
    assert Scan(w.recency, w.grants, w.closes, 0, {}) == ScanResult(None, multiset{});
  }

  // Run 3, capacity 1: getTable A, closed by its caller, then getTable B while A's raw close throws, then getTable A.

  const IdleA1 := HeldA1.(grants := multiset{})
  const KeptA := Factory(1, [Entry(A, 0), Entry(B, 1)], multiset{1}, multiset{0}, multiset{A, B}, 2)

  /** A victim whose raw close throws has been closed but stays cached. */
  lemma FailedCloseStaysCached()
    ensures GetTable(IdleA1, Whole(B), false, {0}) == Reply(KeptA, Table(1))
  {
    NamesDiffer();
    assert Find(IdleA1.recency, B) == None;
    ThrowingScan();
  }

  /** The scan for B's insertion: A's wrapper is free, so the hook closes it, the close throws, and the hook refuses it. */
  lemma ThrowingScan()
    ensures Insert(Wrapped(IdleA1, B), Entry(B, 1), {0}).next == KeptA
  {
    var w := Factory(1, [Entry(A, 0)], multiset{1}, multiset{}, multiset{A, B}, 2);
    assert Wrapped(IdleA1, B) == w;
    assert RemoveLru(w.grants, w.closes, 0, true) == Hook(false, multiset{0});
    assert Scan(w.recency, w.grants, w.closes, 0, {0}) == ScanResult(None, multiset{0});
  }

  /** The next getTable A hands out that same wrapper, whose raw handle has been closed. */
  lemma ClosedWrapperHandedOut()
    ensures KeptA.closes[0] == 1
    ensures GetTable(KeptA, Whole(A), false, {}).result == Table(0)
  {
    GetTableHit(KeptA, Whole(A), false, {}, 0);
  }
}
