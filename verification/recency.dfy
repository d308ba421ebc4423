/**
 The ordered index of the cache. Entries are kept least-recently-used first,
 as the LRU map the factory extends keeps them; the last entry is the most
 recently used one.
 */
module Recency {
  import opened Outcomes
  import opened BytesPtrs

  /** Identity of one cached wrapper (and of the one raw handle it wraps). */
  type HandleId = nat

  datatype Entry = Entry(name: Name, handle: HandleId)

  /** No two entries share a name: the index is a map. */
  ghost predicate DistinctNames(rec: seq<Entry>) {
    forall i, j :: 0 <= i < j < |rec| ==> rec[i].name != rec[j].name
  }

  /** No wrapper is cached under two names. */
  ghost predicate DistinctHandles(rec: seq<Entry>) {
    forall i, j :: 0 <= i < j < |rec| ==> rec[i].handle != rec[j].handle
  }

  /** The wrappers currently cached. */
  function Handles(rec: seq<Entry>): (hs: set<HandleId>)
    ensures forall k :: 0 <= k < |rec| ==> rec[k].handle in hs
    ensures forall h :: h in hs ==> exists k :: 0 <= k < |rec| && rec[k].handle == h
  {
    set k | 0 <= k < |rec| :: rec[k].handle
  }

  /** Lookup by name: the position of the entry for `name`, if any. */
  function Find(rec: seq<Entry>, name: Name): (r: Option<nat>)
    ensures r.Some? ==> r.value < |rec| && rec[r.value].name == name
    ensures r.Some? ==> forall k :: 0 <= k < r.value ==> rec[k].name != name
    ensures r.None? <==> forall k :: 0 <= k < |rec| ==> rec[k].name != name
  {
    if |rec| == 0 then None
    else if rec[0].name == name then Some(0)
    else
      match Find(rec[1..], name)
      case None => None
      case Some(i) => Some(i + 1)
  }

  /** The index with the entry at position `i` taken out, the others in order. */
  function RemoveAt(rec: seq<Entry>, i: nat): (r: seq<Entry>)
    requires i < |rec|
    ensures |r| == |rec| - 1
    ensures forall k :: 0 <= k < i ==> r[k] == rec[k]
    ensures forall k :: i <= k < |r| ==> r[k] == rec[k + 1]
  {
    rec[..i] + rec[i + 1..]
  }

  /** A lookup hit: entry `i` becomes the most recently used, the others keep their order. */
  function Touch(rec: seq<Entry>, i: nat): (r: seq<Entry>)
    requires i < |rec|
    ensures |r| == |rec|
    ensures r[|r| - 1] == rec[i]
    ensures r[..|r| - 1] == RemoveAt(rec, i)
    ensures multiset(r) == multiset(rec)
  {
    var r := RemoveAt(rec, i) + [rec[i]];
    assert rec == rec[..i] + [rec[i]] + rec[i + 1..];
    assert r[..|r| - 1] == RemoveAt(rec, i);
    r
  }

  /** Taking an entry out of a well-formed index keeps it well formed and drops exactly its wrapper. */
  lemma RemoveAtKeepsDistinct(rec: seq<Entry>, i: nat)
    requires i < |rec| && DistinctNames(rec) && DistinctHandles(rec)
    ensures DistinctNames(RemoveAt(rec, i)) && DistinctHandles(RemoveAt(rec, i))
    ensures Handles(RemoveAt(rec, i)) == Handles(rec) - {rec[i].handle}
    ensures forall k :: 0 <= k < |RemoveAt(rec, i)| ==> RemoveAt(rec, i)[k].name != rec[i].name
  {
    var r := RemoveAt(rec, i);
    forall h | h in Handles(rec) - {rec[i].handle}
      ensures h in Handles(r)
    {
      var k :| 0 <= k < |rec| && rec[k].handle == h;
      if k < i {
        assert r[k] == rec[k];
      } else {
        assert r[k - 1] == rec[k];
      }
    }
  }

  /** Appending a fresh name and wrapper keeps the index well formed. */
  lemma AppendKeepsDistinct(rec: seq<Entry>, e: Entry)
    requires DistinctNames(rec) && DistinctHandles(rec)
    requires forall k :: 0 <= k < |rec| ==> rec[k].name != e.name && rec[k].handle != e.handle
    ensures DistinctNames(rec + [e]) && DistinctHandles(rec + [e])
  {
    assert (rec + [e])[|rec|] == e;
  }

  /** Appending an entry adds exactly its wrapper to the cached ones. */
  lemma AppendHandles(rec: seq<Entry>, e: Entry)
    ensures Handles(rec + [e]) == Handles(rec) + {e.handle}
  {
    var r := rec + [e];
    forall h | h in Handles(rec)
      ensures h in Handles(r)
    {
      var k :| 0 <= k < |rec| && rec[k].handle == h;
      assert r[k] == rec[k];
    }
    assert r[|rec|] == e;
  }
}
