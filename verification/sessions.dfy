/**
 Sequences of calls on one factory. Each client call is one atomic
 transition; the order of the sequence is the order in which the calls took
 the factory's locks.
 */
module Sessions {
  import opened Outcomes
  import opened BytesPtrs
  import opened Recency
  import opened CachingFactory

  /** One client call, with the outcomes of the unmodelled calls it makes. */
  datatype Op =
    | Acquire(tableName: BytesPtr, openThrows: bool, throws: set<HandleId>)
    | Release(handle: HandleId, closeThrows: bool)

  /** What one call did, as its caller sees it. */
  datatype Event =
    | Granted(handle: HandleId)
    | OpenRefused
    | GrantReturned(handle: HandleId)
    | ClosedRaw(handle: HandleId)
    | Skipped

  /**
   One call applied to the factory. A call naming a malformed pointer or a
   wrapper that was never created cannot be made in the source and is skipped.
   */
  function Apply(f: Factory, op: Op): (r: (Factory, Event))
    requires Valid(f)
    ensures Valid(r.0)
    ensures r.1.Granted? ==> r.0.grants == f.grants + multiset{r.1.handle}
    ensures r.1.GrantReturned? ==> f.grants[r.1.handle] > 0 && r.0.grants == f.grants - multiset{r.1.handle}
    ensures !r.1.Granted? && !r.1.GrantReturned? ==> r.0.grants == f.grants
    ensures r.1.ClosedRaw? ==> f.grants[r.1.handle] == 0 && r.0.closes == f.closes + multiset{r.1.handle}
    ensures forall h :: r.0.closes[h] > f.closes[h] ==> f.grants[h] == 0
    ensures r.1.Skipped? ==> r.0 == f
  {
    match op
    case Acquire(p, openThrows, throws) =>
      if !p.Valid() then (f, Skipped)
      else
        GetTableKeepsValid(f, p, openThrows, throws);
        GetTableGrants(f, p, openThrows, throws);
        GetTableClosesOnlyUnused(f, p, openThrows, throws);
        var reply := GetTable(f, p, openThrows, throws);
        (reply.next, if reply.result.Table? then Granted(reply.result.handle) else OpenRefused)
    case Release(h, closeThrows) =>
      if h >= f.nextHandle then (f, Skipped)
      else
        CloseKeepsValid(f, h, closeThrows);
        (Close(f, h, closeThrows).next, if h in f.grants then GrantReturned(h) else ClosedRaw(h))
  }

  /** A `getTable` call adds exactly one grant, for the wrapper it returns, or none when the open fails. */
  lemma GetTableGrants(f: Factory, p: BytesPtr, openThrows: bool, throws: set<HandleId>)
    requires Valid(f) && p.Valid()
    ensures var r := GetTable(f, p, openThrows, throws);
      && (r.result.Table? ==> r.next.grants == f.grants + multiset{r.result.handle})
      && (r.result.OpenFailed? ==> r.next.grants == f.grants)
  {
    match Find(f.recency, p.Key())
    case Some(k) =>
      GetTableHit(f, p, openThrows, throws, k);
    case None =>
      GetTableMiss(f, p, openThrows, throws);
  }

  /** The calls applied in order, with what each one did. */
  function Replay(f: Factory, ops: seq<Op>): (r: (Factory, seq<Event>))
    requires Valid(f)
    ensures Valid(r.0) && |r.1| == |ops|
    decreases |ops|
  {
    if |ops| == 0 then (f, [])
    else
      var (g, e) := Apply(f, ops[0]);
      var (last, log) := Replay(g, ops[1..]);
      (last, [e] + log)
  }

  /** How many calls in `log` returned wrapper `h`. */
  function Gets(log: seq<Event>, h: HandleId): (n: nat)
  {
    if |log| == 0 then 0 else (if log[0] == Granted(h) then 1 else 0) + Gets(log[1..], h)
  }

  /** How many `close` calls in `log` took a grant of `h` out. */
  function Returns(log: seq<Event>, h: HandleId): (n: nat)
  {
    if |log| == 0 then 0 else (if log[0] == GrantReturned(h) then 1 else 0) + Returns(log[1..], h)
  }

  /**
   The grant count of a wrapper is the number of `getTable` calls that
   returned it minus the number of its `close` calls that found a grant to
   take out.
   */
  lemma {:induction false} GrantAccounting(f: Factory, ops: seq<Op>, h: HandleId)
    requires Valid(f)
    ensures Replay(f, ops).0.grants[h] + Returns(Replay(f, ops).1, h) == f.grants[h] + Gets(Replay(f, ops).1, h)
    decreases |ops|
  {
    if |ops| > 0 {
      var (g, e) := Apply(f, ops[0]);
      var (last, log) := Replay(g, ops[1..]);
      GrantAccounting(g, ops[1..], h);
      assert ([e] + log)[1..] == log;
    }
  }

  /** A factory together with the clients' own count of the wrappers they hold. */
  datatype Session = Session(factory: Factory, held: multiset<HandleId>)

  /** The grants the factory records are exactly the wrappers the clients hold. */
  ghost predicate Consistent(s: Session) {
    Valid(s.factory) && s.factory.grants == s.held
  }

  /** A session that has not handed out anything yet. */
  function Start(cacheSize: int): (s: Session)
    requires cacheSize >= 1
    ensures Consistent(s) && s.held == multiset{}
  {
    Session(New(cacheSize).value, multiset{})
  }

  /** A well-behaved client closes only a wrapper it holds, once per `getTable` that returned it. */
  predicate Allowed(s: Session, op: Op) {
    match op
    case Acquire(p, _, _) => p.Valid()
    case Release(h, _) => h in s.held
  }

  /**
   One call by a well-behaved client. No raw handle is ever closed while a
   client holds its wrapper, and a client's `close` never closes a raw handle.
   */
  function Step(s: Session, op: Op): (r: Session)
    requires Consistent(s) && Allowed(s, op)
    ensures Consistent(r)
    ensures forall h :: r.factory.closes[h] > s.factory.closes[h] ==> s.held[h] == 0 && r.held[h] == 0
    ensures op.Release? ==> r.factory.closes == s.factory.closes && r.held == s.held - multiset{op.handle}
  {
    var (g, e) := Apply(s.factory, op);
    var held := match e
      case Granted(h) => s.held + multiset{h}
      case GrantReturned(h) => s.held - multiset{h}
      case _ => s.held;
    if op.Acquire? then
      GetTableClosesOnlyUnused(s.factory, op.tableName, op.openThrows, op.throws);
      Session(g, held)
    else
      Session(g, held)
  }
}
