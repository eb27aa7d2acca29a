/** The stack-recycling allocator of address-space identifiers of
    03-virt-addr-kern/src/mm.rs. Identifiers run from 0 to `max` inclusive;
    `max` is whatever the satp register of the platform implements. */
module AsidPool {
  import opened Words

  const ASID_LIMIT := 0x1_0000

  datatype Pool = Pool(current: nat, exhausted: bool, max: nat, recycled: seq<nat>)

  function NextAsid(asid: nat, max: nat): Option<nat> {
    if asid >= max then None else Some((asid + 1) % ASID_LIMIT)
  }

  function Allocate(pool: Pool): (Pool, Option<nat>) {
    var k := |pool.recycled|;
    if k > 0 then (pool.(recycled := pool.recycled[..k - 1]), Some(pool.recycled[k - 1]))
    else if pool.exhausted then (pool, None)
    else if pool.current == pool.max then (pool.(exhausted := true), Some(pool.max))
    else
      match NextAsid(pool.current, pool.max)
      case Some(next) => (pool.(current := next), Some(pool.current))
      case None => (pool, None)
  }

  /** `None` is the panic of the validity check. */
  function Deallocate(pool: Pool, asid: nat): Option<Pool> {
    if NextAsid(asid, pool.max).None? || asid in pool.recycled then None
    else Some(pool.(recycled := pool.recycled + [asid]))
  }

  /** Identifier `a` has never been handed out. */
  predicate IsNew(pool: Pool, a: nat) {
    pool.current <= a <= pool.max && !pool.exhausted
  }

  /** Live, recycled and never-issued identifiers partition 0..max, and `max`
      is not among the recycled ones. */
  ghost predicate PoolInv(pool: Pool, live: set<nat>) {
    && pool.current <= pool.max < ASID_LIMIT
    && (pool.exhausted ==> pool.current == pool.max)
    && NoDuplicates(pool.recycled)
    && (forall a :: a in live ==> a !in pool.recycled && !IsNew(pool, a))
    && (forall a :: a in pool.recycled ==> a < pool.max && !IsNew(pool, a))
    && (forall a: nat :: a <= pool.max <==> a in live || a in pool.recycled || IsNew(pool, a))
  }

  function New(max: nat): Pool {
    Pool(0, false, max, [])
  }

  lemma NewPoolInv(max: nat)
    requires max < ASID_LIMIT
    ensures PoolInv(New(max), {})
  {
  }

  /** Allocation fails exactly when all max+1 identifiers are live; the error
      return after the failed increment is never taken. */
  lemma {:induction false} AllocateKeepsPartition(pool: Pool, live: set<nat>)
    requires PoolInv(pool, live)
    ensures var (pool', r) := Allocate(pool);
            match r
            case None => pool' == pool
            case Some(a) => a <= pool.max && a !in live && pool'.max == pool.max && PoolInv(pool', live + {a})
    ensures Allocate(pool).1.None? <==> forall a: nat :: a <= pool.max ==> a in live
    ensures pool.current != pool.max ==> NextAsid(pool.current, pool.max).Some?
  {
    var k := |pool.recycled|;
    if k > 0 {
      var a := pool.recycled[k - 1];
      var rest := pool.recycled[..k - 1];
      assert pool.recycled == rest + [a];
      assert a in pool.recycled;
      assert forall x :: x in pool.recycled <==> x in rest || x == a;
    } else if !pool.exhausted {
      assert IsNew(pool, pool.current);
      if pool.current == pool.max {
        assert IsNew(pool, pool.max);
      }
    }
  }

  /** The check accepts, `max` apart, exactly the live identifiers and those that
      were never issued; an accepted identifier keeps the partition exactly when it
      was live. */
  lemma {:induction false} DeallocateLive(pool: Pool, live: set<nat>, asid: nat)
    requires PoolInv(pool, live)
    ensures Deallocate(pool, asid).Some? <==> asid != pool.max && (asid in live || IsNew(pool, asid))
    ensures Deallocate(pool, asid).Some? ==>
              ((exists live' :: PoolInv(Deallocate(pool, asid).value, live')) <==> asid in live)
    ensures Deallocate(pool, asid).Some? && asid in live ==>
              PoolInv(Deallocate(pool, asid).value, live - {asid})
  {
    if Deallocate(pool, asid).Some? {
      var pool' := Deallocate(pool, asid).value;
      assert forall x :: x in pool'.recycled <==> x in pool.recycled || x == asid;
      if asid !in live {
        assert asid in pool'.recycled && IsNew(pool', asid);
        assert forall live' :: !PoolInv(pool', live');
      } else {
        assert PoolInv(pool', live - {asid});
      }
    }
  }

  /** Recycling is a stack: the identifier freed last is handed out next, and the pool
      is then what it was before. */
  lemma FreedIsNextGranted(pool: Pool, asid: nat)
    requires Deallocate(pool, asid).Some?
    ensures Allocate(Deallocate(pool, asid).value) == (pool, Some(asid))
  {
    assert (pool.recycled + [asid])[..|pool.recycled|] == pool.recycled;
  }

  function AfterAllocations(pool: Pool, k: nat): Pool
    decreases k
  {
    if k == 0 then pool else AfterAllocations(Allocate(pool).0, k - 1)
  }

  /** Without frees a new allocator hands out 0, 1, ... up to `max` and then fails. */
  lemma {:induction false} IdentifiersCountUp(pool: Pool, k: nat)
    requires pool.recycled == [] && !pool.exhausted && pool.current + k <= pool.max + 1 && pool.max < ASID_LIMIT
    ensures Allocate(AfterAllocations(pool, k)).1 ==
            if pool.current + k <= pool.max then Some(pool.current + k) else None
    decreases k
  {
    if k > 0 {
      var pool1 := Allocate(pool).0;
      if pool.current == pool.max {
        assert pool1.exhausted && k == 1;
      } else {
        IdentifiersCountUp(pool1, k - 1);
      }
    }
  }

  /** An identifier that was never issued is accepted, and is then handed out twice. */
  lemma UnissuedAsidIsAccepted()
    ensures var p0 := New(1);
            && PoolInv(p0, {})
            && Deallocate(p0, 0).Some?
            && var p1 := Deallocate(p0, 0).value;
               var (p2, first) := Allocate(p1);
               var (p3, second) := Allocate(p2);
               first == Some(0) && second == Some(0)
  {
  }

  // ----- whole runs -----

  datatype Event = Alloc | Free(asid: nat)
  datatype Reply = Granted(asid: nat) | Refused | Accepted | Panicked

  function Step(pool: Pool, e: Event): (Pool, Reply) {
    match e
    case Alloc =>
      var (pool', r) := Allocate(pool);
      (pool', if r.Some? then Granted(r.value) else Refused)
    case Free(a) =>
      match Deallocate(pool, a)
      case None => (pool, Panicked)
      case Some(pool') => (pool', Accepted)
  }

  function LiveAfter(live: set<nat>, e: Event, r: Reply): set<nat> {
    match r
    case Granted(a) => live + {a}
    case Accepted => if e.Free? then live - {e.asid} else live
    case _ => live
  }

  /** A run that frees only live identifiers, answered as a reference allocator
      of max+1 identifiers would, except that `max` can never be given back. */
  ghost predicate FreesLiveOnly(pool: Pool, live: set<nat>, es: seq<Event>)
    decreases |es|
  {
    es == [] ||
    ((es[0].Free? ==> es[0].asid in live)
     && var (pool1, r) := Step(pool, es[0]);
        FreesLiveOnly(pool1, LiveAfter(live, es[0], r), es[1..]))
  }

  ghost predicate AllowedRun(pool: Pool, live: set<nat>, es: seq<Event>)
    decreases |es|
  {
    es == [] ||
    (var (pool1, r) := Step(pool, es[0]);
     && (match es[0]
         case Alloc =>
           && (r.Refused? || r.Granted?)
           && (r.Refused? <==> forall a: nat :: a <= pool.max ==> a in live)
           && (r.Granted? ==> r.asid <= pool.max && r.asid !in live)
         case Free(a) =>
           r == if a == pool.max then Panicked else Accepted)
     && pool1.max == pool.max
     && pool.max !in pool1.recycled
     && AllowedRun(pool1, LiveAfter(live, es[0], r), es[1..]))
  }

  lemma {:induction false} RunRefinesReference(pool: Pool, live: set<nat>, es: seq<Event>)
    requires PoolInv(pool, live) && FreesLiveOnly(pool, live, es)
    ensures AllowedRun(pool, live, es)
    decreases |es|
  {
    if es != [] {
      var (pool1, r) := Step(pool, es[0]);
      if es[0].Alloc? {
        AllocateKeepsPartition(pool, live);
      } else {
        DeallocateLive(pool, live, es[0].asid);
      }
      RunRefinesReference(pool1, LiveAfter(live, es[0], r), es[1..]);
    }
  }

  class StackAsidAllocator {
    var current: nat
    var exhausted: bool
    var max: nat
    var recycled: seq<nat>

    function Value(): Pool
      reads this
    {
      Pool(current, exhausted, max, recycled)
    }

    constructor (maxAsid: nat)
      ensures Value() == New(maxAsid)
    {
      current, exhausted, max, recycled := 0, false, maxAsid, [];
    }

    method AllocateAsid() returns (r: Option<nat>)
      modifies this
      ensures (Value(), r) == Allocate(old(Value()))
    {
      if |recycled| > 0 {
        r := Some(recycled[|recycled| - 1]);
        recycled := recycled[..|recycled| - 1];
        return;
      }
      if exhausted {
        return None;
      }
      if current == max {
        exhausted := true;
        return Some(max);
      }
      match NextAsid(current, max) {
        case Some(next) =>
          r := Some(current);
          current := next;
        case None =>
          r := None;
      }
    }

    /** `ok` is false where the source panics; the pool is then unchanged. */
    method DeallocateAsid(asid: nat) returns (ok: bool)
      modifies this
      ensures ok <==> Deallocate(old(Value()), asid).Some?
      ensures Value() == if ok then Deallocate(old(Value()), asid).value else old(Value())
    {
      if NextAsid(asid, max).None? || asid in recycled {
        return false;
      }
      recycled := recycled + [asid];
      ok := true;
    }
  }
}
