/** The stack-recycling page-frame allocator of 03-virt-addr-kern/src/mm.rs:
    a bump pointer `current` running towards `end` around the circular space of
    page numbers, plus a stack of recycled page numbers. */
module FramePool {
  import opened Words

  datatype Pool = Pool(current: nat, end: nat, recycled: seq<nat>)

  function NextPage(p: nat): nat {
    Wrap(p + 1)
  }

  /** Membership in the half-open interval from `begin` to `end`, read circularly. */
  predicate IsWithinRange(x: nat, begin: nat, end: nat) {
    if begin <= end then begin <= x && x < end else begin <= x || x < end
  }

  function Allocate(pool: Pool): (Pool, Option<nat>) {
    var k := |pool.recycled|;
    if k > 0 then
      (pool.(recycled := pool.recycled[..k - 1]), Some(pool.recycled[k - 1]))
    else if pool.current == pool.end then
      (pool, None)
    else
      (pool.(current := NextPage(pool.current)), Some(pool.current))
  }

  /** `None` is the panic of the validity check. */
  function Deallocate(pool: Pool, ppn: nat): Option<Pool> {
    if IsWithinRange(ppn, pool.current, pool.end) || ppn in pool.recycled then None
    else Some(pool.(recycled := pool.recycled + [ppn]))
  }

  /** Page `x` can still be handed out. */
  predicate IsFree(pool: Pool, x: nat) {
    x in pool.recycled || IsWithinRange(x, pool.current, pool.end)
  }

  /** `live` is the set of pages handed out and not yet taken back. Live pages,
      recycled pages and the untouched rest [current, end) partition the pages
      of the managed interval [start, end). */
  ghost predicate PoolInv(start: nat, pool: Pool, live: set<nat>) {
    && start < WORD && pool.current < WORD && pool.end < WORD
    && NoDuplicates(pool.recycled)
    && (forall x :: x in live ==> x < WORD && !IsFree(pool, x))
    && (forall x :: x in pool.recycled ==> x < WORD && !IsWithinRange(x, pool.current, pool.end))
    && (forall x: nat :: x < WORD ==>
          (IsWithinRange(x, start, pool.end) <==> x in live || IsFree(pool, x)))
  }

  lemma NewPoolInv(start: nat, end: nat)
    requires start < WORD && end < WORD
    ensures PoolInv(start, Pool(start, end, []), {})
  {
  }

  /** Bumping `current` removes exactly the page it pointed at, also where the
      page number wraps to zero. */
  lemma BumpRemovesOnePage(current: nat, end: nat, x: nat)
    requires current < WORD && end < WORD && x < WORD && current != end
    ensures IsWithinRange(x, current, end) <==> x == current || IsWithinRange(x, NextPage(current), end)
    ensures !IsWithinRange(current, NextPage(current), end)
  {
  }

  /** A page handed out was not live and lies in the interval; allocation
      fails exactly when every page of the interval is live. */
  lemma {:induction false} AllocateKeepsPartition(start: nat, pool: Pool, live: set<nat>)
    requires PoolInv(start, pool, live)
    ensures var (pool', r) := Allocate(pool);
            match r
            case None =>
              pool' == pool && forall x: nat :: !IsFree(pool, x)
            case Some(p) =>
              && p < WORD && p !in live && IsFree(pool, p) && IsWithinRange(p, start, pool.end)
              && pool'.end == pool.end
              && PoolInv(start, pool', live + {p})
              && (forall x: nat :: IsFree(pool', x) ==> IsFree(pool, x) && x != p)
    ensures Allocate(pool).1.None? <==>
            forall x: nat :: x < WORD && IsWithinRange(x, start, pool.end) ==> x in live
  {
    var k := |pool.recycled|;
    if k > 0 {
      var p := pool.recycled[k - 1];
      var rest := pool.recycled[..k - 1];
      assert pool.recycled == rest + [p];
      assert p in pool.recycled;
      assert forall x :: x in pool.recycled <==> x in rest || x == p;
    } else if pool.current != pool.end {
      forall x: nat | x < WORD
        ensures IsWithinRange(x, pool.current, pool.end) <==>
                x == pool.current || IsWithinRange(x, NextPage(pool.current), pool.end)
      {
        BumpRemovesOnePage(pool.current, pool.end, x);
      }
      BumpRemovesOnePage(pool.current, pool.end, pool.current);
      assert IsFree(pool, pool.current);
    }
  }

  /** The validity check accepts a page exactly when it is live or does not
      belong to the interval at all; taking back a live page keeps the partition. */
  lemma {:induction false} DeallocateAcceptsLive(start: nat, pool: Pool, live: set<nat>, ppn: nat)
    requires PoolInv(start, pool, live) && ppn < WORD
    ensures Deallocate(pool, ppn).Some? <==> ppn in live || !IsWithinRange(ppn, start, pool.end)
    ensures ppn in live ==> PoolInv(start, Deallocate(pool, ppn).value, live - {ppn})
    ensures Deallocate(pool, ppn).Some? && ppn !in live ==>
            forall live' :: !PoolInv(start, Deallocate(pool, ppn).value, live')
  {
  }

  /** Recycling is a stack: the page freed last is handed out next, and the pool is
      then what it was before. */
  lemma FreedIsNextGranted(pool: Pool, ppn: nat)
    requires Deallocate(pool, ppn).Some?
    ensures Allocate(Deallocate(pool, ppn).value) == (pool, Some(ppn))
  {
    assert (pool.recycled + [ppn])[..|pool.recycled|] == pool.recycled;
  }

  /** The check is weaker than its message says: a page the allocator never
      managed is accepted, and handed out by the next allocation. */
  lemma ForeignPageIsAccepted()
    ensures var pool := Pool(16, 32, []);
            && PoolInv(16, pool, {})
            && Deallocate(pool, 7) == Some(Pool(16, 32, [7]))
            && Allocate(Pool(16, 32, [7])).1 == Some(7)
            && !IsWithinRange(7, 16, 32)
  {
    NewPoolInv(16, 32);
    assert Pool(16, 32, []).recycled + [7] == [7];
  }

  // ----- whole runs against a reference allocator -----

  datatype Event = Alloc | Free(ppn: nat)
  datatype Reply = Granted(ppn: nat) | Refused | Accepted | Panicked

  function Step(pool: Pool, e: Event): (Pool, Reply) {
    match e
    case Alloc =>
      var (pool', r) := Allocate(pool);
      (pool', if r.Some? then Granted(r.value) else Refused)
    case Free(p) =>
      match Deallocate(pool, p)
      case None => (pool, Panicked)
      case Some(pool') => (pool', Accepted)
  }

  function Run(pool: Pool, es: seq<Event>): (r: (Pool, seq<Reply>))
    ensures |r.1| == |es|
    decreases |es|
  {
    if es == [] then (pool, [])
    else
      var (pool1, reply) := Step(pool, es[0]);
      var (pool2, replies) := Run(pool1, es[1..]);
      (pool2, [reply] + replies)
  }

  function Allocs(k: nat): (es: seq<Event>)
    ensures |es| == k
  {
    if k == 0 then [] else [Alloc] + Allocs(k - 1)
  }

  /** The page `j` places after `current` around the circle of page numbers. */
  function PageAfter(pool: Pool, j: nat): nat {
    Wrap(pool.current + j)
  }

  lemma BumpShifts(pool: Pool, pool1: Pool, j: nat)
    requires pool1.current == NextPage(pool.current)
    ensures PageAfter(pool1, j) == PageAfter(pool, j + 1)
  {
  }

  /** With nothing recycled, untouched pages are handed out in ascending order from
      `current` on, as long as `end` is not reached. */
  lemma {:induction false} UntouchedPagesCountUp(pool: Pool, k: nat, i: nat)
    requires pool.recycled == [] && pool.current < WORD && i < k
    requires forall j: nat :: j < k ==> PageAfter(pool, j) != pool.end
    ensures Run(pool, Allocs(k)).1[i] == Granted(PageAfter(pool, i))
    decreases k
  {
    assert PageAfter(pool, 0) == pool.current;
    var pool1 := Step(pool, Alloc).0;
    assert Allocs(k)[0] == Alloc && Allocs(k)[1..] == Allocs(k - 1);
    if i > 0 {
      forall j: nat | j < k - 1
        ensures PageAfter(pool1, j) != pool1.end
      {
        BumpShifts(pool, pool1, j);
        assert PageAfter(pool, j + 1) != pool.end;
      }
      UntouchedPagesCountUp(pool1, k - 1, i - 1);
      BumpShifts(pool, pool1, i - 1);
    }
  }

  /** Allocating again and again hands out the pages `fs` in this order and leaves `pool'`. */
  ghost predicate Grants(pool: Pool, fs: seq<nat>, pool': Pool)
    decreases |fs|
  {
    if fs == [] then pool' == pool
    else Allocate(pool).1 == Some(fs[0]) && Grants(Allocate(pool).0, fs[1..], pool')
  }

  lemma {:induction false} GrantsOneMore(pool: Pool, fs: seq<nat>, pool': Pool)
    requires Grants(pool, fs, pool') && Allocate(pool').1.Some?
    ensures Grants(pool, fs + [Allocate(pool').1.value], Allocate(pool').0)
    decreases |fs|
  {
    hide Allocate;
    if fs != [] {
      GrantsOneMore(Allocate(pool).0, fs[1..], pool');
      assert (fs + [Allocate(pool').1.value])[1..] == fs[1..] + [Allocate(pool').1.value];
    }
  }

  /** The reference allocator knows only which pages are live. */
  function LiveAfter(live: set<nat>, e: Event, r: Reply): set<nat> {
    match r
    case Granted(p) => live + {p}
    case Accepted => if e.Free? then live - {e.ppn} else live
    case _ => live
  }

  ghost predicate AllowedReply(start: nat, end: nat, live: set<nat>, e: Event, r: Reply) {
    match e
    case Alloc =>
      && (r.Refused? || r.Granted?)
      && (r.Refused? <==> forall x: nat :: x < WORD && IsWithinRange(x, start, end) ==> x in live)
      && (r.Granted? ==> r.ppn !in live && r.ppn < WORD && IsWithinRange(r.ppn, start, end))
    case Free(p) =>
      r == if p in live then Accepted else Panicked
  }

  ghost predicate AllowedRun(start: nat, end: nat, live: set<nat>, es: seq<Event>, rs: seq<Reply>)
    requires |es| == |rs|
    decreases |es|
  {
    es == [] ||
    (AllowedReply(start, end, live, es[0], rs[0])
     && AllowedRun(start, end, LiveAfter(live, es[0], rs[0]), es[1..], rs[1..]))
  }

  function LiveAfterRun(live: set<nat>, es: seq<Event>, rs: seq<Reply>): set<nat>
    requires |es| == |rs|
    decreases |es|
  {
    if es == [] then live else LiveAfterRun(LiveAfter(live, es[0], rs[0]), es[1..], rs[1..])
  }

  /** Over any run of allocations and frees of pages of the interval, every reply
      is one the reference allocator allows, and the partition holds at the end. */
  lemma {:induction false} RunRefinesReference(start: nat, pool: Pool, live: set<nat>, es: seq<Event>)
    requires PoolInv(start, pool, live)
    requires forall e :: e in es && e.Free? ==> e.ppn < WORD && IsWithinRange(e.ppn, start, pool.end)
    ensures var (pool', rs) := Run(pool, es);
            && AllowedRun(start, pool.end, live, es, rs)
            && PoolInv(start, pool', LiveAfterRun(live, es, rs))
    decreases |es|
  {
    if es != [] {
      var (pool1, r) := Step(pool, es[0]);
      if es[0].Alloc? {
        AllocateKeepsPartition(start, pool, live);
      } else {
        assert es[0] in es;
        DeallocateAcceptsLive(start, pool, live, es[0].ppn);
      }
      RunRefinesReference(start, pool1, LiveAfter(live, es[0], r), es[1..]);
      var (pool2, rs) := Run(pool1, es[1..]);
      assert Run(pool, es).1[1..] == rs;
    }
  }

  class StackFrameAllocator {
    var current: nat
    var end: nat
    var recycled: seq<nat>

    function Value(): Pool
      reads this
    {
      Pool(current, end, recycled)
    }

    constructor (start: nat, end: nat)
      ensures Value() == Pool(start, end, [])
    {
      this.current, this.end, this.recycled := start, end, [];
    }

    method AllocateFrame() returns (r: Option<nat>)
      modifies this
      ensures (Value(), r) == Allocate(old(Value()))
    {
      if |recycled| > 0 {
        r := Some(recycled[|recycled| - 1]);
        recycled := recycled[..|recycled| - 1];
      } else if current == end {
        r := None;
      } else {
        r := Some(current);
        current := NextPage(current);
      }
    }

    /** `ok` is false where the source panics; the pool is then unchanged. */
    method DeallocateFrame(ppn: nat) returns (ok: bool)
      modifies this
      ensures ok <==> Deallocate(old(Value()), ppn).Some?
      ensures Value() == if ok then Deallocate(old(Value()), ppn).value else old(Value())
    {
      if IsWithinRange(ppn, current, end) || ppn in recycled {
        return false;
      }
      recycled := recycled + [ppn];
      ok := true;
    }
  }
}
