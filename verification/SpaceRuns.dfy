/** Main results about `PagedAddrSpace`: one `allocate_map` call, runs of calls
    against a flat page map, and the life of a space from creation to drop. */
module SpaceRuns {
  import opened Words
  import opened Sv39
  import opened MapSolver
  import opened LostPages
  import opened PageTree
  import opened AddressSpace
  import opened MapTheorems
  import FP = FramePool

  lemma PiecesDescend(v: nat, p: nat, n: nat)
    ensures forall i, j :: 0 <= i < j < |Pieces(v, p, n)| ==> Pieces(v, p, n)[i].level >= Pieces(v, p, n)[j].level
  {
    hide RoundUp, RoundDown, TopLevel;
    if n > 0 && TopLevel(v, p, n) > 0 {
      BelowDescends(v, v + n, TopLevel(v, p, n) - 1);
    }
  }

  lemma BelowDescends(v: nat, e: nat, l: nat)
    requires l <= 1
    ensures forall i :: 0 <= i < |Below(v, e, l)| ==> Below(v, e, l)[i].level <= l
    ensures forall i, j :: 0 <= i < j < |Below(v, e, l)| ==> Below(v, e, l)[i].level >= Below(v, e, l)[j].level
  {
  }

  lemma PiecesAreGood(v: nat, p: nat, n: nat)
    requires n <= VPN_LIMIT
    ensures GoodPieces(v, p, Pieces(v, p, n))
    ensures forall pc :: pc in Pieces(v, p, n) ==> pc.level <= 2
  {
    hide Pieces, Writes;
    SplitIsExactTiling(v, p, n);
    PiecesDescend(v, p, n);
    RequestDoesNotCollide(v, p, n);
  }

  /** The level-`l` entry of page `y` points to a table. */
  predicate HasTableBelow(s: Space, l: nat, y: nat)
    requires l <= 2
  {
    l >= 1 && TableOn(s.mem, s.root, 2, y, l - 1).Some?
  }

  /** A table hangs below one of the entries the range needs for itself. */
  ghost predicate TableInTheWay(s: Space, pc: Piece)
    requires pc.level <= 2
  {
    exists y: nat :: y < VPN_LIMIT && Writes(pc, y) && HasTableBelow(s, pc.level, y)
  }

  /** One of the entries the range needs is in use. */
  ghost predicate SlotTaken(s: Space, pc: Piece)
    requires pc.level <= 2
  {
    TableInTheWay(s, pc)
    || exists y: nat :: y < VPN_LIMIT && Writes(pc, y) && Walk(s.mem, s.root, y) != Fault
  }

  lemma HasTableBelowIff(start: nat, others: set<nat>, s: Space, tree: Tree, l: nat, y: nat)
    requires SpaceInv(start, others, s, tree) && l <= 2 && y < VPN_LIMIT
    ensures HasTableBelow(s, l, y) <==> l >= 1 && NodeOf(y, l - 1) in tree
  {
    hide TreeInv, TableOn, Key, FP.PoolInv;
    if l >= 1 {
      TableOnIs(s.mem, s.root, tree, y, l - 1);
    }
  }

  lemma TargetsFreeIff(start: nat, others: set<nat>, s: Space, tree: Tree, pc: Piece)
    requires SpaceInv(start, others, s, tree) && pc.level <= 2
    ensures TargetsFree(s, tree, pc) <==> !SlotTaken(s, pc)
  {
    hide SpaceInv, HasTableBelow, Writes, Walk, NodeOf;
    forall y: nat | y < VPN_LIMIT
      ensures HasTableBelow(s, pc.level, y) <==> pc.level >= 1 && NodeOf(y, pc.level - 1) in tree
    {
      HasTableBelowIff(start, others, s, tree, pc.level, y);
    }
  }

  // ----- one call -----

  /** Proper leaf flags, and no leaf in the way of any range of the request when its
      turn comes. */
  ghost predicate Mappable(s: Space, v: nat, p: nat, n: nat, flags: nat) {
    && LeafFlags(flags)
    && (forall pc :: pc in Pieces(v, p, n) ==> pc.level <= 2)
    && Passable(s, v, p, Pieces(v, p, n), flags)
  }

  lemma PiecesAreOk(v: nat, p: nat, n: nat)
    ensures AllPieceOk(v, p, Pieces(v, p, n))
    ensures forall pc :: pc in Pieces(v, p, n) ==> pc.level <= 2
  {
    hide Pieces;
    SplitIsExactTiling(v, p, n);
  }

  /** `allocate_map` keeps the tree, maps exactly the completed ranges and leaves
      every other translation alone; it fails only with the pool exhausted. A panic
      leaves behind in addition some entries of the range that stopped it. */
  lemma AllocateMapIsCorrect(start: nat, others: set<nat>, s: Space, v: nat, p: nat, n: nat, flags: nat)
    requires Good(start, others, s) && Mappable(s, v, p, n, flags)
    ensures flags < 256
    ensures var r := AllocateMap(s, v, p, n, flags);
            && Good(start, others, r.space)
            && r.space.pool.end == s.pool.end
            && CallEffect(s, r, v, p, flags, Pieces(v, p, n))
  {
    assert flags < 256;
    hide Pieces, SpaceInv, MapPieces, CallEffect, LeafFlags, Passable;
    var tree :| SpaceInv(start, others, s, tree);
    PiecesAreOk(v, p, n);
    var tree' := MapPiecesMaps(start, others, s, tree, v, p, Pieces(v, p, n), flags);
  }

  /** A request of at most 2^27 pages with no leaf in the way at first can be mapped;
      it panics only if one of the entries it needs is in use at first. */
  lemma UnblockedIsMappable(start: nat, others: set<nat>, s: Space, v: nat, p: nat, n: nat, flags: nat)
    requires Good(start, others, s) && n <= VPN_LIMIT && LeafFlags(flags)
    requires (forall pc :: pc in Pieces(v, p, n) ==> pc.level <= 2) && AllUnblocked(s, Pieces(v, p, n))
    ensures flags < 256 && Mappable(s, v, p, n, flags)
    ensures var r := AllocateMap(s, v, p, n, flags);
            var ps := Pieces(v, p, n);
            && (r.outcome == AlreadyAllocated ==> exists pc :: pc in ps && SlotTaken(s, pc))
            && (r.outcome == Ok ==> forall pc :: pc in ps ==> !SlotTaken(s, pc))
  {
    assert flags < 256;
    hide Pieces, SlotTaken, SpaceInv, MapPieces, LeafFlags, TargetsFree, GoodPieces, AllUnblocked, Passable;
    var tree :| SpaceInv(start, others, s, tree);
    var ps := Pieces(v, p, n);
    PiecesAreGood(v, p, n);
    FreshRangesPass(start, others, s, tree, v, p, ps, flags);
    forall pc | pc in ps
      ensures TargetsFree(s, tree, pc) <==> !SlotTaken(s, pc)
    {
      TargetsFreeIff(start, others, s, tree, pc);
    }
  }

  /** Whatever was translated before and however long the request: success maps every
      page that is kept as intended and leaves the pages outside the range alone. */
  lemma OkMapsKeptPages(start: nat, others: set<nat>, s: Space, v: nat, p: nat, n: nat, flags: nat)
    requires Good(start, others, s) && Mappable(s, v, p, n, flags)
    requires flags < 256 && AllocateMap(s, v, p, n, flags).outcome == Ok
    ensures var s' := AllocateMap(s, v, p, n, flags).space;
            && (forall x: nat :: Kept(Pieces(v, p, n), x) ==>
                  SentTo(Walk(s'.mem, s'.root, TableVpn(x)), (p + (x - v)) % PPN_LIMIT, flags))
            && (forall y: nat :: y < VPN_LIMIT && !InRequest(v, n, y) ==>
                  Walk(s'.mem, s'.root, y) == Walk(s.mem, s.root, y))
  {
    hide Pieces, SpaceInv, Walk, Shift, Writes, Answer, TableVpn, LeafFlags, Keeps, Passable, MapPieces, CallEffect,
      SameOffset, Intended, Offset;
    var ps := Pieces(v, p, n);
    PiecesAreOk(v, p, n);
    var tree :| SpaceInv(start, others, s, tree);
    OkWritesUntranslated(start, others, s, tree, v, p, ps, flags);
    AllocateMapIsCorrect(start, others, s, v, p, n, flags);
    var s' := AllocateMap(s, v, p, n, flags).space;
    assert AnswersWith(s, s', v, p, flags, ps) by { OkEffect(s, AllocateMap(s, v, p, n, flags), v, p, flags, ps); }
    WholeRangeIsKeptIff(v, p, n);
    forall x: nat | Kept(ps, x)
      ensures SentTo(Walk(s'.mem, s'.root, TableVpn(x)), (p + (x - v)) % PPN_LIMIT, flags)
    {
      AnswerOfKept(v, p, flags, ps, x, Walk(s.mem, s.root, TableVpn(x)));
      IntendedIsDisplacement(v, p, flags, x, Walk(s'.mem, s'.root, TableVpn(x)));
    }
    forall y: nat | y < VPN_LIMIT && !InRequest(v, n, y)
      ensures Walk(s'.mem, s'.root, y) == Walk(s.mem, s.root, y)
    {
      UnrequestedIsUnwritten(v, p, n, y);
      AnswerOfUnwritten(v, p, flags, ps, y, Walk(s.mem, s.root, y), Fault);
    }
  }

  lemma OkEffect(s: Space, r: MapRun, v: nat, p: nat, flags: nat, ps: seq<Piece>)
    requires (forall pc :: pc in ps ==> pc.level <= 2) && r.done <= |ps|
    requires CallEffect(s, r, v, p, flags, ps) && r.outcome == Ok
    ensures AnswersWith(s, r.space, v, p, flags, ps)
  {
  }

  lemma IntendedIsDisplacement(v: nat, p: nat, flags: nat, x: nat, t: Translation)
    requires v <= x
    ensures SentTo(t, (p + (x - v)) % PPN_LIMIT, flags) <==> t == Intended(v, p, flags, x)
  {
    hide Shift, WithV, SentTo;
    ShiftIsDisplacement(v, p, x);
    SentToIff(t, (p + (x - v)) % PPN_LIMIT, flags);
  }

  /** Entries of pages that were not asked for are not written; a request of more than
      2^27 pages asks for all of them. */
  lemma UnrequestedIsUnwritten(v: nat, p: nat, n: nat, y: nat)
    requires y < VPN_LIMIT
    ensures forall pc :: pc in Pieces(v, p, n) ==> pc.level <= 2
    ensures WrittenBy(Pieces(v, p, n), y) ==> InRequest(v, n, y)
  {
    hide Pieces, Writes, TableVpn;
    PiecesAreOk(v, p, n);
    if n <= VPN_LIMIT {
      RequestDoesNotCollide(v, p, n);
    } else {
      var x := PageWithLowBits(v, y);
      assert InRequest(v, n, y);
    }
  }

  lemma PageWithLowBits(v: nat, y: nat) returns (x: nat)
    requires y < VPN_LIMIT
    ensures v <= x < v + VPN_LIMIT && TableVpn(x) == y
  {
    var q, r := v / VPN_LIMIT, v % VPN_LIMIT;
    x := if r <= y then q * VPN_LIMIT + y else (q + 1) * VPN_LIMIT + y;
    SameLowBits(q, y);
    SameLowBits(q + 1, y);
  }

  /** `y` holds the low bits of a page of [v, v+n). */
  ghost predicate InRequest(v: nat, n: nat, y: nat) {
    exists x: nat :: v <= x < v + n && TableVpn(x) == y
  }

  ghost predicate Untranslated(s: Space, v: nat, n: nat) {
    forall x: nat :: v <= x < v + n ==> Walk(s.mem, s.root, TableVpn(x)) == Fault
  }

  /** No leaf is in the way of a range whose pages are not translated. */
  lemma UntranslatedIsUnblocked(start: nat, others: set<nat>, s: Space, v: nat, p: nat, n: nat)
    requires Good(start, others, s) && Untranslated(s, v, n)
    ensures forall pc :: pc in Pieces(v, p, n) ==> pc.level <= 2
    ensures AllUnblocked(s, Pieces(v, p, n))
  {
    hide Pieces, TreeInv, Walk, LeafAbove, FP.PoolInv, SameOffset, Offset, Shift, NodeOf, TableVpn;
    SplitIsExactTiling(v, p, n);
    var tree :| SpaceInv(start, others, s, tree);
    forall pc | pc in Pieces(v, p, n)
      ensures pc.level <= 2 && Unblocked(s, pc)
    {
      LeafAboveIff(s.mem, s.root, tree, pc.level, TableVpn(pc.lo));
    }
  }

  /** A lossy request leaves some page of the range without its translation. */
  lemma LostPageStaysLost(v: nat, p: nat, n: nat, flags: nat) returns (x: nat)
    requires n <= VPN_LIMIT && LosesPages(v, p, n)
    ensures forall pc :: pc in Pieces(v, p, n) ==> pc.level <= 2
    ensures v <= x < v + n
    ensures Answer(v, p, flags, Pieces(v, p, n), TableVpn(x), Fault) != Intended(v, p, flags, x)
  {
    hide Pieces, LosesPages, Lossy, Offset, Shift, SameOffset, Writes, CodeVpn, TableVpn, Answer, Key, WithV;
    var ps := Pieces(v, p, n);
    SplitIsExactTiling(v, p, n);
    OnlyFirstRangeIsLossy(v, p, n);
    RequestDoesNotCollide(v, p, n);
    var pc := ps[0];
    assert pc in ps;
    RangeIsKeptIff(pc);
    x :| pc.lo <= x < pc.hi && !Keeps(pc, x);
    var y := TableVpn(x);
    if Writes(pc, y) {
      AnswerOfWritten(v, p, flags, ps, pc, y, Fault);
      WrittenElsewhere(v, p, pc, x);
    } else {
      OtherRangesMiss(ps, 0, x);
      forall q | q in ps
        ensures !Writes(q, y)
      {
        if Writes(q, y) {
          var z := WrittenPageOf(q, y);
          SameResidue(z, x);
        }
      }
      AnswerOfUnwritten(v, p, flags, ps, y, Fault, Fault);
    }
  }

  /** A page that is written but not as itself is given another physical page. */
  lemma WrittenElsewhere(v: nat, p: nat, pc: Piece, x: nat)
    requires WellFormed(pc) && pc.hi <= pc.lo + VPN_LIMIT && pc.lo <= x < pc.hi
    requires Writes(pc, TableVpn(x)) && !Keeps(pc, x)
    ensures Shift(v, p, CodeVpn(pc.lo, pc.level, TableVpn(x))) % PPN_LIMIT != Shift(v, p, x) % PPN_LIMIT
  {
    hide Writes, CodeVpn, TableVpn, Key, TableEnd, Shift, Offset;
    var c := CodeVpn(pc.lo, pc.level, TableVpn(x));
    if pc.level <= 1 {
      WrittenBeforeCut(pc, TableVpn(x));
      SameResidue(c, x);
    } else {
      if Key(pc.lo, 3) != Key(pc.hi, 3) { NothingWritten1G(pc, TableVpn(x)); }
      Keeps1G(pc, x);
      RemainderGap(pc.lo);
      ShiftDiffers(v, p, c, pc.lo % PPN_LIMIT - pc.lo % VPN_LIMIT);
    }
  }

  lemma RemainderGap(lo: nat)
    requires lo % PPN_LIMIT >= VPN_LIMIT
    ensures 0 < lo % PPN_LIMIT - lo % VPN_LIMIT < PPN_LIMIT
  {
  }

  lemma ShiftDiffers(v: nat, p: nat, c: nat, d: nat)
    requires 0 < d < PPN_LIMIT
    ensures Shift(v, p, c) % PPN_LIMIT != Shift(v, p, c + d) % PPN_LIMIT
  {
    WrapKeepsPpn(Wrap(p - v) + c);
    WrapKeepsPpn(Wrap(p - v) + (c + d));
    hide Wrap;
    GapSurvives(Wrap(p - v) + c, d);
  }

  lemma GapSurvives(a: nat, d: nat)
    requires 0 < d < PPN_LIMIT
    ensures a % PPN_LIMIT != (a + d) % PPN_LIMIT
  {
  }

  /** On an untranslated range of any length, success maps page v+k to page p+k for
      every k if and only if the range is not longer than the address space and its
      first part is not lossy; pages outside the range keep their translation. */
  lemma OkMapsWholeRangeIff(start: nat, others: set<nat>, s: Space, v: nat, p: nat, n: nat, flags: nat)
    requires Good(start, others, s) && LeafFlags(flags) && Untranslated(s, v, n)
    requires AllocateMap(s, v, p, n, flags).outcome == Ok
    ensures var s' := AllocateMap(s, v, p, n, flags).space;
            && ((forall x: nat :: v <= x < v + n ==>
                   SentTo(Walk(s'.mem, s'.root, TableVpn(x)), (p + (x - v)) % PPN_LIMIT, flags))
                <==> n <= VPN_LIMIT && !LosesPages(v, p, n))
            && (n <= VPN_LIMIT ==>
                  forall y: nat :: y < VPN_LIMIT && !InRequest(v, n, y) ==>
                    Walk(s'.mem, s'.root, y) == Walk(s.mem, s.root, y))
  {
    assert flags < 256;
    hide Pieces, AllocateMap, LosesPages, Good, Kept, LeafFlags, Walk, TableVpn, AllUnblocked, WithV, InRequest,
      Untranslated, Mappable;
    var s' := AllocateMap(s, v, p, n, flags).space;
    if n <= VPN_LIMIT {
      WholeRangeIsKeptIff(v, p, n);
      UntranslatedIsUnblocked(start, others, s, v, p, n);
      UnblockedIsMappable(start, others, s, v, p, n, flags);
      OkMapsKeptPages(start, others, s, v, p, n, flags);
      if LosesPages(v, p, n) {
        var x := OkLeavesLostPage(start, others, s, v, p, n, flags);
      }
    } else {
      TooLongIsNotMapped(s', v, p, n, flags);
    }
  }

  lemma OkLeavesLostPage(start: nat, others: set<nat>, s: Space, v: nat, p: nat, n: nat, flags: nat) returns (x: nat)
    requires Good(start, others, s) && Mappable(s, v, p, n, flags) && Untranslated(s, v, n) && n <= VPN_LIMIT
    requires flags < 256 && AllocateMap(s, v, p, n, flags).outcome == Ok && LosesPages(v, p, n)
    ensures v <= x < v + n
    ensures var s' := AllocateMap(s, v, p, n, flags).space;
            !SentTo(Walk(s'.mem, s'.root, TableVpn(x)), (p + (x - v)) % PPN_LIMIT, flags)
  {
    hide Pieces, AllocateMap, LosesPages, Good, LeafFlags, Walk, TableVpn, WithV, Answer, Passable, Intended;
    AllocateMapIsCorrect(start, others, s, v, p, n, flags);
    assert AnswersWith(s, AllocateMap(s, v, p, n, flags).space, v, p, flags, Pieces(v, p, n));
    x := LostPageStaysLost(v, p, n, flags);
    var s' := AllocateMap(s, v, p, n, flags).space;
    IntendedIsDisplacement(v, p, flags, x, Walk(s'.mem, s'.root, TableVpn(x)));
  }

  /** Two pages of a request longer than the address space share an entry. */
  lemma TooLongIsNotMapped(s: Space, v: nat, p: nat, n: nat, flags: nat)
    requires n > VPN_LIMIT
    ensures exists x: nat :: v <= x < v + n
              && !SentTo(Walk(s.mem, s.root, TableVpn(x)), (p + (x - v)) % PPN_LIMIT, flags)
  {
    hide Walk, TableVpn, WithV;
    var w := v + VPN_LIMIT;
    OneTurnLater(v);
    GapSurvives(p, VPN_LIMIT);
    assert (p + (v - v)) % PPN_LIMIT != (p + (w - v)) % PPN_LIMIT;
    assert Walk(s.mem, s.root, TableVpn(v)) == Walk(s.mem, s.root, TableVpn(w));
  }

  lemma OneTurnLater(v: nat)
    ensures TableVpn(v + VPN_LIMIT) == TableVpn(v)
  {
  }

  // ----- runs of calls against a flat map -----

  type Flat = map<nat, Translation>

  ghost predicate Represents(s: Space, flat: Flat) {
    forall y: nat :: y < VPN_LIMIT ==>
      Walk(s.mem, s.root, y) == if y in flat then flat[y] else Fault
  }

  /** The flat map after the given ranges of a request have been entered. */
  ghost function FlatMap(flat: Flat, v: nat, p: nat, flags: nat, ps: seq<Piece>): Flat
    requires forall pc :: pc in ps ==> pc.level <= 2
  {
    flat + map y: nat | y < VPN_LIMIT && WrittenBy(ps, y) :: Answer(v, p, flags, ps, y, Fault)
  }

  /** For a request that loses no pages this is the textbook update: page v+k goes
      to page p+k, nothing else changes. */
  lemma FlatMapIsDisplacement(flat: Flat, v: nat, p: nat, n: nat, flags: nat)
    requires n <= VPN_LIMIT && !LosesPages(v, p, n)
    ensures forall pc :: pc in Pieces(v, p, n) ==> pc.level <= 2
    ensures var flat' := FlatMap(flat, v, p, flags, Pieces(v, p, n));
            && (forall x: nat :: v <= x < v + n ==>
                  TableVpn(x) in flat' && SentTo(flat'[TableVpn(x)], (p + (x - v)) % PPN_LIMIT, flags))
            && (forall y :: y in flat && !InRequest(v, n, y) ==> y in flat' && flat'[y] == flat[y])
            && (forall y :: y in flat' ==> y in flat || InRequest(v, n, y))
  {
    hide Pieces, LosesPages, Shift, TableVpn, Writes, Answer, Keeps, CodeVpn;
    var ps := Pieces(v, p, n);
    WholeRangeIsKeptIff(v, p, n);
    RequestDoesNotCollide(v, p, n);
    forall x: nat | v <= x < v + n
      ensures WrittenBy(ps, TableVpn(x))
      ensures SentTo(Answer(v, p, flags, ps, TableVpn(x), Fault), (p + (x - v)) % PPN_LIMIT, flags)
    {
      assert Kept(ps, x);
      var pc :| pc in ps && pc.lo <= x < pc.hi && Keeps(pc, x);
      assert Writes(pc, TableVpn(x)) by { KeptIsWritten(pc, x); }
      AnswerOfKept(v, p, flags, ps, x, Fault);
      IntendedIsDisplacement(v, p, flags, x, Intended(v, p, flags, x));
    }
  }

  lemma KeptIsWritten(pc: Piece, x: nat)
    requires pc.level <= 2 && Keeps(pc, x)
    ensures Writes(pc, TableVpn(x))
  {
  }

  datatype Request = Request(v: nat, p: nat, n: nat, flags: nat)

  /** Completed ranges of one request. */
  function Completed(s: Space, q: Request): seq<Piece>
    requires q.flags < 256
  {
    Pieces(q.v, q.p, q.n)[..AllocateMap(s, q.v, q.p, q.n, q.flags).done]
  }

  /** The request meets no leaf on its way and is answered, with Ok or an error. */
  ghost predicate Served(s: Space, q: Request) {
    Mappable(s, q.v, q.p, q.n, q.flags) && AllocateMap(s, q.v, q.p, q.n, q.flags).outcome != AlreadyAllocated
  }

  function SpaceAfter(s: Space, qs: seq<Request>): Space
    requires forall q :: q in qs ==> q.flags < 256
    decreases |qs|
  {
    if qs == [] then s
    else
      assert qs[0] in qs;
      SpaceAfter(AllocateMap(s, qs[0].v, qs[0].p, qs[0].n, qs[0].flags).space, qs[1..])
  }

  ghost predicate RunOk(s: Space, qs: seq<Request>)
    requires forall q :: q in qs ==> q.flags < 256
    decreases |qs|
  {
    qs == [] ||
    (qs[0] in qs && Served(s, qs[0])
     && RunOk(AllocateMap(s, qs[0].v, qs[0].p, qs[0].n, qs[0].flags).space, qs[1..]))
  }

  lemma CompletedLevels(s: Space, q: Request)
    requires q.flags < 256
    ensures forall pc :: pc in Completed(s, q) ==> pc.level <= 2
  {
    hide Pieces, AllocateMap;
    PiecesAreOk(q.v, q.p, q.n);
    assert forall pc :: pc in Completed(s, q) ==> pc in Pieces(q.v, q.p, q.n);
  }

  /** The flat map after one request. */
  ghost function FlatStep(s: Space, flat: Flat, q: Request): Flat
    requires q.flags < 256
  {
    CompletedLevels(s, q);
    FlatMap(flat, q.v, q.p, q.flags, Completed(s, q))
  }

  ghost function FlatAfter(s: Space, flat: Flat, qs: seq<Request>): Flat
    requires forall q :: q in qs ==> q.flags < 256
    decreases |qs|
  {
    if qs == [] then flat
    else
      assert qs[0] in qs;
      FlatAfter(AllocateMap(s, qs[0].v, qs[0].p, qs[0].n, qs[0].flags).space, FlatStep(s, flat, qs[0]), qs[1..])
  }

  /** Entering the same ranges keeps memory and flat map in step. */
  lemma FlatMapKeepsStep(s: Space, s': Space, flat: Flat, v: nat, p: nat, flags: nat, ps: seq<Piece>)
    requires forall pc :: pc in ps ==> pc.level <= 2
    requires Represents(s, flat) && AnswersWith(s, s', v, p, flags, ps)
    ensures Represents(s', FlatMap(flat, v, p, flags, ps))
  {
    hide Answer, WrittenBy, Walk;
    forall y: nat | y < VPN_LIMIT
      ensures var flat' := FlatMap(flat, v, p, flags, ps);
              Walk(s'.mem, s'.root, y) == if y in flat' then flat'[y] else Fault
    {
      AnswerOfUnwritten(v, p, flags, ps, y, Walk(s.mem, s.root, y), Fault);
    }
  }

  /** A request whose range is not in the flat map, as far as a caller can see without
      looking at memory; the tables in the way are the exception. */
  ghost predicate Fresh(s: Space, flat: Flat, q: Request) {
    && q.n <= VPN_LIMIT && LeafFlags(q.flags)
    && (forall x: nat :: q.v <= x < q.v + q.n ==> TableVpn(x) !in flat)
    && (forall pc :: pc in Pieces(q.v, q.p, q.n) ==> pc.level <= 2 && !TableInTheWay(s, pc))
  }

  lemma FreshIsUntranslated(s: Space, flat: Flat, q: Request)
    requires Represents(s, flat) && Fresh(s, flat, q)
    ensures Untranslated(s, q.v, q.n)
    ensures forall pc :: pc in Pieces(q.v, q.p, q.n) ==> pc.level <= 2 && !SlotTaken(s, pc)
  {
    hide Pieces, Walk, TableVpn, Writes, TableInTheWay, LeafFlags;
    RequestDoesNotCollide(q.v, q.p, q.n);
    assert Untranslated(s, q.v, q.n);
  }

  /** Such a request is served: no leaf in the way, no panic. */
  lemma FreshIsServed(start: nat, others: set<nat>, s: Space, flat: Flat, q: Request)
    requires Good(start, others, s) && Represents(s, flat) && Fresh(s, flat, q)
    ensures q.flags < 256 && Served(s, q)
  {
    assert q.flags < 256;
    hide Pieces, AllocateMap, Good, SlotTaken, LeafFlags, Walk, TableVpn, AllUnblocked, TableInTheWay, Represents,
      Untranslated, Mappable;
    FreshIsUntranslated(s, flat, q);
    UntranslatedIsUnblocked(start, others, s, q.v, q.p, q.n);
    UnblockedIsMappable(start, others, s, q.v, q.p, q.n, q.flags);
  }

  /** A served request keeps memory and flat map in step, whether it succeeds or not. */
  lemma StepRefinesFlatMap(start: nat, others: set<nat>, s: Space, flat: Flat, q: Request)
    requires Good(start, others, s) && Represents(s, flat) && Served(s, q)
    ensures q.flags < 256
    ensures var s' := AllocateMap(s, q.v, q.p, q.n, q.flags).space;
            Good(start, others, s') && Represents(s', FlatStep(s, flat, q)) && s'.pool.end == s.pool.end
  {
    assert q.flags < 256;
    hide Pieces, AllocateMap, Good, LeafFlags, Walk, Intended, Answer, FlatMap, Represents, AnswersWith, Passable;
    var ps := Pieces(q.v, q.p, q.n);
    AllocateMapIsCorrect(start, others, s, q.v, q.p, q.n, q.flags);
    var r := AllocateMap(s, q.v, q.p, q.n, q.flags);
    CompletedLevels(s, q);
    assert r.done == |ps| ==> Completed(s, q) == ps;
    FlatMapKeepsStep(s, r.space, flat, q.v, q.p, q.flags, Completed(s, q));
  }

  /** Over any run of served requests, failed ones and overlapping ones included, the
      page-table tree in memory refines the flat map. */
  lemma {:induction false} RunRefinesFlatMap(start: nat, others: set<nat>, s: Space, flat: Flat, qs: seq<Request>)
    requires Good(start, others, s) && Represents(s, flat)
    requires (forall q :: q in qs ==> q.flags < 256) && RunOk(s, qs)
    ensures Good(start, others, SpaceAfter(s, qs))
    ensures Represents(SpaceAfter(s, qs), FlatAfter(s, flat, qs))
    ensures SpaceAfter(s, qs).pool.end == s.pool.end
    decreases |qs|
  {
    if qs != [] {
      hide Good, Represents, Served, FlatStep, AllocateMap;
      assert qs[0] in qs;
      StepRefinesFlatMap(start, others, s, flat, qs[0]);
      RunRefinesFlatMap(start, others, AllocateMap(s, qs[0].v, qs[0].p, qs[0].n, qs[0].flags).space,
                        FlatStep(s, flat, qs[0]), qs[1..]);
    }
  }

  // ----- drop -----

  /** Freeing distinct live frames succeeds, pushes them on the recycling stack in
      order, and removes exactly them from the live set. */
  lemma {:induction false} FreeAllSucceeds(start: nat, pool: FP.Pool, live: set<nat>, fs: seq<nat>)
    requires FP.PoolInv(start, pool, live) && NoDuplicates(fs)
    requires forall f :: f in fs ==> f in live
    ensures FreeAll(pool, fs).Some?
    ensures FP.PoolInv(start, FreeAll(pool, fs).value, live - set f | f in fs)
    ensures FreeAll(pool, fs).value == pool.(recycled := pool.recycled + fs)
    decreases |fs|
  {
    if fs == [] {
      assert live - (set f | f in fs) == live;
      assert pool.recycled + fs == pool.recycled;
    } else {
      assert fs[0] in fs && fs[0] < WORD;
      FP.DeallocateAcceptsLive(start, pool, live, fs[0]);
      var pool1 := FP.Deallocate(pool, fs[0]).value;
      var rest := fs[1..];
      assert pool1.recycled + rest == pool.recycled + fs;
      hide FP.PoolInv, FP.Deallocate;
      assert forall f :: f in fs <==> f == fs[0] || f in rest;
      assert fs[0] !in rest;
      FreeAllSucceeds(start, pool1, live - {fs[0]}, rest);
      assert live - (set f | f in fs) == live - {fs[0]} - set f | f in rest;
    }
  }

  /** Dropping a space never panics and gives back exactly the frames it owns,
      the root frame first. */
  lemma DropReturnsFrames(start: nat, others: set<nat>, s: Space)
    requires Good(start, others, s)
    ensures Drop(s).Some?
    ensures FP.PoolInv(start, Drop(s).value, others)
    ensures Drop(s).value == s.pool.(recycled := s.pool.recycled + [s.root] + s.frames)
  {
    hide FP.PoolInv, FP.Deallocate;
    GoodSpaceIsTree(start, others, s);
    assert forall f :: f in Owned(s) ==> f in Tables(s);
    FreeAllSucceeds(start, s.pool, others + Tables(s), Owned(s));
    assert others + Tables(s) - Tables(s) == others;
    assert s.pool.recycled + Owned(s) == s.pool.recycled + [s.root] + s.frames;
  }

  // ----- frame accounting, whatever memory holds -----

  /** The space owns distinct live frames of the pool that nobody else owns. */
  ghost predicate Accounts(start: nat, others: set<nat>, s: Space) {
    NoDuplicates(Owned(s)) && others !! Tables(s) && FP.PoolInv(start, s.pool, others + Tables(s))
  }

  lemma LinkKeepsAccounts(start: nat, others: set<nat>, s: Space, s1: Space)
    requires Accounts(start, others, s) && FP.Allocate(s.pool).1.Some?
    requires s1.root == s.root && s1.frames == s.frames + [FP.Allocate(s.pool).1.value]
    requires s1.pool == FP.Allocate(s.pool).0
    ensures Accounts(start, others, s1)
  {
    hide FP.Allocate, FP.PoolInv;
    FP.AllocateKeepsPartition(start, s.pool, others + Tables(s));
    var g := FP.Allocate(s.pool).1.value;
    TablesGrow(s, s1, g);
    assert others + Tables(s1) == others + Tables(s) + {g};
  }

  lemma {:induction false} GetTableKeepsAccounts(start: nat, others: set<nat>, s: Space, f: nat, l: nat, t: nat,
                                                 x: nat)
    requires Accounts(start, others, s) && t <= l <= 2
    ensures Accounts(start, others, GetTable(s, f, l, t, x).0)
    decreases l
  {
    if l > t {
      hide FP.Allocate, Accounts, VpnIndex, Read, Write, IsValid, EntryPpn, ChildEntry, GetTable;
      GetTableUnfold(s, f, l, t, x);
      if IsValid(Read(s.mem, f, VpnIndex(x, l))) {
        GetTableKeepsAccounts(start, others, s, EntryPpn(Read(s.mem, f, VpnIndex(x, l))), l - 1, t, x);
      } else {
        var (pool', r) := FP.Allocate(s.pool);
        if r.Some? {
          var s1 := LinkTable(s, pool', f, VpnIndex(x, l), r.value);
          LinkKeepsAccounts(start, others, s, s1);
          GetTableKeepsAccounts(start, others, s1, r.value, l - 1, t, x);
        } else {
          AccountsIgnoreMemory(start, others, s, s.(pool := pool'));
        }
      }
    }
  }

  lemma AccountsIgnoreMemory(start: nat, others: set<nat>, s: Space, s1: Space)
    requires Accounts(start, others, s) && s1.root == s.root && s1.frames == s.frames
    requires s1.pool == s.pool || (FP.Allocate(s.pool).1.None? && s1.pool == FP.Allocate(s.pool).0)
    ensures Accounts(start, others, s1)
  {
    assert Owned(s1) == Owned(s);
  }

  lemma {:induction false} MapPiecesKeepsAccounts(start: nat, others: set<nat>, s: Space, v: nat, p: nat,
                                                  ps: seq<Piece>, flags: nat)
    requires Accounts(start, others, s) && flags < 256 && forall pc :: pc in ps ==> pc.level <= 2
    ensures Accounts(start, others, MapPieces(s, v, p, ps, flags).space)
    decreases |ps|
  {
    if ps != [] {
      hide Accounts, GetTable, WriteEntries, VpnIndexRange, MapPieces;
      MapPiecesUnfold(s, v, p, ps, flags);
      GetTableKeepsAccounts(start, others, s, s.root, 2, ps[0].level, ps[0].lo);
      var s1 := GetTable(s, s.root, 2, ps[0].level, ps[0].lo).0;
      AccountsIgnoreMemory(start, others, s1, MapPiece(s, v, p, ps[0], flags).0);
      MapPiecesKeepsAccounts(start, others, MapPiece(s, v, p, ps[0], flags).0, v, p, ps[1..], flags);
    }
  }

  lemma {:induction false} RunKeepsAccounts(start: nat, others: set<nat>, s: Space, qs: seq<Request>)
    requires Accounts(start, others, s) && forall q :: q in qs ==> q.flags < 256
    ensures Accounts(start, others, SpaceAfter(s, qs))
    decreases |qs|
  {
    if qs != [] {
      hide Accounts, Pieces, MapPieces;
      assert qs[0] in qs;
      PiecesAreOk(qs[0].v, qs[0].p, qs[0].n);
      MapPiecesKeepsAccounts(start, others, s, qs[0].v, qs[0].p, Pieces(qs[0].v, qs[0].p, qs[0].n), qs[0].flags);
      RunKeepsAccounts(start, others, AllocateMap(s, qs[0].v, qs[0].p, qs[0].n, qs[0].flags).space, qs[1..]);
    }
  }

  // ----- the order of the owned frames -----

  /** The owned frames, root first, are what the allocator granted since it was in the
      state `pool0`, in the order of the grants. */
  ghost predicate GrantedSince(pool0: FP.Pool, s: Space) {
    FP.Grants(pool0, Owned(s), s.pool)
  }

  lemma GrantedIgnoresMemory(pool0: FP.Pool, s: Space, s1: Space)
    requires GrantedSince(pool0, s) && s1.root == s.root && s1.frames == s.frames
    requires s1.pool == s.pool || (FP.Allocate(s.pool).1.None? && s1.pool == FP.Allocate(s.pool).0)
    ensures GrantedSince(pool0, s1)
  {
    hide FP.Grants;
    assert Owned(s1) == Owned(s);
  }

  lemma {:induction false} GetTableTakesInOrder(pool0: FP.Pool, s: Space, f: nat, l: nat, t: nat, x: nat)
    requires GrantedSince(pool0, s) && t <= l <= 2
    ensures GrantedSince(pool0, GetTable(s, f, l, t, x).0)
    decreases l
  {
    if l > t {
      hide FP.Allocate, FP.Grants, VpnIndex, Read, Write, IsValid, EntryPpn, ChildEntry, GetTable;
      GetTableUnfold(s, f, l, t, x);
      if IsValid(Read(s.mem, f, VpnIndex(x, l))) {
        GetTableTakesInOrder(pool0, s, EntryPpn(Read(s.mem, f, VpnIndex(x, l))), l - 1, t, x);
      } else {
        var (pool', r) := FP.Allocate(s.pool);
        if r.Some? {
          var s1 := LinkTable(s, pool', f, VpnIndex(x, l), r.value);
          FP.GrantsOneMore(pool0, Owned(s), s.pool);
          assert Owned(s1) == Owned(s) + [r.value];
          GetTableTakesInOrder(pool0, s1, r.value, l - 1, t, x);
        } else {
          GrantedIgnoresMemory(pool0, s, s.(pool := pool'));
        }
      }
    }
  }

  lemma {:induction false} MapPiecesTakesInOrder(pool0: FP.Pool, s: Space, v: nat, p: nat, ps: seq<Piece>, flags: nat)
    requires GrantedSince(pool0, s) && flags < 256 && forall pc :: pc in ps ==> pc.level <= 2
    ensures GrantedSince(pool0, MapPieces(s, v, p, ps, flags).space)
    decreases |ps|
  {
    if ps != [] {
      hide GrantedSince, GetTable, WriteEntries, VpnIndexRange, MapPieces;
      MapPiecesUnfold(s, v, p, ps, flags);
      GetTableTakesInOrder(pool0, s, s.root, 2, ps[0].level, ps[0].lo);
      var s1 := GetTable(s, s.root, 2, ps[0].level, ps[0].lo).0;
      GrantedIgnoresMemory(pool0, s1, MapPiece(s, v, p, ps[0], flags).0);
      MapPiecesTakesInOrder(pool0, MapPiece(s, v, p, ps[0], flags).0, v, p, ps[1..], flags);
    }
  }

  lemma {:induction false} RunTakesInOrder(pool0: FP.Pool, s: Space, qs: seq<Request>)
    requires GrantedSince(pool0, s) && forall q :: q in qs ==> q.flags < 256
    ensures GrantedSince(pool0, SpaceAfter(s, qs))
    decreases |qs|
  {
    if qs != [] {
      hide GrantedSince, Pieces, MapPieces;
      assert qs[0] in qs;
      PiecesAreOk(qs[0].v, qs[0].p, qs[0].n);
      MapPiecesTakesInOrder(pool0, s, qs[0].v, qs[0].p, Pieces(qs[0].v, qs[0].p, qs[0].n), qs[0].flags);
      RunTakesInOrder(pool0, AllocateMap(s, qs[0].v, qs[0].p, qs[0].n, qs[0].flags).space, qs[1..]);
    }
  }

  /** From creation through any requests, whatever memory holds: the root and then the
      frames of the list are the grants of the allocator one after the other, and no
      grant is kept anywhere else. */
  lemma LifeTakesFramesInOrder(mem: Memory, pool: FP.Pool, qs: seq<Request>)
    requires Create(mem, pool).1.Some? && forall q :: q in qs ==> q.flags < 256
    ensures var s := SpaceAfter(Create(mem, pool).1.value, qs);
            FP.Grants(pool, [s.root] + s.frames, s.pool)
  {
    hide FP.Allocate, SpaceAfter;
    var s0 := Create(mem, pool).1.value;
    assert Owned(s0) == [s0.root] && [s0.root][1..] == [];
    assert FP.Grants(FP.Allocate(pool).0, [], s0.pool);
    assert GrantedSince(pool, s0);
    RunTakesInOrder(pool, s0, qs);
  }

  lemma CreateAccounts(start: nat, others: set<nat>, mem: Memory, pool: FP.Pool)
    requires FP.PoolInv(start, pool, others) && Create(mem, pool).1.Some?
    ensures Accounts(start, others, Create(mem, pool).1.value)
  {
    hide FP.Allocate, FP.PoolInv;
    FP.AllocateKeepsPartition(start, pool, others);
    var s := Create(mem, pool).1.value;
    assert Tables(s) == {s.root};
  }

  lemma DropAccounts(start: nat, others: set<nat>, s: Space)
    requires Accounts(start, others, s)
    ensures Drop(s).Some? && FP.PoolInv(start, Drop(s).value, others)
  {
    hide FP.PoolInv, FP.Deallocate;
    assert forall f :: f in Owned(s) ==> f in Tables(s);
    FreeAllSucceeds(start, s.pool, others + Tables(s), Owned(s));
    assert others + Tables(s) - Tables(s) == others;
  }

  /** From creation through any requests whatsoever to the drop, whatever memory holds
      and however the calls end, the space owns distinct live frames, the drop does not
      panic, and the allocator ends with the live frames it started with. */
  lemma LifeConservesFrames(start: nat, others: set<nat>, mem: Memory, pool: FP.Pool, qs: seq<Request>)
    requires FP.PoolInv(start, pool, others)
    requires Create(mem, pool).1.Some? && forall q :: q in qs ==> q.flags < 256
    ensures var s := SpaceAfter(Create(mem, pool).1.value, qs);
            && Accounts(start, others, s)
            && Drop(s).Some?
            && FP.PoolInv(start, Drop(s).value, others)
  {
    hide Accounts, SpaceAfter, Create, FP.PoolInv, Drop;
    CreateAccounts(start, others, mem, pool);
    RunKeepsAccounts(start, others, Create(mem, pool).1.value, qs);
    DropAccounts(start, others, SpaceAfter(Create(mem, pool).1.value, qs));
  }

  /** Over free frames that are zero, and through served requests, these frames are at
      all times the tables of the tree that hangs off the root. */
  lemma LifeKeepsTree(start: nat, others: set<nat>, mem: Memory, pool: FP.Pool, qs: seq<Request>)
    requires FP.PoolInv(start, pool, others) && FramesFit(start, pool.end)
    requires FreeFramesAreZero(Space(mem, pool, 0, []))
    requires Create(mem, pool).1.Some? && forall q :: q in qs ==> q.flags < 256
    requires RunOk(Create(mem, pool).1.value, qs)
    ensures var s := SpaceAfter(Create(mem, pool).1.value, qs);
            && IsTree(s.mem, s.root, Tables(s))
            && Represents(s, FlatAfter(Create(mem, pool).1.value, map[], qs))
  {
    hide RunOk, SpaceAfter, FlatAfter, Create, FP.PoolInv, Good, IsTree;
    CreateIsGood(start, others, mem, pool);
    var s0 := Create(mem, pool).1.value;
    assert Represents(s0, map[]);
    RunRefinesFlatMap(start, others, s0, map[], qs);
    GoodSpaceIsTree(start, others, SpaceAfter(s0, qs));
  }

  // ----- where the hypotheses matter -----

  /** A dropped space leaves only zero frames behind exactly when its tables are
      all zero. */
  lemma DropLeavesZeroFramesIff(start: nat, others: set<nat>, s: Space)
    requires Good(start, others, s)
    ensures Drop(s).Some?
    ensures FreeFramesAreZero(Space(s.mem, Drop(s).value, 0, [])) <==>
            forall f: nat, j: nat :: f in Tables(s) && j < 512 ==> Read(s.mem, f, j) == 0
  {
    hide Read, Drop, Tables, FP.IsFree, FP.IsWithinRange;
    DropReturnsFrames(start, others, s);
    var pool' := Drop(s).value;
    var tree :| SpaceInv(start, others, s, tree);
    forall f: nat | f < WORD
      ensures FP.IsFree(pool', f) <==> FP.IsFree(s.pool, f) || f in Tables(s)
    {
      FreedOrTable(start, others, s, pool', f);
    }
    assert forall f :: f in Tables(s) ==> f in others + Tables(s);
    hide SpaceInv, Good;
  }

  lemma FreedOrTable(start: nat, others: set<nat>, s: Space, pool': FP.Pool, f: nat)
    requires FP.PoolInv(start, s.pool, others + Tables(s)) && others !! Tables(s)
    requires FP.PoolInv(start, pool', others) && pool'.end == s.pool.end && f < WORD
    ensures FP.IsFree(pool', f) <==> FP.IsFree(s.pool, f) || f in Tables(s)
  {
  }

  /** So after dropping a space that translated anything, the hypothesis under
      which a new space is correct no longer holds. */
  lemma UsedSpaceLeavesDirtyFrames(start: nat, others: set<nat>, s: Space, x: nat)
    requires Good(start, others, s) && x < VPN_LIMIT && Walk(s.mem, s.root, x).Mapped?
    ensures Drop(s).Some? && !FreeFramesAreZero(Space(s.mem, Drop(s).value, 0, []))
  {
    hide Read, Drop, Good, IsValid, FreeFramesAreZero;
    DropLeavesZeroFramesIff(start, others, s);
    ZeroWordIsInvalid();
    assert s.root in Owned(s);
    assert s.root in Tables(s) && Read(s.mem, s.root, VpnIndex(x, 2)) != 0;
  }
}
