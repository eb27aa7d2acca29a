/** Runs of `PagedAddrSpace` in which the code does not do what its text says, one
    for each way the hypotheses of the run theorems can fail. Pools manage the
    frames 16 to 31 of a memory that is zero at first. */
module MapExamples {
  import opened Words
  import opened Sv39
  import opened MapSolver
  import opened LostPages
  import opened PageTree
  import opened AddressSpace
  import opened MapTheorems
  import opened SpaceRuns
  import opened LeafFollowing
  import FP = FramePool

  // ----- splits of simple requests -----

  lemma AlignedRounds(x: nat, l: nat)
    requires l <= 2 && x % 262144 == 0
    ensures RoundUp(x, l) == x == RoundDown(x, l)
  {
    hide RoundUp, RoundDown;
    assert Offset(x, 2) == 0;
    CoarserIsFiner(x, l, 2);
    hide Offset;
    Roundings(x, l, x);
  }

  lemma AlignedDifference(v: nat, p: nat)
    requires v % 262144 == 0 && p % 262144 == 0
    ensures SameOffset(v, p, 2)
  {
    WrapResidues(v - p);
    assert (v - p) % 262144 == 0;
    hide Wrap;
  }

  lemma GigabytePieces(v: nat, p: nat, n: nat)
    requires v % 262144 == 0 && p % 262144 == 0 && n % 262144 == 0 && n > 0
    ensures Pieces(v, p, n) == [Piece(2, v, v + n)]
  {
    hide RoundUp, RoundDown, SameOffset;
    AlignedDifference(v, p);
    assert (v + n) % 262144 == 0;
    AlignedRounds(v, 2);
    AlignedRounds(v, 1);
    AlignedRounds(v, 0);
    AlignedRounds(v + n, 2);
    AlignedRounds(v + n, 1);
    AlignedRounds(v + n, 0);
    assert Below(v, v + n, 0) == [];
    assert Below(v, v + n, 1) == [];
    assert RoundUp(v, 2) != RoundDown(v + n, 2);
    assert TopLevel(v, p, n) == 2;
  }

  lemma SmallPieces(v: nat, p: nat, n: nat)
    requires 0 < n < 512
    ensures Pieces(v, p, n) == [Piece(0, v, v + n)]
  {
    hide RoundUp, RoundDown, SameOffset, Below;
    Roundings4K(v);
    Roundings4K(v + n);
  }

  // ----- requests that lose pages -----

  /** Whole gigabytes that reach the end of a 512G table are reported as mapped, and
      nothing at all is done. */
  lemma GigabytesAtTableEndAreLost(s: Space, v: nat, p: nat, n: nat, flags: nat)
    requires v % 262144 == 0 && p % 262144 == 0 && n % 262144 == 0 && 0 < n <= VPN_LIMIT && flags < 256
    requires v / VPN_LIMIT != (v + n) / VPN_LIMIT
    ensures AllocateMap(s, v, p, n, flags) == MapRun(s, Ok, 1)
  {
    hide Pieces, VpnIndexRange;
    GigabytePieces(v, p, n);
    IndexRangeIsEmpty1G(v, v + n);
    var ps := [Piece(2, v, v + n)];
    MapPiecesUnfold(s, v, p, ps, flags);
    assert ps[1..] == [];
  }

  /** The last gigabyte of the 512G, mapped anywhere, in any space. */
  lemma LastGigabyteIsLost(s: Space, p: nat, flags: nat)
    requires p % 262144 == 0 && flags < 256
    ensures AllocateMap(s, 0x7FC_0000, p, 0x4_0000, flags) == MapRun(s, Ok, 1)
  {
    GigabytesAtTableEndAreLost(s, 0x7FC_0000, p, 0x4_0000, flags);
  }

  /** The first gigabyte of the upper canonical half goes to the wrong place: 2^27
      pages behind the one that was asked for. */
  lemma UpperGigabyteIsMisplaced(s: Space, flags: nat)
    requires LeafFlags(flags) && !IsValid(Read(s.mem, s.root, 256))
    ensures flags < 256
    ensures var v, p := 0xF_FFFF_FC00_0000, 0x4_0000;
            var r := AllocateMap(s, v, p, 0x4_0000, flags);
            && TableVpn(v) == 0x400_0000
            && r.outcome == Ok
            && Walk(r.space.mem, r.space.root, TableVpn(v)) == Mapped(p + VPN_LIMIT, WithV(flags))
  {
    hide Pieces, VpnIndexRange, VpnIndex, VpnLevelIndex, Shift, Wrap, IsValid, WithV, Read, Offset, TableVpn, Walk,
      AllocateMap, Has;
    var v, p := 0xF_FFFF_FC00_0000, 0x4_0000;
    GigabytePieces(v, p, 0x4_0000);
    UpperEntry(v, p);
    OneGigabyte(s, v, p, 0x4_0000, 256, 0x400_0000, flags);
  }

  lemma OneGigabyte(s: Space, v: nat, p: nat, n: nat, idx: nat, y: nat, flags: nat)
    requires LeafFlags(flags) && idx < 512 && !IsValid(Read(s.mem, s.root, idx))
    requires Pieces(v, p, n) == [Piece(2, v, v + n)] && VpnIndexRange(v, v + n, 2) == (idx, idx + 1)
    requires VpnIndex(y, 2) == idx && Offset(Shift(v, p, VpnLevelIndex(v, 2, idx)) % PPN_LIMIT, 2) == 0
    ensures flags < 256
    ensures var s' := AfterEntry(s, s.root, v, p, v, 2, idx, flags);
            && AllocateMap(s, v, p, n, flags) == MapRun(s', Ok, 1)
            && Walk(s'.mem, s'.root, y) ==
               Mapped(Shift(v, p, VpnLevelIndex(v, 2, idx)) % PPN_LIMIT + Offset(y, 2), WithV(flags))
  {
    hide Pieces, VpnIndexRange, VpnIndex, VpnLevelIndex, Shift, Has, IsValid, EntryPpn, EntryFlags, WithV, Write,
      Read, MappingEntry, Offset, WalkFrom, MapPieces, MapPiece, IsUsableLeaf;
    OneRange(s, v, p, Piece(2, v, v + n), flags);
    RootEntry(s, v, p, v, v + n, idx, flags);
    MappedLeaf(Shift(v, p, VpnLevelIndex(v, 2, idx)), flags);
    LeafTranslates(AfterEntry(s, s.root, v, p, v, 2, idx, flags).mem, s.root, 2, y);
  }

  lemma RootEntry(s: Space, v: nat, p: nat, lo: nat, hi: nat, idx: nat, flags: nat)
    requires flags < 256 && idx < 512 && !IsValid(Read(s.mem, s.root, idx))
    requires VpnIndexRange(lo, hi, 2) == (idx, idx + 1)
    ensures MapPiece(s, v, p, Piece(2, lo, hi), flags) == (AfterEntry(s, s.root, v, p, lo, 2, idx, flags), Ok)
  {
    hide VpnIndexRange, VpnLevelIndex, Shift, Write, Read, IsValid, WriteEntries, MappingEntry;
    WriteOneEntry(s.mem, s.root, v, p, lo, 2, idx, flags);
  }

  lemma OneRange(s: Space, v: nat, p: nat, pc: Piece, flags: nat)
    requires flags < 256 && pc.level <= 2
    ensures var (s', outcome) := MapPiece(s, v, p, pc, flags);
            MapPieces(s, v, p, [pc], flags) == MapRun(s', outcome, if outcome == Ok then 1 else 0)
  {
    hide MapPiece;
    MapPiecesUnfold(s, v, p, [pc], flags);
    assert [pc][1..] == [];
  }

  lemma LeafTranslates(mem: Memory, f: nat, l: nat, x: nat)
    requires l <= 2
    requires var w := Read(mem, f, VpnIndex(x, l)); IsUsableLeaf(w) && Offset(EntryPpn(w), l) == 0
    ensures var w := Read(mem, f, VpnIndex(x, l));
            WalkFrom(mem, f, l, x) == Mapped(EntryPpn(w) + Offset(x, l), EntryFlags(w))
  {
    hide VpnIndex, IsValid, IsLeaf, IsReserved, EntryPpn, EntryFlags, Read, Offset;
  }

  lemma UpperEntry(v: nat, p: nat)
    requires v == 0xF_FFFF_FC00_0000 && p == 0x4_0000
    ensures TableVpn(v) == 0x400_0000 && VpnIndex(0x400_0000, 2) == 256 && Offset(0x400_0000, 2) == 0
    ensures VpnIndexRange(v, v + 0x4_0000, 2) == (256, 257)
    ensures Shift(v, p, VpnLevelIndex(v, 2, 256)) % PPN_LIMIT == p + VPN_LIMIT
    ensures Offset(p + VPN_LIMIT, 2) == 0
  {
  }

  lemma WriteOneEntry(mem: Memory, f: nat, v: nat, p: nat, lo: nat, l: nat, idx: nat, flags: nat)
    requires l <= 2 && idx < 512 && flags < 256 && !IsValid(Read(mem, f, idx))
    ensures WriteEntries(mem, f, v, p, lo, l, idx, idx + 1, flags) ==
            (Write(mem, f, idx, MappingEntry(Shift(v, p, VpnLevelIndex(lo, l, idx)), flags)), true)
  {
  }

  lemma MappedLeaf(ppn: nat, flags: nat)
    requires LeafFlags(flags)
    ensures flags < 256
    ensures var w := MappingEntry(ppn, flags);
            IsUsableLeaf(w) && EntryPpn(w) == ppn % PPN_LIMIT && EntryFlags(w) == WithV(flags)
  {
    hide IsValid, IsLeaf, IsReserved, EntryPpn, EntryFlags, WithV, MappingEntry;
    MappingEntryIsLeaf(ppn, flags);
  }

  // ----- runs from the first space on -----

  /** The space created in zero memory. */
  function FirstSpace(): Space {
    Space(ClearFrame(map[], 16), FP.Pool(17, 32, []), 16, [])
  }

  lemma FirstSpaceIsCreated()
    ensures Create(map[], FP.Pool(16, 32, [])) == (FP.Pool(17, 32, []), Some(FirstSpace()))
    ensures forall f: nat, i: nat :: i < 512 ==> Read(FirstSpace().mem, f, i) == 0
  {
  }

  /** Which frame the pool hands out next, and what is left of it. */
  ghost predicate Gives(pool: FP.Pool, g: nat, pool': FP.Pool) {
    FP.Allocate(pool) == (pool', Some(g))
  }

  /** Builds the table one level below the table in frame `f`. */
  lemma FetchBuilds(s: Space, f: nat, l: nat, t: nat, x: nat, g: nat, pool': FP.Pool)
    requires t < l <= 2 && Gives(s.pool, g, pool') && Read(s.mem, f, VpnIndex(x, l)) == 0
    ensures GetTable(s, f, l, t, x) == GetTable(LinkTable(s, pool', f, VpnIndex(x, l), g), g, l - 1, t, x)
  {
    hide Read, VpnIndex, FP.Allocate, LinkTable;
    GetTableUnfold(s, f, l, t, x);
    ZeroWordIsInvalid();
  }

  /** Follows the pointer to the table in frame `g`. */
  lemma FetchFollows(s: Space, f: nat, l: nat, t: nat, x: nat, g: nat)
    requires t < l <= 2 && g < PPN_LIMIT && Read(s.mem, f, VpnIndex(x, l)) == ChildEntry(g)
    ensures GetTable(s, f, l, t, x) == GetTable(s, g, l - 1, t, x)
  {
    hide Read, VpnIndex, FP.Allocate, LinkTable, ChildEntry, IsValid, EntryPpn;
    GetTableUnfold(s, f, l, t, x);
    ChildEntryIsPointer(g);
  }

  /** The table fetched for a range that needs a single entry, which is zero. */
  lemma RangeOfOneEntry(s: Space, s1: Space, f: nat, v: nat, p: nat, pc: Piece, idx: nat, flags: nat)
    requires flags < 256 && pc.level <= 2 && idx < 512
    requires GetTable(s, s.root, 2, pc.level, pc.lo) == (s1, Some(f))
    requires VpnIndexRange(pc.lo, pc.hi, pc.level) == (idx, idx + 1) && Read(s1.mem, f, idx) == 0
    ensures MapPiece(s, v, p, pc, flags) == (AfterEntry(s1, f, v, p, pc.lo, pc.level, idx, flags), Ok)
  {
    hide Read, Write, VpnIndexRange, GetTable, Shift, VpnLevelIndex, MappingEntry, IsValid, WriteEntries;
    ZeroWordIsInvalid();
    assert !IsValid(Read(s1.mem, f, idx));
    WriteOneEntry(s1.mem, f, v, p, pc.lo, pc.level, idx, flags);
  }

  // ----- the last page of a request -----

  lemma Indices511()
    ensures VpnIndex(511, 2) == 0 && VpnIndex(511, 1) == 0 && VpnIndex(511, 0) == 511
    ensures VpnIndex(512, 2) == 0 && VpnIndex(512, 1) == 1
    ensures VpnIndexRange(511, 513, 0) == (511, 512) && VpnLevelIndex(511, 0, 511) == 511
    ensures Shift(511, 600, 511) == 600
  {
  }

  /** `v = 511, n = 2` in a new space: Ok, page 511 is mapped, page 512 is not. */
  lemma LastPageIsDropped(flags: nat)
    requires LeafFlags(flags)
    ensures flags < 256
    ensures var r := AllocateMap(FirstSpace(), 511, 600, 2, flags);
            && r.outcome == Ok
            && Walk(r.space.mem, r.space.root, 511) == Mapped(600, WithV(flags))
            && Walk(r.space.mem, r.space.root, 512) == Fault
  {
    hide Pieces, VpnIndexRange, VpnIndex, VpnLevelIndex, Shift, Wrap, Has, IsValid, WithV, Read, Write, Offset,
      ClearFrame, GetTable, MapPieces, MapPiece, FP.Allocate, EntryPpn, EntryFlags, MappingEntry, ChildEntry;
    var s := FirstSpace();
    FirstSpaceIsCreated();
    SmallPieces(511, 600, 2);
    Indices511();
    OneRange(s, 511, 600, Piece(0, 511, 513), flags);
    var s1 := LinkTable(s, FP.Pool(18, 32, []), 16, 0, 17);
    var s2 := LinkTable(s1, FP.Pool(19, 32, []), 17, 0, 18);
    PoolsInOrder();
    FetchBuilds(s, 16, 2, 0, 511, 17, FP.Pool(18, 32, []));
    FetchBuilds(s1, 17, 1, 0, 511, 18, FP.Pool(19, 32, []));
    assert GetTable(s2, 18, 0, 0, 511) == (s2, Some(18)) by { FetchEnds(s2, 18, 0, 511); }
    RangeOfOneEntry(s, s2, 18, 511, 600, Piece(0, 511, 513), 511, flags);
    var s3 := AfterEntry(s2, 18, 511, 600, 511, 0, 511, flags);
    MappedLeaf(600, flags);
    LeafLevelHasNoOffset(600);
    LeafLevelHasNoOffset(511);
    ThroughPointer(s3.mem, 16, 2, 511, 17);
    ThroughPointer(s3.mem, 17, 1, 511, 18);
    LeafTranslates(s3.mem, 18, 0, 511);
    ThroughPointer(s3.mem, 16, 2, 512, 17);
    ZeroWordIsInvalid();
    EmptyEntryFaults(s3.mem, 17, 1, 512);
  }

  lemma PoolsInOrder()
    ensures Gives(FP.Pool(17, 32, []), 17, FP.Pool(18, 32, [])) && Gives(FP.Pool(18, 32, []), 18, FP.Pool(19, 32, []))
    ensures Gives(FP.Pool(19, 32, [16, 17]), 17, FP.Pool(19, 32, [16]))
    ensures Gives(FP.Pool(19, 32, [16]), 16, FP.Pool(19, 32, []))
    ensures Gives(FP.Pool(19, 32, [16, 17, 18]), 18, FP.Pool(19, 32, [16, 17]))
  {
    assert [16, 17][..1] == [16];
    assert [16, 17, 18][..2] == [16, 17];
  }

  lemma LeafLevelHasNoOffset(x: nat)
    ensures Offset(x, 0) == 0
  {
  }

  lemma FetchEnds(s: Space, f: nat, l: nat, x: nat)
    requires l <= 2
    ensures GetTable(s, f, l, l, x) == (s, Some(f))
  {
  }

  lemma ThroughPointer(mem: Memory, f: nat, l: nat, x: nat, g: nat)
    requires 1 <= l <= 2 && g < PPN_LIMIT && Read(mem, f, VpnIndex(x, l)) == ChildEntry(g)
    ensures WalkFrom(mem, f, l, x) == WalkFrom(mem, g, l - 1, x)
  {
    hide Read, VpnIndex, ChildEntry, IsValid, IsLeaf, IsReserved, EntryPpn, EntryFlags, Offset;
    ChildEntryIsPointer(g);
  }

  // ----- tables that are not cleared -----

  lemma Indices513()
    ensures VpnIndex(0, 2) == 0 && VpnIndexRange(0, 512, 1) == (0, 1) && VpnLevelIndex(0, 1, 0) == 0
    ensures VpnIndex(512, 2) == 0 && VpnIndex(512, 1) == 1
    ensures VpnIndexRange(512, 513, 0) == (0, 1) && VpnLevelIndex(512, 0, 0) == 512
  {
  }

  lemma Shifts513()
    ensures Shift(0, 512, 0) == 512 && Shift(0, 512, 512) == 1024
  {
  }

  lemma RoundsTo(x: nat, y: nat, l: nat)
    requires l <= 2 && Offset(y, l) == 0
    ensures y <= x < y + Span(l) ==> RoundDown(x, l) == y
    ensures x <= y < x + Span(l) ==> RoundUp(x, l) == y
  {
    hide RoundUp, RoundDown;
    Roundings(x, l, y);
    Roundings(x, l, RoundDown(x, l));
    if y <= x < y + Span(l) { NearMultiples(y, RoundDown(x, l), l); }
    if x <= y < x + Span(l) { NearMultiples(RoundUp(x, l), y, l); }
  }

  lemma NearMultiples(a: nat, b: nat, l: nat)
    requires l <= 2 && Offset(a, l) == 0 && Offset(b, l) == 0 && a <= b < a + Span(l)
    ensures a == b
  {
  }

  lemma BlockAndPage(p: nat, n: nat)
    requires (p == 512 && n == 513) || (p == 0x10_0000 && n == 512)
    ensures TopLevel(0, p, n) == 1
  {
  }

  lemma Pieces513()
    ensures Pieces(0, 512, 513) == [Piece(1, 0, 512), Piece(0, 512, 513)]
    ensures Pieces(0, 0x10_0000, 512) == [Piece(1, 0, 512)]
  {
    hide RoundUp, RoundDown, TopLevel;
    assert Offset(0, 1) == 0 && Offset(512, 1) == 0;
    RoundsTo(0, 0, 0);
    RoundsTo(0, 0, 1);
    RoundsTo(512, 512, 0);
    RoundsTo(512, 512, 1);
    RoundsTo(513, 513, 0);
    RoundsTo(513, 512, 1);
    BlockAndPage(512, 513);
    BlockAndPage(0x10_0000, 512);
    assert Below(0, 513, 0) == [Piece(0, 512, 513)];
    assert Below(0, 512, 0) == [];
  }

  /** A space maps one 2M block and one page, and owns frames 16, 17 and 18. */
  lemma FirstLife(flags: nat)
    requires LeafFlags(flags)
    ensures flags < 256
    ensures var r := AllocateMap(FirstSpace(), 0, 512, 513, flags);
            && r.outcome == Ok
            && r.space.root == 16 && r.space.frames == [17, 18] && r.space.pool == FP.Pool(19, 32, [])
            && Read(r.space.mem, 17, 0) == MappingEntry(512, flags)
            && Read(r.space.mem, 17, 2) == 0 && Read(r.space.mem, 16, 1) == 0
  {
    hide Pieces, VpnIndexRange, VpnIndex, VpnLevelIndex, Shift, Wrap, Has, IsValid, WithV, Read, Write, Offset,
      ClearFrame, GetTable, MapPieces, MapPiece, FP.Allocate, MappingEntry, ChildEntry;
    FirstSpaceIsCreated();
    PoolsInOrder();
    Indices513();
    Shifts513();
    Pieces513();
    var s := FirstSpace();
    var s1 := LinkTable(s, FP.Pool(18, 32, []), 16, 0, 17);
    FetchBuilds(s, 16, 2, 1, 0, 17, FP.Pool(18, 32, []));
    FetchEnds(s1, 17, 1, 0);
    RangeOfOneEntry(s, s1, 17, 0, 512, Piece(1, 0, 512), 0, flags);
    var s2 := AfterEntry(s1, 17, 0, 512, 0, 1, 0, flags);
    FetchFollows(s2, 16, 2, 0, 512, 17);
    FetchBuilds(s2, 17, 1, 0, 512, 18, FP.Pool(19, 32, []));
    var s3 := LinkTable(s2, FP.Pool(19, 32, []), 17, 1, 18);
    FetchEnds(s3, 18, 0, 512);
    RangeOfOneEntry(s2, s3, 18, 0, 512, Piece(0, 512, 513), 0, flags);
    TwoRanges(s, 0, 512, Piece(1, 0, 512), Piece(0, 512, 513), flags);
  }

  lemma TwoRanges(s: Space, v: nat, p: nat, a: Piece, b: Piece, flags: nat)
    requires flags < 256 && a.level <= 2 && b.level <= 2 && MapPiece(s, v, p, a, flags).1 == Ok
    ensures var (s', outcome) := MapPiece(MapPiece(s, v, p, a, flags).0, v, p, b, flags);
            MapPieces(s, v, p, [a, b], flags) == MapRun(s', outcome, if outcome == Ok then 2 else 1)
  {
    hide MapPiece;
    MapPiecesUnfold(s, v, p, [a, b], flags);
    assert [a, b][1..] == [b];
    OneRange(MapPiece(s, v, p, a, flags).0, v, p, b, flags);
  }

  lemma Indices0x40401()
    ensures VpnIndex(0x4_0401, 2) == 1 && VpnIndex(0x4_0401, 1) == 2
    ensures VpnIndexRange(0x4_0401, 0x4_0402, 0) == (1, 2)
    ensures VpnIndex(0x4_0000, 2) == 1 && VpnIndex(0x4_0000, 1) == 0 && Offset(0x4_0000, 1) == 0
    ensures Offset(512, 1) == 0
  {
  }

  /** Its frames become the tables of the next space: the one that maps page
      0x40401 there gets frame 17 as level-1 table, whose old 2M leaf is still in
      entry 0. So the hardware translates page 0x40000, which nobody mapped. */
  lemma SecondLifeTranslatesUnmappedPage(flags: nat)
    requires LeafFlags(flags)
    ensures flags < 256
    ensures var first := AllocateMap(FirstSpace(), 0, 512, 513, flags).space;
            && Drop(first) == Some(FP.Pool(19, 32, [16, 17, 18]))
            && var (pool', second) := Create(first.mem, FP.Pool(19, 32, [16, 17, 18]));
            && second.Some?
            && var r := AllocateMap(second.value, 0x4_0401, 7, 1, flags);
            && r.outcome == Ok
            && Walk(r.space.mem, r.space.root, 0x4_0000) == Mapped(512, WithV(flags))
  {
    hide Pieces, VpnIndexRange, VpnIndex, VpnLevelIndex, Shift, Has, IsValid, WithV, Read, Write, Offset, ClearFrame,
      AllocateMap, FP.Allocate, MappingEntry, ChildEntry, EntryPpn, EntryFlags, FirstSpace;
    FirstLife(flags);
    PoolsInOrder();
    var first := AllocateMap(FirstSpace(), 0, 512, 513, flags).space;
    DropsInOrder(first);
    var second := Space(ClearFrame(first.mem, 18), FP.Pool(19, 32, [16, 17]), 18, []);
    assert Create(first.mem, FP.Pool(19, 32, [16, 17, 18])) == (FP.Pool(19, 32, [16, 17]), Some(second));
    SecondMapping(second, flags);
  }

  lemma DropsInOrder(s: Space)
    requires s.root == 16 && s.frames == [17, 18] && s.pool == FP.Pool(19, 32, [])
    ensures Drop(s) == Some(FP.Pool(19, 32, [16, 17, 18]))
  {
    var owned := Owned(s);
    assert owned == [16, 17, 18] && owned[1..] == [17, 18] && owned[1..][1..] == [18] && owned[1..][1..][1..] == [];
    assert [16, 17] + [18] == [16, 17, 18] && [16] + [17] == [16, 17] && [] + [16] == [16];
    assert FreeAll(FP.Pool(19, 32, [16, 17, 18]), []) == Some(FP.Pool(19, 32, [16, 17, 18]));
    assert FreeAll(FP.Pool(19, 32, [16, 17]), [18]) == Some(FP.Pool(19, 32, [16, 17, 18]));
    assert FreeAll(FP.Pool(19, 32, [16]), [17, 18]) == Some(FP.Pool(19, 32, [16, 17, 18]));
  }

  lemma SecondMapping(s: Space, flags: nat)
    requires LeafFlags(flags) && s.root == 18 && s.pool == FP.Pool(19, 32, [16, 17])
    requires forall i: nat :: i < 512 ==> Read(s.mem, 18, i) == 0
    requires flags < 256
    requires Read(s.mem, 17, 0) == MappingEntry(512, flags) && Read(s.mem, 17, 2) == 0 && Read(s.mem, 16, 1) == 0
    ensures var r := AllocateMap(s, 0x4_0401, 7, 1, flags);
            && r.outcome == Ok
            && Walk(r.space.mem, r.space.root, 0x4_0000) == Mapped(512, WithV(flags))
  {
    hide Pieces, VpnIndexRange, VpnIndex, VpnLevelIndex, Shift, Wrap, Has, IsValid, WithV, Read, Write, Offset,
      ClearFrame, GetTable, MapPieces, MapPiece, FP.Allocate, ChildEntry, EntryPpn, EntryFlags, MappingEntry;
    var v := 0x4_0401;
    PoolsInOrder();
    Indices0x40401();
    SmallPieces(v, 7, 1);
    var s1 := LinkTable(s, FP.Pool(19, 32, [16]), 18, 1, 17);
    var s2 := LinkTable(s1, FP.Pool(19, 32, []), 17, 2, 16);
    FetchBuilds(s, 18, 2, 0, v, 17, FP.Pool(19, 32, [16]));
    FetchBuilds(s1, 17, 1, 0, v, 16, FP.Pool(19, 32, []));
    FetchEnds(s2, 16, 0, v);
    RangeOfOneEntry(s, s2, 16, v, 7, Piece(0, v, v + 1), 1, flags);
    OneRange(s, v, 7, Piece(0, v, v + 1), flags);
    var s3 := AfterEntry(s2, 16, v, 7, v, 0, 1, flags);
    ThroughPointer(s3.mem, 18, 2, 0x4_0000, 17);
    MappedLeaf(512, flags);
    LeafTranslates(s3.mem, 17, 1, 0x4_0000);
  }

  // ----- a request below a leaf -----

  lemma IndicesOfBlock0()
    ensures VpnIndexRange(0, 0x4_0000, 2) == (0, 1) && VpnIndex(0, 2) == 0 && Offset(0, 2) == 0
    ensures VpnIndexRange(0, 512, 1) == (0, 1)
    ensures VpnLevelIndex(0, 2, 0) == 0 && Offset(0x4_0000, 2) == 0
  {
  }

  lemma ShiftOfBlock0()
    ensures Shift(0, 0x4_0000, 0) == 0x4_0000
  {
  }

  /** A 2M request below a 1G leaf: both are reported Ok, page 0 stays where the
      leaf sends it. */
  lemma SecondRequestIsLost(flags: nat)
    requires LeafFlags(flags)
    ensures flags < 256
    ensures var r := AllocateMap(FirstSpace(), 0, 0x4_0000, 0x4_0000, flags);
            && r.outcome == Ok
            && var r2 := AllocateMap(r.space, 0, 0x10_0000, 512, flags);
            && r2.outcome == Ok
            && Walk(r.space.mem, r.space.root, 0) == Walk(r2.space.mem, r2.space.root, 0)
               == Mapped(0x4_0000, WithV(flags))
  {
    hide Pieces, VpnIndexRange, VpnIndex, VpnLevelIndex, Shift, Wrap, Has, IsValid, WithV, Read, Write, Offset,
      ClearFrame, GetTable, MapPieces, MapPiece, FP.Allocate, MappingEntry, ChildEntry, EntryPpn, EntryFlags, Walk,
      AllocateMap;
    FirstSpaceIsCreated();
    IndicesOfBlock0();
    ShiftOfBlock0();
    GigabytePieces(0, 0x4_0000, 0x4_0000);
    ZeroWordIsInvalid();
    OneGigabyte(FirstSpace(), 0, 0x4_0000, 0x4_0000, 0, 0, flags);
    MappedLeaf(0x4_0000, flags);
    var s := AllocateMap(FirstSpace(), 0, 0x4_0000, 0x4_0000, flags).space;
    RequestIntoData(s, flags);
  }

  lemma RequestIntoData(s: Space, flags: nat)
    requires flags < 256 && s.root == 16
    requires IsUsableLeaf(Read(s.mem, 16, 0)) && EntryPpn(Read(s.mem, 16, 0)) == 0x4_0000
    requires Read(s.mem, 0x4_0000, 0) == 0
    ensures var r := AllocateMap(s, 0, 0x10_0000, 512, flags);
            r.outcome == Ok && Walk(r.space.mem, r.space.root, 0) == Walk(s.mem, s.root, 0)
  {
    hide Pieces, VpnIndexRange, VpnIndex, VpnLevelIndex, Shift, Wrap, Has, IsValid, Read, Write, Offset, GetTable,
      MapPieces, MapPiece, FP.Allocate, MappingEntry, EntryPpn, EntryFlags;
    IndicesOfBlock0();
    Pieces513();
    GetTableUnfold(s, 16, 2, 1, 0);
    FetchEnds(s, 0x4_0000, 1, 0);
    RangeOfOneEntry(s, s, 0x4_0000, 0, 0x10_0000, Piece(1, 0, 512), 0, flags);
    OneRange(s, 0, 0x10_0000, Piece(1, 0, 512), flags);
  }

  // ----- a stray frame -----

  lemma FirstSpaceIsGood()
    ensures Good(16, {}, FirstSpace())
    ensures forall y: nat :: y < VPN_LIMIT ==> Walk(FirstSpace().mem, FirstSpace().root, y) == Fault
  {
    hide Good, Walk, ClearFrame, FP.PoolInv, FP.Allocate;
    FP.NewPoolInv(16, 32);
    assert FramesFit(16, 32) by { PoolFits(); }
    FirstSpaceIsCreated();
    CreateIsGood(16, {}, map[], FP.Pool(16, 32, []));
  }

  lemma PoolFits()
    ensures FramesFit(16, 32)
  {
  }

  lemma BlockMappedIsGood(flags: nat)
    requires LeafFlags(flags)
    ensures flags < 256
    ensures Good(16, {}, AllocateMap(FirstSpace(), 0, 0x4_0000, 0x4_0000, flags).space)
  {
    assert flags < 256;
    hide Good, Walk, AllocateMap, Pieces, LeafFlags, FirstSpace, Mappable, TableVpn, AllUnblocked;
    FirstSpaceIsGood();
    UntranslatedIsUnblocked(16, {}, FirstSpace(), 0, 0x4_0000, 0x4_0000);
    UnblockedIsMappable(16, {}, FirstSpace(), 0, 0x4_0000, 0x4_0000, flags);
    AllocateMapIsCorrect(16, {}, FirstSpace(), 0, 0x4_0000, 0x4_0000, flags);
  }

  lemma IndicesOfPage0()
    ensures VpnIndex(0, 2) == 0 && VpnIndex(0, 1) == 0 && VpnIndexRange(0, 1, 0) == (0, 1)
  {
  }

  /** A request for one page below a 1G leaf: Ok, frame 17 is taken and linked into the
      mapped data, and from then on the owned frames are not the tables of a tree. */
  lemma StrayFrameIsTaken(flags: nat)
    requires LeafFlags(flags)
    ensures flags < 256
    ensures var s := AllocateMap(FirstSpace(), 0, 0x4_0000, 0x4_0000, flags).space;
            var r := AllocateMap(s, 0, 0x10_0000, 1, flags);
            && r.outcome == Ok && r.space.frames == [17]
            && forall start, others :: !Good(start, others, r.space)
  {
    hide Pieces, VpnIndexRange, VpnIndex, VpnLevelIndex, Shift, Wrap, Has, IsValid, WithV, Read, Write, Offset,
      ClearFrame, GetTable, MapPieces, MapPiece, FP.Allocate, MappingEntry, EntryPpn, EntryFlags, Walk, AllocateMap,
      Good;
    FirstSpaceIsCreated();
    IndicesOfBlock0();
    ShiftOfBlock0();
    GigabytePieces(0, 0x4_0000, 0x4_0000);
    ZeroWordIsInvalid();
    OneGigabyte(FirstSpace(), 0, 0x4_0000, 0x4_0000, 0, 0, flags);
    MappedLeaf(0x4_0000, flags);
    BlockMappedIsGood(flags);
    PageIntoData(AllocateMap(FirstSpace(), 0, 0x4_0000, 0x4_0000, flags).space, flags);
  }

  lemma PageIntoData(s: Space, flags: nat)
    requires flags < 256 && s.root == 16 && s.frames == [] && s.pool == FP.Pool(17, 32, []) && Good(16, {}, s)
    requires IsUsableLeaf(Read(s.mem, 16, 0)) && EntryPpn(Read(s.mem, 16, 0)) == 0x4_0000
    requires Read(s.mem, 0x4_0000, 0) == 0 && Read(s.mem, 17, 0) == 0
    ensures var r := AllocateMap(s, 0, 0x10_0000, 1, flags);
            && r.outcome == Ok && r.space.frames == [17]
            && forall start, others :: !Good(start, others, r.space)
  {
    hide Pieces, VpnIndexRange, VpnIndex, VpnLevelIndex, Shift, Wrap, Has, IsValid, Read, Write, Offset, Page,
      GetTable, MapPieces, MapPiece, FP.Allocate, MappingEntry, EntryPpn, EntryFlags, ChildEntry, Good;
    IndicesOfPage0();
    PoolsInOrder();
    SmallPieces(0, 0x10_0000, 1);
    var d := 0x4_0000;
    GetTableUnfold(s, 16, 2, 0, 0);
    FetchBuilds(s, d, 1, 0, 0, 17, FP.Pool(18, 32, []));
    var s1 := LinkTable(s, FP.Pool(18, 32, []), d, 0, 17);
    FetchEnds(s1, 17, 0, 0);
    RangeOfOneEntry(s, s1, 17, 0, 0x10_0000, Piece(0, 0, 1), 0, flags);
    OneRange(s, 0, 0x10_0000, Piece(0, 0, 1), flags);
    var s2 := AfterEntry(s1, 17, 0, 0x10_0000, 0, 0, 0, flags);
    assert Owned(s) == [16];
    assert forall h :: h in Tables(s) ==> h == 16;
    assert Page(s2.mem, 16) == Page(s.mem, 16);
    StrayFrameBreaksTree(16, {}, s, s2, 17);
  }
}
