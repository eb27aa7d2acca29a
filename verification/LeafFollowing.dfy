/** `alloc_get_table` looks at bit V alone, so below an existing leaf it goes on
    into the mapped data: what a request then does, and when that is harmless. */
module LeafFollowing {
  import opened Words
  import opened Sv39
  import opened MapSolver
  import opened LostPages
  import opened PageTree
  import opened AddressSpace
  import opened MapTheorems
  import FP = FramePool

  /** Frames read as tables from level `l` down to level `t`. */
  function Entered(mem: Memory, f: nat, l: nat, t: nat, x: nat): set<nat>
    requires l <= 2
    decreases l
  {
    var w := Read(mem, f, VpnIndex(x, l));
    {f} + if l > t && IsValid(w) then Entered(mem, EntryPpn(w), l - 1, t, x) else {}
  }

  /** Those of them that are entered through a leaf. */
  function EnteredByLeaf(mem: Memory, f: nat, l: nat, t: nat, x: nat): set<nat>
    requires l <= 2
    decreases l
  {
    var w := Read(mem, f, VpnIndex(x, l));
    if l <= t || !IsValid(w) then {}
    else if IsLeaf(w) then Entered(mem, EntryPpn(w), l - 1, t, x)
    else EnteredByLeaf(mem, EntryPpn(w), l - 1, t, x)
  }

  /** Frame `h` is as before and is not the table that was found. */
  ghost predicate LeftAlone(s: Space, s': Space, r: Option<nat>, h: nat) {
    Page(s'.mem, h) == Page(s.mem, h) && r != Some(h)
  }

  /** Below a leaf the fetch writes and returns only frames it entered there or
      took from the pool. */
  lemma {:induction false} FetchBelowLeaf(s: Space, f: nat, l: nat, t: nat, x: nat, h: nat)
    requires t <= l <= 1 && h !in Entered(s.mem, f, l, t, x) && !FP.IsFree(s.pool, h)
    ensures var (s', r) := GetTable(s, f, l, t, x);
            LeftAlone(s, s', r, h) && s'.root == s.root
  {
    if t < l {
      GetTableUnfold(s, f, l, t, x);
      AllocatedIsFree(s.pool);
      hide Page, VpnIndex, IsValid, EntryPpn, ChildEntry, FP.Allocate, FP.IsFree;
    }
  }

  lemma AllocatedIsFree(pool: FP.Pool)
    ensures var r := FP.Allocate(pool).1; r.Some? ==> FP.IsFree(pool, r.value)
  {
  }

  lemma {:induction false} FetchThroughLeaf(s: Space, f: nat, l: nat, t: nat, x: nat, h: nat)
    requires t <= l <= 2 && LeafAbove(s.mem, f, l, t, x)
    requires h !in EnteredByLeaf(s.mem, f, l, t, x) && !FP.IsFree(s.pool, h)
    ensures var (s', r) := GetTable(s, f, l, t, x);
            LeftAlone(s, s', r, h) && s'.root == s.root
    decreases l
  {
    var w := Read(s.mem, f, VpnIndex(x, l));
    GetTableUnfold(s, f, l, t, x);
    hide Page, VpnIndex, IsValid, IsLeaf, EntryPpn, GetTable, FP.Allocate, FP.IsFree, LeftAlone;
    if IsLeaf(w) {
      FetchBelowLeaf(s, EntryPpn(w), l - 1, t, x, h);
    } else {
      FetchThroughLeaf(s, EntryPpn(w), l - 1, t, x, h);
    }
  }

  lemma {:induction false} WriteEntriesTouchesOneFrame(mem: Memory, f: nat, v: nat, p: nat, lo: nat, l: nat,
                                                       idx: nat, end: nat, flags: nat, g: nat)
    requires l <= 2 && end <= 512 && flags < 256 && g != f
    ensures Page(WriteEntries(mem, f, v, p, lo, l, idx, end, flags).0, g) == Page(mem, g)
    decreases end - idx
  {
    hide Page, Shift, VpnLevelIndex, MappingEntry, IsValid;
    if idx < end && !IsValid(Read(mem, f, idx)) {
      var mem1 := Write(mem, f, idx, MappingEntry(Shift(v, p, VpnLevelIndex(lo, l, idx)), flags));
      WriteEntriesTouchesOneFrame(mem1, f, v, p, lo, l, idx + 1, end, flags, g);
    }
  }

  /** The walk reads the tables of the tree and nothing else. */
  lemma {:induction false} WalkReadsTables(mem: Memory, mem': Memory, root: nat, tree: Tree, l: nat, x: nat)
    requires TreeInv(mem, root, tree) && l <= 2 && NodeOf(x, l) in tree
    requires forall nd :: nd in tree ==> Page(mem', tree[nd]) == Page(mem, tree[nd])
    ensures WalkFrom(mem', tree[NodeOf(x, l)], l, x) == WalkFrom(mem, tree[NodeOf(x, l)], l, x)
    decreases l
  {
    var w := Read(mem, tree[NodeOf(x, l)], VpnIndex(x, l));
    assert Read(mem', tree[NodeOf(x, l)], VpnIndex(x, l)) == w;
    PointerLeadsToChild(mem, root, tree, l, x);
    hide Key, Read, Page, Offset, IsValid, IsLeaf, IsReserved, EntryPpn, EntryFlags, TreeInv, NodeOf, VpnIndex;
    if l >= 1 && NodeOf(x, l - 1) in tree {
      WalkReadsTables(mem, mem', root, tree, l - 1, x);
    }
  }

  lemma LevelIsLow(s: Space, pc: Piece)
    requires pc.level <= 2 && !Unblocked(s, pc)
    ensures pc.level <= 1
  {
  }

  /** Frame `h` keeps its contents when a range below a leaf is handled. */
  lemma FrameOutsideData(s: Space, v: nat, p: nat, pc: Piece, flags: nat, h: nat)
    requires flags < 256 && pc.level <= 2 && !Unblocked(s, pc)
    requires h !in EnteredByLeaf(s.mem, s.root, 2, pc.level, TableVpn(pc.lo)) && !FP.IsFree(s.pool, h)
    ensures Page(MapPiece(s, v, p, pc, flags).0.mem, h) == Page(s.mem, h)
    ensures MapPiece(s, v, p, pc, flags).0.root == s.root
  {
    var l := pc.level;
    var (i, e) := VpnIndexRange(pc.lo, pc.hi, l);
    hide Page, VpnIndexRange, GetTable, WriteEntries, LeafAbove, TableVpn, EnteredByLeaf, FP.IsFree;
    GetTableLowBits(s, s.root, 2, l, pc.lo);
    FetchThroughLeaf(s, s.root, 2, l, TableVpn(pc.lo), h);
    var (s1, table) := GetTable(s, s.root, 2, l, pc.lo);
    if table.Some? {
      WriteEntriesTouchesOneFrame(s1.mem, table.value, v, p, pc.lo, l, i, e, flags, h);
    }
  }

  /** A request for 2M or 4K entries below a leaf changes no translation at all, as
      long as the data frames it enters are not the tables of the space themselves:
      whatever it writes goes into data. Every page it was to map is translated
      already. */
  lemma RequestBelowLeafHasNoEffect(start: nat, others: set<nat>, s: Space, v: nat, p: nat, pc: Piece, flags: nat)
    requires Good(start, others, s) && flags < 256 && pc.level <= 2 && !Unblocked(s, pc)
    requires EnteredByLeaf(s.mem, s.root, 2, pc.level, TableVpn(pc.lo)) !! Tables(s)
    ensures SameWalk(s, MapPiece(s, v, p, pc, flags).0)
    ensures forall y: nat :: y < VPN_LIMIT && Writes(pc, y) ==> Walk(s.mem, s.root, y) != Fault
  {
    hide Page, Walk, MapPiece, LeafAbove, EnteredByLeaf, TreeInv, TableVpn, WalkFrom, Writes;
    var s' := MapPiece(s, v, p, pc, flags).0;
    var tree :| SpaceInv(start, others, s, tree);
    forall h | h in Tables(s)
      ensures Page(s'.mem, h) == Page(s.mem, h) && s'.root == s.root
    {
      assert h in others + Tables(s);
      FrameOutsideData(s, v, p, pc, flags, h);
    }
    assert s.root in Owned(s);
    assert s.root in Tables(s);
    assert forall nd :: nd in tree ==> tree[nd] in tree.Values;
    hide SpaceInv, Tables, Owned;
    assert TreeInv(s.mem, s.root, tree) && TOP in tree && tree[TOP] == s.root by { InvParts(start, others, s, tree); }
    forall y: nat | y < VPN_LIMIT
      ensures Walk(s'.mem, s'.root, y) == Walk(s.mem, s.root, y)
    {
      SameTablesSameWalk(s.mem, s'.mem, s.root, tree, y);
    }
    forall y: nat | y < VPN_LIMIT && Writes(pc, y)
      ensures Walk(s.mem, s.root, y) != Fault
    {
      BlockedIsTranslated(s, tree, pc, y);
    }
  }

  lemma SameTablesSameWalk(mem: Memory, mem': Memory, root: nat, tree: Tree, y: nat)
    requires TreeInv(mem, root, tree) && y < VPN_LIMIT
    requires forall nd :: nd in tree ==> Page(mem', tree[nd]) == Page(mem, tree[nd])
    ensures Walk(mem', root, y) == Walk(mem, root, y)
  {
    TopIsRoot(mem, root, tree, y);
    WalkReadsTables(mem, mem', root, tree, 2, y);
  }

  /** The leaf above the range translates all pages that share the range's table. */
  lemma BlockedIsTranslated(s: Space, tree: Tree, pc: Piece, y: nat)
    requires TreeInv(s.mem, s.root, tree) && pc.level <= 2 && !Unblocked(s, pc)
    requires y < VPN_LIMIT && Writes(pc, y)
    ensures Walk(s.mem, s.root, y) != Fault
  {
    hide TreeInv, TableVpn, Walk, LeafAbove, VpnIndexRange;
    LevelIsLow(s, pc);
    var x := TableVpn(pc.lo);
    assert NodeOf(y, pc.level) == NodeOf(x, pc.level);
    SamePathAbove(pc.level, x, y);
    SameLeafAbove(s.mem, s.root, 2, pc.level, x, y);
    LeafAboveIff(s.mem, s.root, tree, pc.level, y);
  }

  lemma SamePathAbove(t: nat, x: nat, y: nat)
    requires t <= 1 && Key(x, t + 1) == Key(y, t + 1)
    ensures forall l: nat :: t < l <= 2 ==> VpnIndex(x, l) == VpnIndex(y, l)
  {
    if t == 0 {
      DoubleDivide(x);
      DoubleDivide(y);
    }
  }

  lemma {:induction false} SameLeafAbove(mem: Memory, f: nat, l: nat, t: nat, x: nat, y: nat)
    requires l <= 2 && forall m: nat :: t < m <= 2 ==> VpnIndex(x, m) == VpnIndex(y, m)
    ensures LeafAbove(mem, f, l, t, x) <==> LeafAbove(mem, f, l, t, y)
    decreases l
  {
    hide VpnIndex, IsValid, IsLeaf, EntryPpn, Read;
    if t < l {
      SameLeafAbove(mem, EntryPpn(Read(mem, f, VpnIndex(x, l))), l - 1, t, x, y);
    }
  }

  // ----- existing translations -----

  /** Valid words are not touched. */
  ghost predicate KeepsValid(mem: Memory, mem': Memory) {
    forall f: nat, i: nat :: i < 512 && IsValid(Read(mem, f, i)) ==> Read(mem', f, i) == Read(mem, f, i)
  }

  lemma {:induction false} MappedSurvives(mem: Memory, mem': Memory, f: nat, l: nat, x: nat)
    requires KeepsValid(mem, mem') && l <= 2 && WalkFrom(mem, f, l, x).Mapped?
    ensures WalkFrom(mem', f, l, x) == WalkFrom(mem, f, l, x)
    decreases l
  {
    var w := Read(mem, f, VpnIndex(x, l));
    assert Read(mem', f, VpnIndex(x, l)) == w;
    hide IsValid, IsLeaf, IsReserved, EntryPpn, EntryFlags, Read, VpnIndex, Offset, KeepsValid;
    if l > 0 && !IsLeaf(w) {
      MappedSurvives(mem, mem', EntryPpn(w), l - 1, x);
    }
  }

  lemma WriteKeepsValid(mem: Memory, f: nat, i: nat, w: nat)
    requires i < 512 && !IsValid(Read(mem, f, i))
    ensures KeepsValid(mem, Write(mem, f, i, w))
  {
    hide IsValid, Read, Write;
  }

  lemma KeepsValidJoins(mem: Memory, mem1: Memory, mem2: Memory)
    requires KeepsValid(mem, mem1) && KeepsValid(mem1, mem2)
    ensures KeepsValid(mem, mem2)
  {
    hide IsValid, Read;
  }

  lemma {:induction false} GetTableKeepsValid(s: Space, f: nat, l: nat, t: nat, x: nat)
    requires t <= l <= 2
    ensures KeepsValid(s.mem, GetTable(s, f, l, t, x).0.mem) && GetTable(s, f, l, t, x).0.root == s.root
    decreases l
  {
    if l > t {
      hide VpnIndex, IsValid, EntryPpn, Read, Write, ChildEntry, FP.Allocate, GetTable, KeepsValid;
      GetTableUnfold(s, f, l, t, x);
      var i := VpnIndex(x, l);
      if IsValid(Read(s.mem, f, i)) {
        GetTableKeepsValid(s, EntryPpn(Read(s.mem, f, i)), l - 1, t, x);
      } else {
        KeepsItself(s.mem);
        var (pool', r) := FP.Allocate(s.pool);
        if r.Some? {
          var s1 := LinkTable(s, pool', f, i, r.value);
          WriteKeepsValid(s.mem, f, i, ChildEntry(r.value));
          GetTableKeepsValid(s1, r.value, l - 1, t, x);
          KeepsValidJoins(s.mem, s1.mem, GetTable(s1, r.value, l - 1, t, x).0.mem);
        }
      }
    }
  }

  lemma KeepsItself(mem: Memory)
    ensures KeepsValid(mem, mem)
  {
  }

  lemma {:induction false} WriteEntriesKeepsValid(mem: Memory, f: nat, v: nat, p: nat, lo: nat, l: nat, idx: nat,
                                                  end: nat, flags: nat)
    requires l <= 2 && end <= 512 && flags < 256
    ensures KeepsValid(mem, WriteEntries(mem, f, v, p, lo, l, idx, end, flags).0)
    decreases end - idx
  {
    hide Shift, VpnLevelIndex, MappingEntry, IsValid, Read, Write, KeepsValid;
    KeepsItself(mem);
    if idx < end && !IsValid(Read(mem, f, idx)) {
      var mem1 := Write(mem, f, idx, MappingEntry(Shift(v, p, VpnLevelIndex(lo, l, idx)), flags));
      WriteKeepsValid(mem, f, idx, MappingEntry(Shift(v, p, VpnLevelIndex(lo, l, idx)), flags));
      WriteEntriesKeepsValid(mem1, f, v, p, lo, l, idx + 1, end, flags);
      KeepsValidJoins(mem, mem1, WriteEntries(mem1, f, v, p, lo, l, idx + 1, end, flags).0);
    }
  }

  lemma MapPieceKeepsValid(s: Space, v: nat, p: nat, pc: Piece, flags: nat)
    requires flags < 256 && pc.level <= 2
    ensures KeepsValid(s.mem, MapPiece(s, v, p, pc, flags).0.mem) && MapPiece(s, v, p, pc, flags).0.root == s.root
  {
    hide KeepsValid, GetTable, WriteEntries, VpnIndexRange;
    GetTableKeepsValid(s, s.root, 2, pc.level, pc.lo);
    var (s1, table) := GetTable(s, s.root, 2, pc.level, pc.lo);
    if table.Some? {
      var (i, e) := VpnIndexRange(pc.lo, pc.hi, pc.level);
      WriteEntriesKeepsValid(s1.mem, table.value, v, p, pc.lo, pc.level, i, e, flags);
      KeepsValidJoins(s.mem, s1.mem, WriteEntries(s1.mem, table.value, v, p, pc.lo, pc.level, i, e, flags).0);
    }
  }

  lemma {:induction false} MapPiecesKeepsValid(s: Space, v: nat, p: nat, ps: seq<Piece>, flags: nat)
    requires flags < 256 && forall pc :: pc in ps ==> pc.level <= 2
    ensures KeepsValid(s.mem, MapPieces(s, v, p, ps, flags).space.mem)
    ensures MapPieces(s, v, p, ps, flags).space.root == s.root
    decreases |ps|
  {
    hide KeepsValid, MapPiece, MapPieces;
    if ps == [] {
      KeepsItself(s.mem);
      assert MapPieces(s, v, p, ps, flags).space == s by { MapNothing(s, v, p, flags); }
    } else {
      MapPiecesUnfold(s, v, p, ps, flags);
      MapPieceKeepsValid(s, v, p, ps[0], flags);
      var s1 := MapPiece(s, v, p, ps[0], flags).0;
      MapPiecesKeepsValid(s1, v, p, ps[1..], flags);
      KeepsValidJoins(s.mem, s1.mem, MapPieces(s1, v, p, ps[1..], flags).space.mem);
    }
  }

  lemma MapNothing(s: Space, v: nat, p: nat, flags: nat)
    requires flags < 256
    ensures MapPieces(s, v, p, [], flags).space == s
  {
  }

  /** No request ever changes an existing translation: in any space over any memory,
      for any request and however it ends, a panic included. */
  lemma TranslationsSurvive(s: Space, v: nat, p: nat, n: nat, flags: nat, y: nat)
    requires flags < 256 && Walk(s.mem, s.root, y).Mapped?
    ensures var s' := AllocateMap(s, v, p, n, flags).space;
            Walk(s'.mem, s'.root, y) == Walk(s.mem, s.root, y)
  {
    hide KeepsValid, MapPieces, Pieces, WalkFrom;
    SplitIsExactTiling(v, p, n);
    MapPiecesKeepsValid(s, v, p, Pieces(v, p, n), flags);
    MappedSurvives(s.mem, AllocateMap(s, v, p, n, flags).space.mem, s.root, 2, y);
  }

  /** So a range reported Ok is mapped as computed if and only if no leaf was in the
      way or the leaf already translated its pages that way. */
  lemma OkMapsRangeIff(start: nat, others: set<nat>, s: Space, v: nat, p: nat, pc: Piece, flags: nat)
    requires Good(start, others, s) && PieceOk(v, p, pc) && LeafFlags(flags) && pc.level <= 2
    requires flags < 256 && MapPiece(s, v, p, pc, flags).1 == Ok
    ensures MappedAsComputed(MapPiece(s, v, p, pc, flags).0, v, p, flags, pc) <==>
            Unblocked(s, pc) || MappedAsComputed(s, v, p, flags, pc)
  {
    hide SpaceInv, MapPiece, Unblocked, WalkFrom, TableVpn, Tables, Writes, Intended, CodeVpn, LeafFlags, PieceOk,
      TargetsFree, PoolExhausted, GrowsFrom, KeepsValid, PartOverlay, TreeInv;
    var tree :| SpaceInv(start, others, s, tree);
    if Unblocked(s, pc) {
      var tree' := MapPieceMaps(start, others, s, tree, v, p, pc, flags);
    } else {
      MapPieceKeepsValid(s, v, p, pc, flags);
      InvParts(start, others, s, tree);
      var s' := MapPiece(s, v, p, pc, flags).0;
      forall y: nat | y < VPN_LIMIT && Writes(pc, y)
        ensures Walk(s'.mem, s'.root, y) == Walk(s.mem, s.root, y)
      {
        BlockedIsTranslated(s, tree, pc, y);
        MappedSurvives(s.mem, s'.mem, s.root, 2, y);
      }
    }
  }

  ghost predicate MappedAsComputed(s: Space, v: nat, p: nat, flags: nat, pc: Piece)
    requires pc.level <= 2
  {
    forall y: nat :: y < VPN_LIMIT && Writes(pc, y) ==>
      Walk(s.mem, s.root, y) == Intended(v, p, flags, CodeVpn(pc.lo, pc.level, y))
  }

  // ----- what becomes of the invariant -----

  /** All entries from level `l` down to level `t` on the path of `x` are valid. */
  predicate PathComplete(mem: Memory, f: nat, l: nat, t: nat, x: nat)
    requires l <= 2
    decreases l
  {
    l <= t ||
    var w := Read(mem, f, VpnIndex(x, l));
    IsValid(w) && PathComplete(mem, EntryPpn(w), l - 1, t, x)
  }

  function LastEntered(mem: Memory, f: nat, l: nat, t: nat, x: nat): nat
    requires l <= 2
    decreases l
  {
    if l <= t then f else LastEntered(mem, EntryPpn(Read(mem, f, VpnIndex(x, l))), l - 1, t, x)
  }

  lemma {:induction false} CompletePathFetch(s: Space, f: nat, l: nat, t: nat, x: nat)
    requires t <= l <= 2 && PathComplete(s.mem, f, l, t, x)
    ensures GetTable(s, f, l, t, x) == (s, Some(LastEntered(s.mem, f, l, t, x)))
    ensures LastEntered(s.mem, f, l, t, x) in Entered(s.mem, f, l, t, x)
    ensures LeafAbove(s.mem, f, l, t, x) ==> LastEntered(s.mem, f, l, t, x) in EnteredByLeaf(s.mem, f, l, t, x)
    decreases l
  {
    if l > t {
      hide VpnIndex, IsValid, IsLeaf, EntryPpn, Read, GetTable;
      GetTableUnfold(s, f, l, t, x);
      CompletePathFetch(s, EntryPpn(Read(s.mem, f, VpnIndex(x, l))), l - 1, t, x);
    } else {
      FetchStops(s, f, l, x);
    }
  }

  lemma FetchStops(s: Space, f: nat, l: nat, x: nat)
    requires l <= 2
    ensures GetTable(s, f, l, l, x) == (s, Some(f))
  {
  }

  /** An all-zero frame can only be the last one entered on a complete path. */
  lemma {:induction false} ZeroFrameIsLast(mem: Memory, f: nat, l: nat, t: nat, x: nat, h: nat)
    requires l <= 2 && PathComplete(mem, f, l, t, x)
    requires h in Entered(mem, f, l, t, x) && forall j: nat :: j < 512 ==> Read(mem, h, j) == 0
    ensures h == LastEntered(mem, f, l, t, x)
    decreases l
  {
    if l > t {
      ZeroWordIsInvalid();
      hide VpnIndex, IsValid, IsLeaf, EntryPpn, Read;
      ZeroFrameIsLast(mem, EntryPpn(Read(mem, f, VpnIndex(x, l))), l - 1, t, x, h);
    }
  }

  lemma {:induction false} EnteredByLeafIsEntered(mem: Memory, f: nat, l: nat, t: nat, x: nat)
    requires l <= 2
    ensures EnteredByLeaf(mem, f, l, t, x) <= Entered(mem, f, l, t, x)
    decreases l
  {
    hide VpnIndex, IsValid, IsLeaf, EntryPpn, Read;
    if l > 0 {
      EnteredByLeafIsEntered(mem, EntryPpn(Read(mem, f, VpnIndex(x, l))), l - 1, t, x);
    }
  }

  /** On a path that is not complete a frame is taken, or there is none. */
  lemma {:induction false} IncompletePathFetch(s: Space, f: nat, l: nat, t: nat, x: nat)
    requires t <= l <= 1 && !PathComplete(s.mem, f, l, t, x)
    ensures var (s', r) := GetTable(s, f, l, t, x);
            var (pool', g) := FP.Allocate(s.pool);
            if g.Some? then s'.root == s.root && s'.frames == s.frames + [g.value]
            else s' == s.(pool := pool') && r.None?
  {
    var w := Read(s.mem, f, VpnIndex(x, l));
    assert PathComplete(s.mem, EntryPpn(w), l - 1, t, x);
    hide VpnIndex, IsValid, IsLeaf, EntryPpn, Read, FP.Allocate, ChildEntry, Write, GetTable;
    GetTableUnfold(s, f, l, t, x);
    var (pool', g) := FP.Allocate(s.pool);
    if g.Some? {
      FetchStops(LinkTable(s, pool', f, VpnIndex(x, l), g.value), g.value, l - 1, x);
    }
  }

  /** Below a leaf of level 1 every path is complete. */
  lemma LowLeafIsComplete(mem: Memory, f: nat, l: nat, t: nat, x: nat)
    requires l <= 1
    ensures LeafAbove(mem, f, l, t, x) ==> PathComplete(mem, f, l, t, x)
  {
    hide VpnIndex, IsValid, IsLeaf, EntryPpn, Read;
  }

  lemma IncompleteLeafFetch(s: Space, f: nat, t: nat, x: nat)
    requires t <= 2 && LeafAbove(s.mem, f, 2, t, x) && !PathComplete(s.mem, f, 2, t, x)
    ensures var (s', r) := GetTable(s, f, 2, t, x);
            var (pool', g) := FP.Allocate(s.pool);
            if g.Some? then s'.root == s.root && s'.frames == s.frames + [g.value]
            else s' == s.(pool := pool') && r.None?
  {
    var w := Read(s.mem, f, VpnIndex(x, 2));
    LowLeafIsComplete(s.mem, EntryPpn(w), 1, t, x);
    hide VpnIndex, IsValid, IsLeaf, EntryPpn, Read, FP.Allocate, GetTable;
    GetTableUnfold(s, f, 2, t, x);
    IncompletePathFetch(s, EntryPpn(w), 1, t, x);
  }

  lemma {:induction false} TableOnReadsTables(mem: Memory, mem': Memory, root: nat, tree: Tree, l: nat, x: nat, t: nat)
    requires TreeInv(mem, root, tree) && l <= 2 && NodeOf(x, l) in tree
    requires forall nd :: nd in tree ==> Page(mem', tree[nd]) == Page(mem, tree[nd])
    ensures TableOn(mem', tree[NodeOf(x, l)], l, x, t) == TableOn(mem, tree[NodeOf(x, l)], l, x, t)
    decreases l
  {
    var w := Read(mem, tree[NodeOf(x, l)], VpnIndex(x, l));
    assert Read(mem', tree[NodeOf(x, l)], VpnIndex(x, l)) == w;
    PointerLeadsToChild(mem, root, tree, l, x);
    hide Key, Read, Page, Offset, IsValid, IsLeaf, IsReserved, EntryPpn, EntryFlags, TreeInv, NodeOf, VpnIndex;
    if l >= 1 && NodeOf(x, l - 1) in tree {
      TableOnReadsTables(mem, mem', root, tree, l - 1, x, t);
    }
  }

  /** The pointers from the root lead to the frames of the tree, also in a memory that
      agrees on these frames only. */
  lemma ReachedIsOwned(start: nat, others: set<nat>, s: Space, mem': Memory, tables: set<nat>)
    requires Good(start, others, s)
    requires forall h :: h in Tables(s) ==> Page(mem', h) == Page(s.mem, h)
    requires IsTree(mem', s.root, tables)
    ensures tables <= Tables(s)
  {
    hide TableOn, Page, TreeInv, FP.PoolInv;
    var tree :| SpaceInv(start, others, s, tree);
    assert forall nd :: nd in tree ==> tree[nd] in tree.Values;
    InvIsTree(s.mem, s.root, tree);
    forall f | f in tables
      ensures f in Tables(s)
    {
      var x: nat, t: nat :| x < VPN_LIMIT && t <= 2 && TableOn(mem', s.root, 2, x, t) == Some(f);
      TopIsRoot(s.mem, s.root, tree, x);
      TableOnReadsTables(s.mem, mem', s.root, tree, 2, x, t);
    }
  }

  lemma TreeReadsTables(mem: Memory, mem': Memory, root: nat, tree: Tree)
    requires TreeInv(mem, root, tree)
    requires forall nd :: nd in tree ==> Page(mem', tree[nd]) == Page(mem, tree[nd])
    ensures TreeInv(mem', root, tree)
  {
    forall nd, i: nat | nd in tree && i < 512
      ensures Read(mem', tree[nd], i) == Read(mem, tree[nd], i)
    {
    }
    hide Read, Page, IsValid, IsLeaf, IsReserved, EntryPpn, EntryFlags, ChildEntry, Offset;
    forall nd, i: nat | nd in tree && i < 512
      ensures SlotOk(mem', tree, nd, i)
    {
      assert SlotOk(mem, tree, nd, i);
    }
    forall nd | nd in tree && nd.level < 2
      ensures LinkedToParent(mem', tree, nd)
    {
      assert LinkedToParent(mem, tree, nd);
    }
  }

  /** A space whose frames and tables are as before is good exactly when the free
      frames are zero. */
  lemma GoodIffFreeIsZero(start: nat, others: set<nat>, s: Space, mem': Memory)
    requires Good(start, others, s)
    requires forall h :: h in Tables(s) ==> Page(mem', h) == Page(s.mem, h)
    ensures Good(start, others, s.(mem := mem')) <==> FreeFramesAreZero(s.(mem := mem'))
  {
    hide Page, TreeInv, FP.PoolInv, FreeFramesAreZero;
    var tree :| SpaceInv(start, others, s, tree);
    assert forall nd :: nd in tree ==> tree[nd] in tree.Values;
    TreeReadsTables(s.mem, mem', s.root, tree);
    var s' := s.(mem := mem');
    assert Owned(s') == Owned(s) && Tables(s') == Tables(s);
    if FreeFramesAreZero(s') {
      assert SpaceInv(start, others, s', tree);
    }
  }

  /** A frame that was taken for a range below a leaf hangs off mapped data and not
      off the root. */
  lemma StrayFrameBreaksTree(start: nat, others: set<nat>, s: Space, s': Space, g: nat)
    requires Good(start, others, s) && s'.root == s.root && s'.frames == s.frames + [g] && g !in Tables(s)
    requires forall h :: h in Tables(s) ==> Page(s'.mem, h) == Page(s.mem, h)
    ensures forall start', others' :: !Good(start', others', s')
  {
    hide IsTree, Page, SpaceInv, Good;
    TablesGrow(s, s', g);
    forall start', others' | Good(start', others', s')
      ensures false
    {
      GoodSpaceIsTree(start', others', s');
      ReachedIsOwned(start, others, s, s'.mem, Tables(s'));
    }
  }

  /** What a blocked range writes on a complete path: the first of its entries, if
      that is zero, is so no longer. */
  lemma FirstEntryIsWritten(mem: Memory, f: nat, v: nat, p: nat, lo: nat, l: nat, i: nat, e: nat, flags: nat)
    requires l <= 2 && i < e <= 512 && flags < 256 && Read(mem, f, i) == 0
    ensures Read(WriteEntries(mem, f, v, p, lo, l, i, e, flags).0, f, i) != 0
  {
    ZeroWordIsInvalid();
    var w := MappingEntry(Shift(v, p, VpnLevelIndex(lo, l, i)), flags);
    var mem1 := Write(mem, f, i, w);
    MappingIsValid(Shift(v, p, VpnLevelIndex(lo, l, i)), flags);
    hide Shift, VpnLevelIndex, MappingEntry, IsValid, Read, Write, KeepsValid;
    WriteEntriesKeepsValid(mem1, f, v, p, lo, l, i + 1, e, flags);
    KeptWord(mem1, WriteEntries(mem1, f, v, p, lo, l, i + 1, e, flags).0, f, i);
  }

  lemma KeptWord(mem: Memory, mem': Memory, f: nat, i: nat)
    requires i < 512 && KeepsValid(mem, mem') && IsValid(Read(mem, f, i))
    ensures Read(mem', f, i) == Read(mem, f, i)
  {
  }

  lemma MappingIsValid(ppn: nat, flags: nat)
    requires flags < 256
    ensures IsValid(MappingEntry(ppn, flags))
  {
    hide IsValid, IsLeaf, IsReserved, MappingEntry;
    MappingEntryIsLeaf(ppn, flags);
  }

  lemma WritesSomething(pc: Piece)
    requires WellFormed(pc) && pc.level <= 1
    ensures VpnIndexRange(pc.lo, pc.hi, pc.level).0 < VpnIndexRange(pc.lo, pc.hi, pc.level).1
  {
    hide VpnIndexRange, VpnIndex;
    FirstPageIsWritten(pc);
  }

  /** The effect of a blocked range on a complete path: entries of the last frame. */
  lemma BlockedPieceOnCompletePath(s: Space, v: nat, p: nat, pc: Piece, flags: nat)
    requires flags < 256 && pc.level <= 2 && PathComplete(s.mem, s.root, 2, pc.level, TableVpn(pc.lo))
    ensures var d := LastEntered(s.mem, s.root, 2, pc.level, TableVpn(pc.lo));
            var (i, e) := VpnIndexRange(pc.lo, pc.hi, pc.level);
            var mem' := WriteEntries(s.mem, d, v, p, pc.lo, pc.level, i, e, flags).0;
            MapPiece(s, v, p, pc, flags).0 == s.(mem := mem')
  {
    hide GetTable, WriteEntries, VpnIndexRange, TableVpn, LastEntered, PathComplete;
    GetTableLowBits(s, s.root, 2, pc.level, pc.lo);
    CompletePathFetch(s, s.root, 2, pc.level, TableVpn(pc.lo));
  }

  lemma CompletePathGoodIff(start: nat, others: set<nat>, s: Space, v: nat, p: nat, pc: Piece, flags: nat)
    requires Good(start, others, s) && flags < 256 && WellFormed(pc) && pc.level <= 1 && !Unblocked(s, pc)
    requires EnteredByLeaf(s.mem, s.root, 2, pc.level, TableVpn(pc.lo)) !! Tables(s)
    requires PathComplete(s.mem, s.root, 2, pc.level, TableVpn(pc.lo))
    ensures Good(start, others, MapPiece(s, v, p, pc, flags).0) <==>
            forall f :: f in EnteredByLeaf(s.mem, s.root, 2, pc.level, TableVpn(pc.lo)) ==> !FP.IsFree(s.pool, f)
  {
    hide VpnIndexRange, VpnIndex, WriteEntries, TableVpn, LastEntered, PathComplete, LeafAbove, Entered, EnteredByLeaf,
      FP.IsFree, Page, Read, Tables, SpaceInv, MapPiece, WellFormed;
    var l, x := pc.level, TableVpn(pc.lo);
    var d := LastEntered(s.mem, s.root, 2, l, x);
    var (i, e) := VpnIndexRange(pc.lo, pc.hi, l);
    var mem' := WriteEntries(s.mem, d, v, p, pc.lo, l, i, e, flags).0;
    BlockedPieceOnCompletePath(s, v, p, pc, flags);
    CompletePathFetch(s, s.root, 2, l, x);
    EnteredByLeafIsEntered(s.mem, s.root, 2, l, x);
    forall h: nat | h != d
      ensures Page(mem', h) == Page(s.mem, h)
    {
      WriteEntriesTouchesOneFrame(s.mem, d, v, p, pc.lo, l, i, e, flags, h);
    }
    GoodIffFreeIsZero(start, others, s, mem');
    GoodHasZeroFree(start, others, s);
    if f :| f in EnteredByLeaf(s.mem, s.root, 2, l, x) && FP.IsFree(s.pool, f) {
      EnteredFits(s.mem, s.root, 2, l, x);
      FreeIsZero(s, f);
      ZeroFrameIsLast(s.mem, s.root, 2, l, x, f);
      WritesSomething(pc);
      FirstEntryIsWritten(s.mem, d, v, p, pc.lo, l, i, e, flags);
      assert !FreeFramesAreZero(s.(mem := mem'));
    } else {
      OtherFreeStaysZero(s, mem', d);
    }
  }

  lemma OtherFreeStaysZero(s: Space, mem': Memory, d: nat)
    requires FreeFramesAreZero(s) && !FP.IsFree(s.pool, d)
    requires forall h: nat :: h != d ==> Page(mem', h) == Page(s.mem, h)
    ensures FreeFramesAreZero(s.(mem := mem'))
  {
    hide FP.IsFree;
    forall f: nat, j: nat | f < WORD && FP.IsFree(s.pool, f) && j < 512
      ensures Read(mem', f, j) == 0
    {
      assert f != d && Page(mem', f) == Page(s.mem, f) && Read(s.mem, f, j) == 0;
    }
  }

  lemma GoodHasZeroFree(start: nat, others: set<nat>, s: Space)
    requires Good(start, others, s)
    ensures FreeFramesAreZero(s)
  {
  }

  lemma FreeIsZero(s: Space, f: nat)
    requires FreeFramesAreZero(s) && f < WORD && FP.IsFree(s.pool, f)
    ensures forall j: nat :: j < 512 ==> Read(s.mem, f, j) == 0
  {
    hide Read, FP.IsFree;
  }

  /** Page numbers read from entries have 44 bits. */
  lemma {:induction false} EnteredFits(mem: Memory, f: nat, l: nat, t: nat, x: nat)
    requires l <= 2
    ensures f < PPN_LIMIT ==> forall h :: h in Entered(mem, f, l, t, x) ==> h < PPN_LIMIT
    ensures forall h :: h in EnteredByLeaf(mem, f, l, t, x) ==> h < PPN_LIMIT
    decreases l
  {
    hide VpnIndex, IsValid, IsLeaf, EntryPpn, Read;
    if l > 0 {
      EnteredFits(mem, EntryPpn(Read(mem, f, VpnIndex(x, l))), l - 1, t, x);
    }
  }

  lemma GoodAllocation(start: nat, others: set<nat>, s: Space)
    requires Good(start, others, s)
    ensures var (pool', g) := FP.Allocate(s.pool);
            && (g.Some? ==> g.value !in Tables(s) && FP.IsFree(s.pool, g.value))
            && (g.None? ==> pool' == s.pool && PoolExhausted(s))
  {
    hide FP.Allocate;
    var tree :| SpaceInv(start, others, s, tree);
    FP.AllocateKeepsPartition(start, s.pool, others + Tables(s));
  }

  /** A range below a leaf leaves the space in order if and only if it takes no frame
      and enters no free one: a frame that is taken hangs off mapped data, and a free
      one is no longer zero. */
  lemma GoodSurvivesIff(start: nat, others: set<nat>, s: Space, v: nat, p: nat, pc: Piece, flags: nat)
    requires Good(start, others, s) && flags < 256 && WellFormed(pc) && pc.level <= 2 && !Unblocked(s, pc)
    requires EnteredByLeaf(s.mem, s.root, 2, pc.level, TableVpn(pc.lo)) !! Tables(s)
    ensures Good(start, others, MapPiece(s, v, p, pc, flags).0) <==>
            && (PathComplete(s.mem, s.root, 2, pc.level, TableVpn(pc.lo)) || PoolExhausted(s))
            && (forall f :: f in EnteredByLeaf(s.mem, s.root, 2, pc.level, TableVpn(pc.lo)) ==>
                  !FP.IsFree(s.pool, f))
  {
    hide VpnIndexRange, WriteEntries, TableVpn, LastEntered, PathComplete, LeafAbove, Entered, EnteredByLeaf, FP.IsFree,
      FP.Allocate, Page, Read, SpaceInv, GetTable, WellFormed, Tables;
    var l, x := pc.level, TableVpn(pc.lo);
    LevelIsLow(s, pc);
    if PathComplete(s.mem, s.root, 2, l, x) {
      CompletePathGoodIff(start, others, s, v, p, pc, flags);
    } else {
      GetTableLowBits(s, s.root, 2, l, pc.lo);
      IncompleteLeafFetch(s, s.root, l, x);
      GoodAllocation(start, others, s);
      var s' := MapPiece(s, v, p, pc, flags).0;
      var (pool', g) := FP.Allocate(s.pool);
      if g.Some? {
        forall h | h in Tables(s)
          ensures Page(s'.mem, h) == Page(s.mem, h)
        {
          OwnedIsNotFree(start, others, s, h);
          FrameOutsideData(s, v, p, pc, flags, h);
        }
        StrayFrameBreaksTree(start, others, s, s', g.value);
      }
    }
  }

  lemma OwnedIsNotFree(start: nat, others: set<nat>, s: Space, h: nat)
    requires Good(start, others, s) && h in Tables(s)
    ensures !FP.IsFree(s.pool, h)
  {
    hide FP.IsFree;
    var tree :| SpaceInv(start, others, s, tree);
    assert h in others + Tables(s);
  }
}
