/** What `allocate_map` does to the hardware's translation: one entry, one range,
    one call. Pages are the 27-bit numbers that the table walk looks at; the page
    numbers the code computes with may be larger (see LostPages.dfy). */
module MapTheorems {
  import opened Words
  import opened Sv39
  import opened MapSolver
  import opened LostPages
  import opened PageTree
  import opened AddressSpace
  import FP = FramePool

  /** The translation `allocate_map` is meant to give page `x`. */
  function Intended(v: nat, p: nat, flags: nat, x: nat): Translation {
    Mapped(Shift(v, p, x) % PPN_LIMIT, WithV(flags))
  }

  /** Page `y` is translated through one of the entries [i, e) of table `nd`. */
  predicate OnEntries(nd: Node, i: nat, e: nat, y: nat)
    requires nd.level <= 2
  {
    NodeOf(y, nd.level) == nd && i <= VpnIndex(y, nd.level) < e
  }

  /** Entries [i, e) of `nd` have been filled for a range that starts at `lo`;
      every other page is translated as before. */
  ghost predicate Overlay(s: Space, s': Space, v: nat, p: nat, flags: nat, lo: nat, nd: Node, i: nat, e: nat)
    requires nd.level <= 2
  {
    s'.root == s.root &&
    forall y: nat :: y < VPN_LIMIT ==>
      Walk(s'.mem, s'.root, y) ==
      if OnEntries(nd, i, e, y) then Intended(v, p, flags, CodeVpn(lo, nd.level, y)) else Walk(s.mem, s.root, y)
  }

  lemma OverlayJoins(s: Space, s1: Space, s2: Space, v: nat, p: nat, flags: nat, lo: nat, nd: Node, i: nat, e: nat)
    requires nd.level <= 2 && i < e
    requires Overlay(s, s1, v, p, flags, lo, nd, i, i + 1) && Overlay(s1, s2, v, p, flags, lo, nd, i + 1, e)
    ensures Overlay(s, s2, v, p, flags, lo, nd, i, e)
  {
    hide Intended, CodeVpn, VpnIndex, Walk, NodeOf;
  }

  // ----- one entry -----

  /** An entry is in use exactly when its pages are translated or it points to a table. */
  lemma EntryInUseIff(mem: Memory, root: nat, tree: Tree, l: nat, y: nat)
    requires TreeInv(mem, root, tree) && l <= 2 && y < VPN_LIMIT && NodeOf(y, l) in tree
    ensures IsValid(Read(mem, tree[NodeOf(y, l)], VpnIndex(y, l))) <==>
            Walk(mem, root, y) != Fault || (l >= 1 && NodeOf(y, l - 1) in tree)
  {
    hide Key, Read, Offset, IsValid, IsLeaf, IsReserved, EntryPpn, EntryFlags, ChildEntry;
    WalkReaches(mem, root, tree, l, y);
    assert SlotOk(mem, tree, NodeOf(y, l), VpnIndex(y, l));
    if l >= 1 {
      NodeOfSplits(y, l);
      if NodeOf(y, l - 1) in tree {
        assert LinkedToParent(mem, tree, NodeOf(y, l - 1));
        ChildEntryIsPointer(tree[NodeOf(y, l - 1)]);
      }
    }
  }

  /** State after writing one entry of a range. */
  function AfterEntry(s: Space, f: nat, v: nat, p: nat, lo: nat, l: nat, idx: nat, flags: nat): Space
    requires l <= 2 && idx < 512 && flags < 256
  {
    s.(mem := Write(s.mem, f, idx, MappingEntry(Shift(v, p, VpnLevelIndex(lo, l, idx)), flags)))
  }

  /** Writing one entry maps its block in step with the page number the code
      computes for it, and nothing else. */
  lemma WriteEntryMaps(start: nat, others: set<nat>, s: Space, tree: Tree,
                       v: nat, p: nat, lo: nat, nd: Node, idx: nat, flags: nat)
    requires SpaceInv(start, others, s, tree) && nd in tree && nd.level <= 2 && idx < 512
    requires !IsValid(Read(s.mem, tree[nd], idx)) && LeafFlags(flags) && SameOffset(v, p, nd.level)
    ensures flags < 256
    ensures var s' := AfterEntry(s, tree[nd], v, p, lo, nd.level, idx, flags);
            SpaceInv(start, others, s', tree) && Overlay(s, s', v, p, flags, lo, nd, idx, idx + 1)
  {
    hide VpnLevelIndex, Key, Read, Write, Shift, WithV, SameOffset, Offset, MappingEntry, IsValid, IsLeaf, IsReserved,
      EntryPpn, EntryFlags, LeafFlags, SpaceInv, TreeInv, NodeOf, VpnIndex, Span;
    var l, c := nd.level, VpnLevelIndex(lo, nd.level, idx);
    LevelIndexInvertsIndex(lo, l, idx);
    MappingIsGoodLeaf(v, p, c, l, flags);
    var w := MappingEntry(Shift(v, p, c), flags);
    InvParts(start, others, s, tree);
    SetLeaf(s.mem, s.root, tree, nd, idx, w);
    WriteToTableKeepsPoolSide(start, others, s, tree, nd, idx, w);
    forall y: nat | y < VPN_LIMIT
      ensures PassesThrough(y, nd, idx) <==> OnEntries(nd, idx, idx + 1, y)
      ensures PassesThrough(y, nd, idx) ==>
                Mapped(EntryPpn(w) + Offset(y, l), EntryFlags(w)) == Intended(v, p, flags, CodeVpn(lo, l, y))
    {
      hide Walk, PassesThrough;
      PassesThroughIsOnPath(y, nd, idx);
      OffsetBelowSpan(y, l);
      ShiftInsideBlock(v, p, c, l, Offset(y, l));
    }
    hide PassesThrough, OnEntries, Walk, Intended, CodeVpn;
  }

  lemma MappingIsGoodLeaf(v: nat, p: nat, b: nat, l: nat, flags: nat)
    requires LeafFlags(flags) && l <= 2 && Offset(b, l) == 0 && SameOffset(v, p, l)
    ensures flags < 256
    ensures var w := MappingEntry(Shift(v, p, b), flags);
            && IsValid(w) && IsLeaf(w) && !IsReserved(w) && Offset(EntryPpn(w), l) == 0
            && EntryPpn(w) == Shift(v, p, b) % PPN_LIMIT && EntryFlags(w) == WithV(flags)
  {
    hide IsValid, IsLeaf, IsReserved, EntryPpn, EntryFlags, Offset, SameOffset, Shift, WithV, MappingEntry;
    MappingEntryIsLeaf(Shift(v, p, b), flags);
    ShiftKeepsAlignment(v, p, b, l);
  }

  lemma WriteToTableKeepsPoolSide(start: nat, others: set<nat>, s: Space, tree: Tree, nd: Node, i: nat, w: nat)
    requires SpaceInv(start, others, s, tree) && nd in tree && i < 512
    requires TreeInv(Write(s.mem, tree[nd], i, w), s.root, tree)
    ensures SpaceInv(start, others, s.(mem := Write(s.mem, tree[nd], i, w)), tree)
  {
  }

  // ----- the entries of one range -----

  ghost predicate EntriesFree(mem: Memory, f: nat, i: nat, e: nat)
    requires e <= 512
  {
    forall k: nat :: i <= k < e ==> !IsValid(Read(mem, f, k))
  }

  lemma WriteEntriesUnfold(s: Space, f: nat, v: nat, p: nat, lo: nat, l: nat, idx: nat, end: nat, flags: nat)
    requires l <= 2 && idx < end <= 512 && flags < 256
    ensures WriteEntries(s.mem, f, v, p, lo, l, idx, end, flags) ==
            if IsValid(Read(s.mem, f, idx)) then (s.mem, false)
            else WriteEntries(AfterEntry(s, f, v, p, lo, l, idx, flags).mem, f, v, p, lo, l, idx + 1, end, flags)
  {
  }

  lemma EntriesFreeSplit(s: Space, f: nat, v: nat, p: nat, lo: nat, l: nat, idx: nat, end: nat, flags: nat)
    requires l <= 2 && idx < end <= 512 && flags < 256
    ensures EntriesFree(s.mem, f, idx, end) <==>
            !IsValid(Read(s.mem, f, idx))
            && EntriesFree(AfterEntry(s, f, v, p, lo, l, idx, flags).mem, f, idx + 1, end)
  {
    hide IsValid, Read, Write;
  }

  /** The entries before `k` were free and entry `k` stops the write, if `k` is one
      of the entries to be written at all. */
  ghost predicate StopsAt(mem: Memory, f: nat, i: nat, end: nat, k: nat)
    requires end <= 512
  {
    i <= k && (k < end ==> IsValid(Read(mem, f, k)) && EntriesFree(mem, f, i, k))
  }

  /** The entries are written, as the code computes them, up to the first one that
      is in use, which stops the write. */
  lemma {:induction false} WriteEntriesMaps(start: nat, others: set<nat>, s: Space, tree: Tree,
                                            v: nat, p: nat, lo: nat, nd: Node, idx: nat, end: nat, flags: nat)
    returns (k: nat)
    requires SpaceInv(start, others, s, tree) && nd in tree && nd.level <= 2 && end <= 512
    requires LeafFlags(flags) && SameOffset(v, p, nd.level)
    ensures var (mem', ok) := WriteEntries(s.mem, tree[nd], v, p, lo, nd.level, idx, end, flags);
            var s' := s.(mem := mem');
            && SpaceInv(start, others, s', tree)
            && Overlay(s, s', v, p, flags, lo, nd, idx, k)
            && StopsAt(s.mem, tree[nd], idx, end, k)
            && (if idx < end then idx <= k <= end else k == idx)
            && (ok <==> end <= k)
            && (ok <==> EntriesFree(s.mem, tree[nd], idx, end))
    decreases end - idx
  {
    assert flags < 256;
    k := idx;
    hide Read, Write, Shift, SameOffset, LeafFlags, Walk, SpaceInv, IsValid, MappingEntry, EntriesFree, NodeOf,
      VpnIndex, AfterEntry, Intended, CodeVpn;
    if idx < end {
      var f, l := tree[nd], nd.level;
      hide WriteEntries, Overlay, StopsAt;
      WriteEntriesUnfold(s, f, v, p, lo, l, idx, end, flags);
      EntriesFreeSplit(s, f, v, p, lo, l, idx, end, flags);
      if !IsValid(Read(s.mem, f, idx)) {
        var s1 := AfterEntry(s, f, v, p, lo, l, idx, flags);
        assert s1 == s.(mem := s1.mem) by { OnlyMemory(s, f, v, p, lo, l, idx, flags); }
        WriteEntryMaps(start, others, s, tree, v, p, lo, nd, idx, flags);
        k := WriteEntriesMaps(start, others, s1, tree, v, p, lo, nd, idx + 1, end, flags);
        var mem' := WriteEntries(s1.mem, f, v, p, lo, l, idx + 1, end, flags).0;
        StopsLater(s, f, v, p, lo, l, idx, end, k, flags);
        OverlayJoins(s, s1, s.(mem := mem'), v, p, flags, lo, nd, idx, k);
      } else {
        StopsHere(s, f, idx, end, nd, v, p, flags, lo);
      }
    } else {
      NoEntries(s.mem, tree[nd], idx, end);
    }
  }

  lemma StopsHere(s: Space, f: nat, idx: nat, end: nat, nd: Node, v: nat, p: nat, flags: nat, lo: nat)
    requires idx < end <= 512 && IsValid(Read(s.mem, f, idx)) && nd.level <= 2
    ensures StopsAt(s.mem, f, idx, end, idx) && Overlay(s, s.(mem := s.mem), v, p, flags, lo, nd, idx, idx)
  {
  }

  lemma StopsLater(s: Space, f: nat, v: nat, p: nat, lo: nat, l: nat, idx: nat, end: nat, k: nat, flags: nat)
    requires l <= 2 && idx < end <= 512 && flags < 256 && !IsValid(Read(s.mem, f, idx))
    requires StopsAt(AfterEntry(s, f, v, p, lo, l, idx, flags).mem, f, idx + 1, end, k)
    ensures StopsAt(s.mem, f, idx, end, k) && idx < k
  {
    hide IsValid, Read, Write;
  }

  lemma OnlyMemory(s: Space, f: nat, v: nat, p: nat, lo: nat, l: nat, idx: nat, flags: nat)
    requires l <= 2 && idx < 512 && flags < 256
    ensures var s1 := AfterEntry(s, f, v, p, lo, l, idx, flags); s1 == s.(mem := s1.mem)
  {
  }

  lemma NoEntries(mem: Memory, f: nat, i: nat, e: nat)
    requires e <= i && e <= 512
    ensures EntriesFree(mem, f, i, e)
  {
  }

  // ----- one range -----

  /** The state after one range has been handled, and whether it was mapped. */
  function MapPiece(s: Space, v: nat, p: nat, pc: Piece, flags: nat): (Space, Outcome)
    requires flags < 256 && pc.level <= 2
  {
    var (s1, table) := GetTable(s, s.root, 2, pc.level, pc.lo);
    if table.None? then (s1, FrameAllocError)
    else
      var (i, e) := VpnIndexRange(pc.lo, pc.hi, pc.level);
      var (mem2, ok) := WriteEntries(s1.mem, table.value, v, p, pc.lo, pc.level, i, e, flags);
      (s1.(mem := mem2), if ok then Ok else AlreadyAllocated)
  }

  lemma MapPiecesUnfold(s: Space, v: nat, p: nat, ps: seq<Piece>, flags: nat)
    requires flags < 256 && (forall pc :: pc in ps ==> pc.level <= 2) && ps != []
    ensures ps[0] in ps
    ensures var (s1, outcome) := MapPiece(s, v, p, ps[0], flags);
            MapPieces(s, v, p, ps, flags) ==
            if outcome == Ok then
              var r := MapPieces(s1, v, p, ps[1..], flags);
              r.(done := r.done + 1)
            else MapRun(s1, outcome, 0)
  {
  }

  ghost predicate PieceOk(v: nat, p: nat, pc: Piece) {
    WellFormed(pc) && SameOffset(v, p, pc.level)
  }

  /** No leaf lies on the path to the table of the range. */
  predicate Unblocked(s: Space, pc: Piece)
    requires pc.level <= 2
  {
    !LeafAbove(s.mem, s.root, 2, pc.level, TableVpn(pc.lo))
  }

  /** The pages written for the range are not translated and no table hangs below
      an entry it needs. */
  ghost predicate TargetsFree(s: Space, tree: Tree, pc: Piece)
    requires pc.level <= 2
  {
    forall y: nat :: y < VPN_LIMIT && Writes(pc, y) ==>
      Walk(s.mem, s.root, y) == Fault && (pc.level >= 1 ==> NodeOf(y, pc.level - 1) !in tree)
  }

  /** Page `y` is written for the range through an entry before `k`. */
  predicate WrittenTo(pc: Piece, k: nat, y: nat)
    requires pc.level <= 2
  {
    Writes(pc, y) && VpnIndex(y, pc.level) < k
  }

  /** The pages of the first entries of the range are translated as the code
      computes, all others as before. */
  ghost predicate PartOverlay(s: Space, s': Space, v: nat, p: nat, flags: nat, pc: Piece, k: nat)
    requires pc.level <= 2
  {
    s'.root == s.root &&
    forall y: nat :: y < VPN_LIMIT ==>
      Walk(s'.mem, s'.root, y) ==
      if WrittenTo(pc, k, y) then Intended(v, p, flags, CodeVpn(pc.lo, pc.level, y)) else Walk(s.mem, s.root, y)
  }

  /** All pages written for the range are translated as the code computes. */
  ghost predicate PieceOverlay(s: Space, s': Space, v: nat, p: nat, flags: nat, pc: Piece)
    requires pc.level <= 2
  {
    s'.root == s.root &&
    forall y: nat :: y < VPN_LIMIT ==>
      Walk(s'.mem, s'.root, y) ==
      if Writes(pc, y) then Intended(v, p, flags, CodeVpn(pc.lo, pc.level, y)) else Walk(s.mem, s.root, y)
  }

  function TableOf(pc: Piece): Node
    requires pc.level <= 2
  {
    NodeOf(TableVpn(pc.lo), pc.level)
  }

  lemma WritesIsOnEntries(pc: Piece, y: nat)
    requires pc.level <= 2
    ensures var (i, e) := VpnIndexRange(pc.lo, pc.hi, pc.level);
            Writes(pc, y) <==> OnEntries(TableOf(pc), i, e, y)
  {
  }

  lemma PageOfEntry(pc: Piece, k: nat) returns (y: nat)
    requires pc.level <= 2 && k < 512
    ensures y < VPN_LIMIT && NodeOf(y, pc.level) == TableOf(pc) && VpnIndex(y, pc.level) == k
  {
    y := TableVpn(VpnLevelIndex(pc.lo, pc.level, k));
    LevelIndexInvertsIndex(pc.lo, pc.level, k);
    KeySplit(y, pc.level);
  }

  lemma FreeEntriesIff(start: nat, others: set<nat>, s: Space, tree: Tree, pc: Piece)
    requires SpaceInv(start, others, s, tree) && pc.level <= 2 && TableOf(pc) in tree
    ensures var (i, e) := VpnIndexRange(pc.lo, pc.hi, pc.level);
            EntriesFree(s.mem, tree[TableOf(pc)], i, e) <==> TargetsFree(s, tree, pc)
  {
    hide TreeInv, VpnIndexRange, Walk, NodeOf, VpnIndex, Read, IsValid, TableOf, Writes, FP.PoolInv;
    var (i, e) := VpnIndexRange(pc.lo, pc.hi, pc.level);
    var l, f := pc.level, tree[TableOf(pc)];
    LevelOfTable(pc);
    if EntriesFree(s.mem, f, i, e) {
      forall y: nat | y < VPN_LIMIT && Writes(pc, y)
        ensures Walk(s.mem, s.root, y) == Fault && (l >= 1 ==> NodeOf(y, l - 1) !in tree)
      {
        WritesIsOnEntries(pc, y);
        EntryInUseIff(s.mem, s.root, tree, l, y);
      }
    }
    if TargetsFree(s, tree, pc) {
      forall k: nat | i <= k < e
        ensures !IsValid(Read(s.mem, f, k))
      {
        var y := PageOfEntry(pc, k);
        WritesIsOnEntries(pc, y);
        EntryInUseIff(s.mem, s.root, tree, l, y);
      }
    }
  }

  lemma LevelOfTable(pc: Piece)
    requires pc.level <= 2
    ensures TableOf(pc).level == pc.level
  {
  }

  /** Free targets stay free, and blocked ones blocked, when tables are added at
      their level or above and their translations are the same. */
  lemma FreeTargetsStay(s: Space, s1: Space, tree: Tree, tree1: Tree, l: nat, pc: Piece)
    requires pc.level <= l && pc.level <= 2 && GrowsFrom(tree, tree1, l)
    requires forall y: nat :: y < VPN_LIMIT && Writes(pc, y) ==>
               Walk(s1.mem, s1.root, y) == Walk(s.mem, s.root, y)
    ensures TargetsFree(s1, tree1, pc) <==> TargetsFree(s, tree, pc)
  {
    hide Writes, Walk, Key;
  }

  lemma OverlayOfPiece(s: Space, s1: Space, s2: Space, v: nat, p: nat, flags: nat, pc: Piece, k: nat)
    requires pc.level <= 2 && SameWalk(s, s1)
    requires var (i, e) := VpnIndexRange(pc.lo, pc.hi, pc.level);
             && TableOf(pc).level == pc.level && i <= k
             && Overlay(s1, s2, v, p, flags, pc.lo, TableOf(pc), i, k)
    ensures var (i, e) := VpnIndexRange(pc.lo, pc.hi, pc.level);
            && (k <= e ==> PartOverlay(s, s2, v, p, flags, pc, k))
            && (k == e || (e <= i && k == i) ==> PieceOverlay(s, s2, v, p, flags, pc))
  {
    hide VpnIndexRange, Walk, NodeOf, VpnIndex, TableOf, Intended, CodeVpn, Writes;
    forall y: nat
      ensures var (i, e) := VpnIndexRange(pc.lo, pc.hi, pc.level);
              Writes(pc, y) <==> OnEntries(TableOf(pc), i, e, y)
    {
      WritesIsOnEntries(pc, y);
    }
  }

  /** One range: it is written whole if all its targets are free, a target in use
      stops it with a panic, and without a frame for a table nothing changes. */
  lemma {:induction false} MapPieceMaps(start: nat, others: set<nat>, s: Space, tree: Tree,
                                        v: nat, p: nat, pc: Piece, flags: nat) returns (tree': Tree)
    requires SpaceInv(start, others, s, tree) && PieceOk(v, p, pc) && LeafFlags(flags)
    requires Unblocked(s, pc)
    ensures flags < 256
    ensures var (s', outcome) := MapPiece(s, v, p, pc, flags);
            && SpaceInv(start, others, s', tree')
            && GrowsFrom(tree, tree', pc.level)
            && s'.pool.end == s.pool.end
            && match outcome
               case Ok => PieceOverlay(s, s', v, p, flags, pc) && TargetsFree(s, tree, pc)
               case FrameAllocError => SameWalk(s, s') && PoolExhausted(s')
               case AlreadyAllocated =>
                 !TargetsFree(s, tree, pc) && exists k: nat :: PartOverlay(s, s', v, p, flags, pc, k)
  {
    var l, x := pc.level, TableVpn(pc.lo);
    InvParts(start, others, s, tree);
    TopIsRoot(s.mem, s.root, tree, x);
    LevelOfTable(pc);
    assert TableOf(pc) == NodeOf(x, l);
    assert SameOffset(v, p, l) && flags < 256;
    hide SpaceInv, TreeInv, Walk, GetTable, WriteEntries, VpnLevelIndex, VpnIndexRange, LeafFlags, SameOffset, NodeOf,
      PoolExhausted, WellFormed, FP.PoolInv, LeafAbove, TableVpn, Overlay, PieceOverlay, PartOverlay, TargetsFree,
      GrowsFrom, TableOf, EntriesFree, StopsAt;
    GetTableLowBits(s, s.root, 2, l, pc.lo);
    tree' := GetTableFinds(start, others, s, tree, 2, l, x);
    var (s1, table) := GetTable(s, s.root, 2, l, pc.lo);
    if table.Some? {
      var (i, e) := VpnIndexRange(pc.lo, pc.hi, l);
      FreeTargetsStay(s, s1, tree, tree', l, pc);
      FreeEntriesIff(start, others, s1, tree', pc);
      var k := WriteEntriesMaps(start, others, s1, tree', v, p, pc.lo, TableOf(pc), i, e, flags);
      var (mem2, ok) := WriteEntries(s1.mem, table.value, v, p, pc.lo, l, i, e, flags);
      OverlayOfPiece(s, s1, s1.(mem := mem2), v, p, flags, pc, k);
    }
  }

  // ----- a whole call -----

  /** Translation of page `y` after the ranges have been written over `before`. */
  function Answer(v: nat, p: nat, flags: nat, ps: seq<Piece>, y: nat, before: Translation): Translation
    requires forall pc :: pc in ps ==> pc.level <= 2
    decreases |ps|
  {
    if ps == [] then before
    else
      assert ps[0] in ps;
      Answer(v, p, flags, ps[1..], y,
             if Writes(ps[0], y) then Intended(v, p, flags, CodeVpn(ps[0].lo, ps[0].level, y)) else before)
  }

  ghost predicate WrittenBy(ps: seq<Piece>, y: nat)
    requires forall pc :: pc in ps ==> pc.level <= 2
  {
    exists pc :: pc in ps && Writes(pc, y)
  }

  /** Pages that no range writes keep their translation; for the others it does not
      matter what it was. */
  lemma {:induction false} AnswerOfUnwritten(v: nat, p: nat, flags: nat, ps: seq<Piece>, y: nat, a: Translation,
                                             b: Translation)
    requires forall pc :: pc in ps ==> pc.level <= 2
    ensures !WrittenBy(ps, y) ==> Answer(v, p, flags, ps, y, a) == a
    ensures WrittenBy(ps, y) ==> Answer(v, p, flags, ps, y, a) == Answer(v, p, flags, ps, y, b)
    decreases |ps|
  {
    hide Writes, Intended, CodeVpn;
    if ps != [] {
      assert ps[0] in ps;
      var c := Intended(v, p, flags, CodeVpn(ps[0].lo, ps[0].level, y));
      var w := Writes(ps[0], y);
      AnswerOfUnwritten(v, p, flags, ps[1..], y, if w then c else a, if w then c else b);
      assert forall pc :: pc in ps <==> pc == ps[0] || pc in ps[1..];
    }
  }

  /** A page that a range writes gets the translation computed for that range. */
  lemma {:induction false} AnswerOfWritten(v: nat, p: nat, flags: nat, ps: seq<Piece>, pc: Piece, y: nat,
                                           a: Translation)
    requires (forall q :: q in ps ==> q.level <= 2) && RangesDoNotCollide(ps)
    requires pc in ps && y < VPN_LIMIT && Writes(pc, y)
    ensures Answer(v, p, flags, ps, y, a) == Intended(v, p, flags, CodeVpn(pc.lo, pc.level, y))
    decreases |ps|
  {
    hide Writes, Intended, CodeVpn;
    TailDoesNotCollide(ps);
    if pc == ps[0] {
      forall q | q in ps[1..]
        ensures !Writes(q, y)
      {
        var j :| 0 <= j < |ps[1..]| && ps[1..][j] == q;
        assert q == ps[j + 1];
      }
      AnswerOfUnwritten(v, p, flags, ps[1..], y, Intended(v, p, flags, CodeVpn(pc.lo, pc.level, y)), a);
    } else {
      assert pc in ps[1..] && ps[0] in ps;
      var j :| 0 <= j < |ps| && ps[j] == pc;
      assert !Writes(ps[0], y);
      AnswerOfWritten(v, p, flags, ps[1..], pc, y, a);
    }
  }

  /** A page that a range keeps gets the translation it is meant to have. */
  lemma AnswerOfKept(v: nat, p: nat, flags: nat, ps: seq<Piece>, x: nat, a: Translation)
    requires (forall pc :: pc in ps ==> pc.level <= 2) && RangesDoNotCollide(ps) && Kept(ps, x)
    ensures Answer(v, p, flags, ps, TableVpn(x), a) == Intended(v, p, flags, x)
  {
    hide Writes, Intended, CodeVpn, TableVpn, Answer;
    var pc :| pc in ps && pc.lo <= x < pc.hi && Keeps(pc, x);
    AnswerOfWritten(v, p, flags, ps, pc, TableVpn(x), a);
  }

  lemma TailDoesNotCollide(ps: seq<Piece>)
    requires ps != [] && (forall pc :: pc in ps ==> pc.level <= 2) && RangesDoNotCollide(ps)
    ensures RangesDoNotCollide(ps[1..])
  {
    hide Writes;
  }

  /** The given ranges have been written over the translations of `s`. */
  ghost predicate AnswersWith(s: Space, s': Space, v: nat, p: nat, flags: nat, ps: seq<Piece>)
    requires forall pc :: pc in ps ==> pc.level <= 2
  {
    s'.root == s.root &&
    forall y: nat :: y < VPN_LIMIT ==>
      Walk(s'.mem, s'.root, y) == Answer(v, p, flags, ps, y, Walk(s.mem, s.root, y))
  }

  ghost predicate AllPieceOk(v: nat, p: nat, ps: seq<Piece>) {
    forall pc :: pc in ps ==> PieceOk(v, p, pc)
  }

  /** Each range, when its turn comes, has no leaf in its way. */
  ghost predicate Passable(s: Space, v: nat, p: nat, ps: seq<Piece>, flags: nat)
    requires flags < 256 && forall pc :: pc in ps ==> pc.level <= 2
    decreases |ps|
  {
    ps == [] ||
    (ps[0] in ps && Unblocked(s, ps[0])
     && var (s1, outcome) := MapPiece(s, v, p, ps[0], flags);
        outcome == Ok ==> Passable(s1, v, p, ps[1..], flags))
  }

  /** The given ranges have been written and of the next one the entries before `k`. */
  ghost predicate StoppedAt(s: Space, s': Space, v: nat, p: nat, flags: nat, ps: seq<Piece>, pc: Piece, k: nat)
    requires pc.level <= 2 && forall q :: q in ps ==> q.level <= 2
  {
    s'.root == s.root &&
    forall y: nat :: y < VPN_LIMIT ==>
      Walk(s'.mem, s'.root, y) ==
      if WrittenTo(pc, k, y) then Intended(v, p, flags, CodeVpn(pc.lo, pc.level, y))
      else Answer(v, p, flags, ps, y, Walk(s.mem, s.root, y))
  }

  /** What a call leaves behind: the completed ranges are mapped, on a panic also the
      first entries of the range that stopped it, and all other translations are as
      before. */
  ghost predicate CallEffect(s: Space, r: MapRun, v: nat, p: nat, flags: nat, ps: seq<Piece>)
    requires (forall pc :: pc in ps ==> pc.level <= 2) && r.done <= |ps|
  {
    match r.outcome
    case Ok => r.done == |ps| && AnswersWith(s, r.space, v, p, flags, ps)
    case FrameAllocError =>
      r.done < |ps| && PoolExhausted(r.space) && AnswersWith(s, r.space, v, p, flags, ps[..r.done])
    case AlreadyAllocated =>
      r.done < |ps| && ps[r.done] in ps
      && exists k: nat :: StoppedAt(s, r.space, v, p, flags, ps[..r.done], ps[r.done], k)
  }

  /** A whole call: as long as no leaf is in the way of a range when its turn comes,
      the tree is kept and exactly the completed ranges are mapped. */
  lemma {:induction false} MapPiecesMaps(start: nat, others: set<nat>, s: Space, tree: Tree,
                                         v: nat, p: nat, ps: seq<Piece>, flags: nat) returns (tree': Tree)
    requires SpaceInv(start, others, s, tree) && AllPieceOk(v, p, ps) && LeafFlags(flags)
    requires flags < 256 && (forall pc :: pc in ps ==> pc.level <= 2) && Passable(s, v, p, ps, flags)
    ensures var r := MapPieces(s, v, p, ps, flags);
            && SpaceInv(start, others, r.space, tree')
            && r.space.pool.end == s.pool.end
            && CallEffect(s, r, v, p, flags, ps)
    decreases |ps|
  {
    tree' := tree;
    hide SpaceInv, LeafFlags, Writes, TargetsFree, Walk, Unblocked, MapPiece, PoolExhausted, GrowsFrom, PieceOk,
      PieceOverlay, PartOverlay, CallEffect, SameWalk;
    if ps == [] {
      NoRanges(s, v, p, flags);
    } else {
      MapPiecesUnfold(s, v, p, ps, flags);
      hide MapPieces;
      tree' := MapPieceMaps(start, others, s, tree, v, p, ps[0], flags);
      var (s1, outcome) := MapPiece(s, v, p, ps[0], flags);
      if outcome == Ok {
        tree' := MapPiecesMaps(start, others, s1, tree', v, p, ps[1..], flags);
        EffectExtends(s, s1, MapPieces(s1, v, p, ps[1..], flags), v, p, flags, ps);
      } else {
        CallStops(s, s1, v, p, flags, ps, outcome);
      }
    }
  }

  lemma NoRanges(s: Space, v: nat, p: nat, flags: nat)
    ensures CallEffect(s, MapRun(s, Ok, 0), v, p, flags, [])
  {
  }

  lemma CallStops(s: Space, s1: Space, v: nat, p: nat, flags: nat, ps: seq<Piece>, outcome: Outcome)
    requires ps != [] && (forall pc :: pc in ps ==> pc.level <= 2) && ps[0] in ps && outcome != Ok
    requires outcome == FrameAllocError ==> SameWalk(s, s1) && PoolExhausted(s1)
    requires outcome == AlreadyAllocated ==> exists k: nat :: PartOverlay(s, s1, v, p, flags, ps[0], k)
    ensures CallEffect(s, MapRun(s1, outcome, 0), v, p, flags, ps)
  {
    hide PoolExhausted, Walk, WrittenTo, Intended, CodeVpn;
    assert ps[..0] == [];
    if outcome == AlreadyAllocated {
      var k: nat :| PartOverlay(s, s1, v, p, flags, ps[0], k);
      assert StoppedAt(s, s1, v, p, flags, [], ps[0], k);
    }
  }

  lemma EffectExtends(s: Space, s1: Space, r1: MapRun, v: nat, p: nat, flags: nat, ps: seq<Piece>)
    requires ps != [] && (forall pc :: pc in ps ==> pc.level <= 2) && r1.done <= |ps| - 1
    requires ps[0] in ps && PieceOverlay(s, s1, v, p, flags, ps[0])
    requires CallEffect(s1, r1, v, p, flags, ps[1..])
    ensures CallEffect(s, r1.(done := r1.done + 1), v, p, flags, ps)
  {
    hide Writes, WrittenTo, Intended, CodeVpn, Walk, PoolExhausted;
    assert ps[..r1.done + 1][1..] == ps[1..][..r1.done];
    assert ps[..|ps|] == ps && ps[1..][..|ps| - 1] == ps[1..];
    if r1.outcome == AlreadyAllocated {
      var k: nat :| StoppedAt(s1, r1.space, v, p, flags, ps[1..][..r1.done], ps[1..][r1.done], k);
      assert ps[r1.done + 1] == ps[1..][r1.done];
      assert StoppedAt(s, r1.space, v, p, flags, ps[..r1.done + 1], ps[r1.done + 1], k);
    }
  }

  // ----- ranges that need different entries -----

  ghost predicate GoodPieces(v: nat, p: nat, ps: seq<Piece>) {
    && AllPieceOk(v, p, ps)
    && (forall i, j :: 0 <= i < j < |ps| ==> ps[i].level >= ps[j].level)
    && RangesDoNotCollide(ps)
  }

  ghost predicate AllTargetsFree(s: Space, tree: Tree, ps: seq<Piece>)
    requires forall pc :: pc in ps ==> pc.level <= 2
  {
    forall pc :: pc in ps ==> TargetsFree(s, tree, pc)
  }

  ghost predicate AllUnblocked(s: Space, ps: seq<Piece>)
    requires forall pc :: pc in ps ==> pc.level <= 2
  {
    forall pc :: pc in ps ==> Unblocked(s, pc)
  }

  lemma TailIsGood(v: nat, p: nat, ps: seq<Piece>)
    requires GoodPieces(v, p, ps) && ps != []
    ensures PieceOk(v, p, ps[0]) && GoodPieces(v, p, ps[1..])
    ensures forall pc :: pc in ps[1..] ==> pc.level <= ps[0].level <= 2
    ensures forall pc, y: nat :: pc in ps[1..] && y < VPN_LIMIT && Writes(pc, y) ==> !Writes(ps[0], y)
  {
    hide Writes;
    TailDoesNotCollide(ps);
    forall pc | pc in ps[1..]
      ensures pc.level <= ps[0].level <= 2
      ensures forall y: nat :: y < VPN_LIMIT && Writes(pc, y) ==> !Writes(ps[0], y)
    {
      var j :| 0 <= j < |ps[1..]| && ps[1..][j] == pc;
      assert pc == ps[j + 1];
    }
  }

  lemma FirstPageIsWritten(pc: Piece)
    requires WellFormed(pc) && pc.level <= 1
    ensures Writes(pc, TableVpn(pc.lo))
  {
    hide VpnIndexRange, Key, TableVpn, TableEnd, CodeVpn, Offset, VpnIndex;
    TableEndIsBeyond(pc.lo, pc.level);
    KeepsBeforeCut(pc, pc.lo);
  }

  lemma TableEndIsBeyond(x: nat, l: nat)
    requires l <= 2
    ensures x < TableEnd(x, l)
  {
  }

  /** Writing one range blocks no other that needs different entries. */
  lemma StaysUnblocked(start: nat, others: set<nat>, s: Space, s1: Space, tree: Tree, tree1: Tree, v: nat, p: nat,
                       flags: nat, done: Piece, pc: Piece)
    requires SpaceInv(start, others, s, tree) && SpaceInv(start, others, s1, tree1)
    requires GrowsFrom(tree, tree1, done.level) && done.level <= 2
    requires PieceOverlay(s, s1, v, p, flags, done)
    requires WellFormed(pc) && Unblocked(s, pc)
    requires forall y: nat :: y < VPN_LIMIT && Writes(pc, y) ==> !Writes(done, y)
    ensures Unblocked(s1, pc)
  {
    hide TreeInv, LeafAbove, Walk, NodeOf, TableVpn, Writes, Intended, CodeVpn, FP.PoolInv, WellFormed;
    assert pc.level <= 2 by { LevelOfWellFormed(pc); }
    LeafAboveIff(s.mem, s.root, tree, pc.level, TableVpn(pc.lo));
    LeafAboveIff(s1.mem, s1.root, tree1, pc.level, TableVpn(pc.lo));
    if pc.level <= 1 {
      FirstPageIsWritten(pc);
    } else {
      TopIsRoot(s.mem, s.root, tree, TableVpn(pc.lo));
    }
  }

  lemma LevelOfWellFormed(pc: Piece)
    requires WellFormed(pc)
    ensures pc.level <= 2
  {
  }

  /** Ranges that need different entries and have no leaf in their way at first have
      none when their turn comes; then Ok means that all their entries were free at
      first, and a panic that one was not. */
  lemma {:induction false} FreshRangesPass(start: nat, others: set<nat>, s: Space, tree: Tree,
                                           v: nat, p: nat, ps: seq<Piece>, flags: nat)
    requires SpaceInv(start, others, s, tree) && GoodPieces(v, p, ps) && LeafFlags(flags)
    requires flags < 256 && (forall pc :: pc in ps ==> pc.level <= 2) && AllUnblocked(s, ps)
    ensures Passable(s, v, p, ps, flags)
    ensures var r := MapPieces(s, v, p, ps, flags);
            && (r.outcome == AlreadyAllocated ==> !AllTargetsFree(s, tree, ps))
            && (r.outcome == Ok ==> AllTargetsFree(s, tree, ps))
    decreases |ps|
  {
    hide SpaceInv, LeafFlags, GoodPieces, Writes, TargetsFree, Walk, Unblocked, MapPiece, PoolExhausted, GrowsFrom,
      PieceOk, PieceOverlay, PartOverlay, AllTargetsFree, AllUnblocked, SameWalk;
    if ps == [] {
      NoTargets(s, tree);
    } else {
      MapPiecesUnfold(s, v, p, ps, flags);
      TailIsGood(v, p, ps);
      HeadIsUnblocked(s, ps);
      hide MapPieces;
      var tree1 := MapPieceMaps(start, others, s, tree, v, p, ps[0], flags);
      var (s1, outcome) := MapPiece(s, v, p, ps[0], flags);
      if outcome == Ok {
        RestStaysUnblocked(start, others, s, s1, tree, tree1, v, p, flags, ps);
        FreshRangesPass(start, others, s1, tree1, v, p, ps[1..], flags);
        TargetsOfTail(s, s1, tree, tree1, v, p, flags, ps);
      } else {
        FirstTarget(s, tree, ps);
      }
    }
  }

  lemma NoTargets(s: Space, tree: Tree)
    ensures AllTargetsFree(s, tree, [])
  {
  }

  lemma FirstTarget(s: Space, tree: Tree, ps: seq<Piece>)
    requires ps != [] && forall pc :: pc in ps ==> pc.level <= 2
    ensures ps[0] in ps
    ensures AllTargetsFree(s, tree, ps) ==> TargetsFree(s, tree, ps[0])
  {
  }

  lemma HeadIsUnblocked(s: Space, ps: seq<Piece>)
    requires ps != [] && (forall pc :: pc in ps ==> pc.level <= 2) && AllUnblocked(s, ps)
    ensures ps[0] in ps && Unblocked(s, ps[0])
  {
  }

  lemma RestStaysUnblocked(start: nat, others: set<nat>, s: Space, s1: Space, tree: Tree, tree1: Tree, v: nat, p: nat,
                           flags: nat, ps: seq<Piece>)
    requires SpaceInv(start, others, s, tree) && SpaceInv(start, others, s1, tree1)
    requires GoodPieces(v, p, ps) && ps != [] && (forall pc :: pc in ps ==> pc.level <= 2)
    requires AllUnblocked(s, ps) && GrowsFrom(tree, tree1, ps[0].level)
    requires ps[0] in ps && PieceOverlay(s, s1, v, p, flags, ps[0])
    ensures AllUnblocked(s1, ps[1..])
  {
    hide SpaceInv, GrowsFrom, PieceOverlay, Writes, Unblocked, SameOffset, WellFormed;
    TailIsGood(v, p, ps);
    forall pc | pc in ps[1..]
      ensures Unblocked(s1, pc)
    {
      assert pc in ps && PieceOk(v, p, pc);
      StaysUnblocked(start, others, s, s1, tree, tree1, v, p, flags, ps[0], pc);
    }
  }

  lemma TargetsOfTail(s: Space, s1: Space, tree: Tree, tree1: Tree, v: nat, p: nat, flags: nat, ps: seq<Piece>)
    requires ps != [] && (forall pc :: pc in ps ==> pc.level <= 2) && GoodPieces(v, p, ps)
    requires GrowsFrom(tree, tree1, ps[0].level) && ps[0] in ps && PieceOverlay(s, s1, v, p, flags, ps[0])
    ensures AllTargetsFree(s, tree, ps) <==> TargetsFree(s, tree, ps[0]) && AllTargetsFree(s1, tree1, ps[1..])
  {
    hide TargetsFree, Writes, Intended, CodeVpn, Walk, GoodPieces, GrowsFrom;
    assert forall pc :: pc in ps <==> pc == ps[0] || pc in ps[1..];
    TailIsGood(v, p, ps);
    forall pc | pc in ps[1..]
      ensures TargetsFree(s1, tree1, pc) <==> TargetsFree(s, tree, pc)
    {
      FreeTargetsStay(s, s1, tree, tree1, ps[0].level, pc);
    }
  }

  // ----- what Ok implies -----

  /** After Ok no two ranges have needed the same entry, and all pages written were
      untranslated before. */
  lemma {:induction false} OkWritesUntranslated(start: nat, others: set<nat>, s: Space, tree: Tree,
                                                v: nat, p: nat, ps: seq<Piece>, flags: nat)
    requires SpaceInv(start, others, s, tree) && AllPieceOk(v, p, ps) && LeafFlags(flags)
    requires flags < 256 && (forall pc :: pc in ps ==> pc.level <= 2) && Passable(s, v, p, ps, flags)
    requires MapPieces(s, v, p, ps, flags).outcome == Ok
    ensures forall pc, y: nat :: pc in ps && y < VPN_LIMIT && Writes(pc, y) ==> Walk(s.mem, s.root, y) == Fault
    ensures RangesDoNotCollide(ps)
    decreases |ps|
  {
    hide SpaceInv, LeafFlags, Writes, Walk, Unblocked, MapPiece, PoolExhausted, GrowsFrom, PieceOk, PartOverlay,
      SameWalk, CodeVpn;
    if ps != [] {
      MapPiecesUnfold(s, v, p, ps, flags);
      hide MapPieces;
      var tree1 := MapPieceMaps(start, others, s, tree, v, p, ps[0], flags);
      var s1 := MapPiece(s, v, p, ps[0], flags).0;
      OkWritesUntranslated(start, others, s1, tree1, v, p, ps[1..], flags);
      forall pc, y: nat | pc in ps[1..] && y < VPN_LIMIT && Writes(pc, y)
        ensures !Writes(ps[0], y) && Walk(s.mem, s.root, y) == Fault
      {
        assert Walk(s1.mem, s1.root, y) == Fault;
      }
      assert forall j :: 0 <= j < |ps[1..]| ==> ps[1..][j] == ps[j + 1];
      forall i, j, y: nat | 0 <= i < j < |ps| && y < VPN_LIMIT
        ensures !(Writes(ps[i], y) && Writes(ps[j], y))
      {
        assert ps[j] == ps[1..][j - 1];
      }
    }
  }
}
