/** `PagedAddrSpace` of 03-virt-addr-kern/src/mm.rs as functions on values:
    physical memory, frame pool, root frame and owned frames. The functions are
    what the class in PagedAddrSpace.dfy is proved to compute; here they are
    related to the hardware walk. */
module AddressSpace {
  import opened Words
  import opened Sv39
  import opened MapSolver
  import opened PageTree
  import FP = FramePool

  datatype Space = Space(mem: Memory, pool: FP.Pool, root: nat, frames: seq<nat>)

  datatype Outcome = Ok | FrameAllocError | AlreadyAllocated

  /** Follows the entries of `x` from the level-`l` table in frame `f` down to
      the level-`t` table, linking a new frame wherever an entry is not valid. */
  function GetTable(s: Space, f: nat, l: nat, t: nat, x: nat): (Space, Option<nat>)
    requires t <= l <= 2
    decreases l
  {
    if l == t then (s, Some(f))
    else
      var w := Read(s.mem, f, VpnIndex(x, l));
      if IsValid(w) then GetTable(s, EntryPpn(w), l - 1, t, x)
      else
        var (pool', r) := FP.Allocate(s.pool);
        match r
        case None => (s.(pool := pool'), None)
        case Some(g) => GetTable(LinkTable(s, pool', f, VpnIndex(x, l), g), g, l - 1, t, x)
  }

  function LinkTable(s: Space, pool': FP.Pool, f: nat, i: nat, g: nat): Space
    requires i < 512
  {
    Space(Write(s.mem, f, i, ChildEntry(g)), pool', s.root, s.frames + [g])
  }

  /** Writes the entries [idx, end) of the table in frame `f`; `false` is the
      panic on an entry that is already valid. */
  function WriteEntries(mem: Memory, f: nat, v: nat, p: nat, lo: nat, l: nat, idx: nat, end: nat, flags: nat)
    : (Memory, bool)
    requires l <= 2 && end <= 512 && flags < 256
    decreases end - idx
  {
    if idx >= end then (mem, true)
    else if IsValid(Read(mem, f, idx)) then (mem, false)
    else
      var ppn := Shift(v, p, VpnLevelIndex(lo, l, idx));
      WriteEntries(Write(mem, f, idx, MappingEntry(ppn, flags)), f, v, p, lo, l, idx + 1, end, flags)
  }

  /** `done` counts the ranges that were mapped completely. */
  datatype MapRun = MapRun(space: Space, outcome: Outcome, done: nat)

  function MapPieces(s: Space, v: nat, p: nat, ps: seq<Piece>, flags: nat): (r: MapRun)
    requires flags < 256 && forall pc :: pc in ps ==> pc.level <= 2
    ensures r.done <= |ps|
    decreases |ps|
  {
    if ps == [] then MapRun(s, Ok, 0)
    else
      var pc := ps[0];
      assert pc in ps;
      var (s1, table) := GetTable(s, s.root, 2, pc.level, pc.lo);
      if table.None? then MapRun(s1, FrameAllocError, 0)
      else
        var (i, e) := VpnIndexRange(pc.lo, pc.hi, pc.level);
        var (mem2, ok) := WriteEntries(s1.mem, table.value, v, p, pc.lo, pc.level, i, e, flags);
        if !ok then MapRun(s1.(mem := mem2), AlreadyAllocated, 0)
        else
          var r := MapPieces(s1.(mem := mem2), v, p, ps[1..], flags);
          r.(done := r.done + 1)
  }

  function AllocateMap(s: Space, v: nat, p: nat, n: nat, flags: nat): (r: MapRun)
    requires flags < 256
    ensures r.done <= |Pieces(v, p, n)|
  {
    SplitIsExactTiling(v, p, n);
    MapPieces(s, v, p, Pieces(v, p, n), flags)
  }

  function Create(mem: Memory, pool: FP.Pool): (FP.Pool, Option<Space>) {
    var (pool', r) := FP.Allocate(pool);
    match r
    case None => (pool', None)
    case Some(f) => (pool', Some(Space(ClearFrame(mem, f), pool', f, [])))
  }

  /** Frees the frames in order; `None` when a free panics. */
  function FreeAll(pool: FP.Pool, fs: seq<nat>): Option<FP.Pool>
    decreases |fs|
  {
    if fs == [] then Some(pool)
    else
      match FP.Deallocate(pool, fs[0])
      case None => None
      case Some(pool') => FreeAll(pool', fs[1..])
  }

  /** Dropping the space drops its fields in order: the root frame, then `frames`. */
  function Drop(s: Space): Option<FP.Pool> {
    FreeAll(s.pool, Owned(s))
  }

  function Owned(s: Space): seq<nat> {
    [s.root] + s.frames
  }

  function Tables(s: Space): set<nat> {
    set f | f in Owned(s)
  }

  // ----- the invariant -----

  /** Every frame the pool can still hand out is all zero. The allocator does not
      clear frames and only the root table is initialised, so this is a
      hypothesis about memory that mapping preserves. */
  ghost predicate FreeFramesAreZero(s: Space) {
    forall f: nat, j: nat :: f < WORD && FP.IsFree(s.pool, f) && j < 512 ==> Read(s.mem, f, j) == 0
  }

  /** Frames fit the 44-bit field of an entry. */
  ghost predicate FramesFit(start: nat, end: nat) {
    forall f: nat :: f < WORD && FP.IsWithinRange(f, start, end) ==> f < PPN_LIMIT
  }

  /** `others` are the frames held by other clients of the allocator. */
  ghost predicate SpaceInv(start: nat, others: set<nat>, s: Space, tree: Tree) {
    && TreeInv(s.mem, s.root, tree)
    && tree.Values == Tables(s)
    && NoDuplicates(Owned(s))
    && others !! Tables(s)
    && FP.PoolInv(start, s.pool, others + Tables(s))
    && FramesFit(start, s.pool.end)
    && FreeFramesAreZero(s)
  }

  /** The owned frames, and nothing else, form the tree hanging off the root. */
  ghost predicate Good(start: nat, others: set<nat>, s: Space) {
    exists tree :: SpaceInv(start, others, s, tree)
  }

  lemma GoodSpaceIsTree(start: nat, others: set<nat>, s: Space)
    requires Good(start, others, s)
    ensures IsTree(s.mem, s.root, Tables(s))
    ensures NoDuplicates(Owned(s)) && others !! Tables(s)
    ensures FP.PoolInv(start, s.pool, others + Tables(s))
  {
    var tree :| SpaceInv(start, others, s, tree);
    InvIsTree(s.mem, s.root, tree);
  }

  ghost predicate SameWalk(s: Space, s': Space) {
    s'.root == s.root && forall x: nat :: x < VPN_LIMIT ==> Walk(s'.mem, s'.root, x) == Walk(s.mem, s.root, x)
  }

  ghost predicate PoolExhausted(s: Space) {
    forall f: nat :: !FP.IsFree(s.pool, f)
  }

  // ----- creating a space -----

  /** Whatever memory holds, the root table of a new space is all zero, so that the
      space translates nothing; no other frame is written. */
  lemma NewSpaceIsEmpty(mem: Memory, pool: FP.Pool)
    requires Create(mem, pool).1.Some?
    ensures var (pool', r) := Create(mem, pool);
            var s := r.value;
            && FP.Allocate(pool) == (pool', Some(s.root)) && s.pool == pool' && s.frames == []
            && (forall i: nat :: i < 512 ==> Read(s.mem, s.root, i) == 0)
            && (forall x: nat :: Walk(s.mem, s.root, x) == Fault)
            && (forall h: nat :: h != s.root ==> Page(s.mem, h) == Page(mem, h))
  {
    hide IsLeaf, IsReserved, EntryPpn, Offset, FP.Allocate, Page;
    var s := Create(mem, pool).1.value;
    ZeroWordIsInvalid();
    forall x: nat
      ensures Walk(s.mem, s.root, x) == Fault
    {
      EmptyEntryFaults(s.mem, s.root, 2, x);
    }
  }

  /** A new space owns one fresh frame and translates nothing. */
  lemma CreateIsGood(start: nat, others: set<nat>, mem: Memory, pool: FP.Pool)
    requires FP.PoolInv(start, pool, others) && FramesFit(start, pool.end)
    requires FreeFramesAreZero(Space(mem, pool, 0, []))
    ensures var (pool', r) := Create(mem, pool);
            match r
            case None => pool' == pool && forall f: nat :: !FP.IsFree(pool, f)
            case Some(s) =>
              Good(start, others, s) && s.frames == [] && s.pool.end == pool.end
              && forall x: nat :: x < VPN_LIMIT ==> Walk(s.mem, s.root, x) == Fault
  {
    hide Read, ClearFrame, IsValid, IsLeaf, IsReserved, EntryPpn, ChildEntry, Offset;
    FP.AllocateKeepsPartition(start, pool, others);
    var (pool', r) := Create(mem, pool);
    if r.Some? {
      var s := r.value;
      var tree: Tree := map[TOP := s.root];
      assert Tables(s) == {s.root};
      assert tree.Values == {s.root} by {
        assert tree[TOP] == s.root && tree.Keys == {TOP};
      }
      ZeroWordIsInvalid();
      assert TreeInv(s.mem, s.root, tree);
      assert FreeFramesAreZero(s);
      assert SpaceInv(start, others, s, tree);
      forall x: nat | x < VPN_LIMIT
        ensures Walk(s.mem, s.root, x) == Fault
      {
        EmptyEntryFaults(s.mem, s.root, 2, x);
      }
    }
  }

  lemma ZeroWordIsInvalid()
    ensures !IsValid(0)
  {
  }

  // ----- fetching a table -----

  /** Linking a frame from the pool keeps the invariant and every translation. */
  lemma LinkTableIsSilent(start: nat, others: set<nat>, s: Space, tree: Tree, nd: Node, i: nat)
    requires SpaceInv(start, others, s, tree)
    requires nd in tree && nd.level >= 1 && i < 512 && !IsValid(Read(s.mem, tree[nd], i))
    requires FP.Allocate(s.pool).1.Some?
    ensures var (pool', r) := FP.Allocate(s.pool);
            var s' := LinkTable(s, pool', tree[nd], i, r.value);
            && SpaceInv(start, others, s', tree[Child(nd, i) := r.value])
            && Child(nd, i) !in tree
            && SameWalk(s, s')
            && s'.pool == pool'
  {
    hide Read, Write, IsValid, ChildEntry, TreeInv;
    FP.AllocateKeepsPartition(start, s.pool, others + Tables(s));
    var (pool', r) := FP.Allocate(s.pool);
    var g := r.value;
    var s' := LinkTable(s, pool', tree[nd], i, g);
    var tree' := tree[Child(nd, i) := g];
    SetChild(s.mem, s.root, tree, nd, i, g);
    TablesGrow(s, s', g);
    assert tree'.Values == tree.Values + {g} by {
      assert tree'[Child(nd, i)] == g;
      assert forall m :: m in tree ==> tree'[m] == tree[m];
    }
    assert others + Tables(s') == others + Tables(s) + {g};
    assert tree[nd] in tree.Values;
  }

  lemma TablesGrow(s: Space, s': Space, g: nat)
    requires s'.root == s.root && s'.frames == s.frames + [g]
    ensures Tables(s') == Tables(s) + {g}
    ensures NoDuplicates(Owned(s)) && g !in Tables(s) ==> NoDuplicates(Owned(s'))
  {
    assert Owned(s') == Owned(s) + [g];
  }

  /** Tables are only added, and only at level `l` or above. */
  ghost predicate GrowsFrom(tree: Tree, tree': Tree, l: nat) {
    (forall nd :: nd in tree ==> nd in tree') && (forall nd :: nd in tree' && nd !in tree ==> nd.level >= l)
  }

  lemma GrowthJoins(tree: Tree, tree1: Tree, tree2: Tree, l: nat)
    requires GrowsFrom(tree, tree1, l) && GrowsFrom(tree1, tree2, l)
    ensures GrowsFrom(tree, tree2, l)
  {
  }

  lemma SameWalkJoins(s: Space, s1: Space, s2: Space)
    requires SameWalk(s, s1) && SameWalk(s1, s2)
    ensures SameWalk(s, s2)
  {
  }

  lemma SameWalkAsItself(s: Space)
    ensures SameWalk(s, s)
  {
  }

  lemma NoGrowth(tree: Tree, l: nat)
    ensures GrowsFrom(tree, tree, l)
  {
  }

  /** The fetch looks at the low 27 bits of a page number only. */
  lemma {:induction false} GetTableLowBits(s: Space, f: nat, l: nat, t: nat, x: nat)
    requires t <= l <= 2
    ensures GetTable(s, f, l, t, TableVpn(x)) == GetTable(s, f, l, t, x)
    decreases l
  {
    hide VpnIndex, TableVpn, Offset, Read, IsValid, EntryPpn, LinkTable, FP.Allocate;
    TableVpnKeepsIndex(x, l);
    if l > t {
      GetTableLowBits(s, EntryPpn(Read(s.mem, f, VpnIndex(x, l))), l - 1, t, x);
      var (pool', r) := FP.Allocate(s.pool);
      if r.Some? {
        GetTableLowBits(LinkTable(s, pool', f, VpnIndex(x, l), r.value), r.value, l - 1, t, x);
      }
    }
  }

  lemma GetTableUnfold(s: Space, f: nat, l: nat, t: nat, x: nat)
    requires t < l <= 2
    ensures var w := Read(s.mem, f, VpnIndex(x, l));
            var (pool', r) := FP.Allocate(s.pool);
            GetTable(s, f, l, t, x) ==
            if IsValid(w) then GetTable(s, EntryPpn(w), l - 1, t, x)
            else if r.None? then (s.(pool := pool'), None)
            else GetTable(LinkTable(s, pool', f, VpnIndex(x, l), r.value), r.value, l - 1, t, x)
  {
  }

  /** A valid entry above the wanted level, with no leaf above that level, is the
      pointer to the next table. */
  lemma FollowEntry(s: Space, tree: Tree, l: nat, t: nat, x: nat)
    requires TreeInv(s.mem, s.root, tree) && t < l <= 2 && NodeOf(x, l) in tree
    requires !LeafAbove(s.mem, tree[NodeOf(x, l)], l, t, x)
    requires IsValid(Read(s.mem, tree[NodeOf(x, l)], VpnIndex(x, l)))
    ensures NodeOf(x, l - 1) in tree
    ensures EntryPpn(Read(s.mem, tree[NodeOf(x, l)], VpnIndex(x, l))) == tree[NodeOf(x, l - 1)]
    ensures !LeafAbove(s.mem, tree[NodeOf(x, l - 1)], l - 1, t, x)
  {
    PointerLeadsToChild(s.mem, s.root, tree, l, x);
    hide IsValid, IsLeaf, IsReserved, Read, VpnIndex, EntryPpn, Key, TreeInv;
  }

  /** The next table, built from frame `g` of the pool. */
  function Linked1(s: Space, tree: Tree, l: nat, x: nat): (Space, Tree)
    requires 1 <= l <= 2 && NodeOf(x, l) in tree && FP.Allocate(s.pool).1.Some?
  {
    var (pool', r) := FP.Allocate(s.pool);
    (LinkTable(s, pool', tree[NodeOf(x, l)], VpnIndex(x, l), r.value), tree[NodeOf(x, l - 1) := r.value])
  }

  lemma LinkEntry(start: nat, others: set<nat>, s: Space, tree: Tree, l: nat, t: nat, x: nat)
    requires SpaceInv(start, others, s, tree) && t < l <= 2 && NodeOf(x, l) in tree
    requires !IsValid(Read(s.mem, tree[NodeOf(x, l)], VpnIndex(x, l)))
    requires FP.Allocate(s.pool).1.Some?
    ensures var (s1, tree1) := Linked1(s, tree, l, x);
            && SpaceInv(start, others, s1, tree1)
            && SameWalk(s, s1) && s1.pool.end == s.pool.end
            && GrowsFrom(tree, tree1, t) && NodeOf(x, l - 1) in tree1
            && s1 == LinkTable(s, FP.Allocate(s.pool).0, tree[NodeOf(x, l)], VpnIndex(x, l), tree1[NodeOf(x, l - 1)])
            && tree1[NodeOf(x, l - 1)] == FP.Allocate(s.pool).1.value
            && !LeafAbove(s1.mem, tree1[NodeOf(x, l - 1)], l - 1, t, x)
  {
    hide SpaceInv, TreeInv, Read, Write, IsValid, ChildEntry, EntryPpn, Key, Walk, VpnIndex, FP.PoolInv, FP.Allocate,
      Child, LinkTable, FreeFramesAreZero, LeafAbove;
    var (pool', r) := FP.Allocate(s.pool);
    NodeOfSplits(x, l);
    LinkTableIsSilent(start, others, s, tree, NodeOf(x, l), VpnIndex(x, l));
    FailedAllocation(start, others, s, tree);
    NewTableIsEmpty(start, others, s, tree, NodeOf(x, l), VpnIndex(x, l));
    ZeroTableHasNoLeaf(LinkTable(s, pool', tree[NodeOf(x, l)], VpnIndex(x, l), r.value).mem, r.value, l - 1, t, x);
  }

  lemma NewTableIsEmpty(start: nat, others: set<nat>, s: Space, tree: Tree, nd: Node, i: nat)
    requires SpaceInv(start, others, s, tree) && nd in tree && i < 512 && FP.Allocate(s.pool).1.Some?
    ensures var (pool', r) := FP.Allocate(s.pool);
            forall j: nat :: j < 512 ==> Read(LinkTable(s, pool', tree[nd], i, r.value).mem, r.value, j) == 0
  {
    hide Read, Write, IsValid, ChildEntry, TreeInv, FP.Allocate, FP.PoolInv;
    FP.AllocateKeepsPartition(start, s.pool, others + Tables(s));
    assert tree[nd] in tree.Values;
  }

  lemma ZeroTableHasNoLeaf(mem: Memory, f: nat, l: nat, t: nat, x: nat)
    requires l <= 2 && forall j: nat :: j < 512 ==> Read(mem, f, j) == 0
    ensures !LeafAbove(mem, f, l, t, x)
  {
    ZeroWordIsInvalid();
  }

  /** With no leaf in the way the fetch finds or builds exactly the level-`t` table
      of the page; success or not, no translation changes, and it fails only with
      the pool exhausted. */
  lemma {:induction false} GetTableFinds(start: nat, others: set<nat>, s: Space, tree: Tree, l: nat, t: nat, x: nat)
    returns (tree': Tree)
    requires SpaceInv(start, others, s, tree) && t <= l <= 2
    requires NodeOf(x, l) in tree && !LeafAbove(s.mem, tree[NodeOf(x, l)], l, t, x)
    ensures var (s', r) := GetTable(s, tree[NodeOf(x, l)], l, t, x);
            && SpaceInv(start, others, s', tree')
            && SameWalk(s, s')
            && s'.pool.end == s.pool.end
            && (r.Some? ==> NodeOf(x, t) in tree' && r.value == tree'[NodeOf(x, t)])
            && (r.None? ==> PoolExhausted(s'))
    ensures GrowsFrom(tree, tree', t)
    decreases l
  {
    tree' := tree;
    NoGrowth(tree, t);
    SameWalkAsItself(s);
    if l > t {
      hide SpaceInv, TreeInv, Read, IsValid, EntryPpn, Key, Walk, VpnIndex, FP.Allocate, LeafAbove, GetTable, LinkTable,
        PoolExhausted, GrowsFrom, NodeOf, Linked1, SameWalk;
      InvParts(start, others, s, tree);
      GetTableUnfold(s, tree[NodeOf(x, l)], l, t, x);
      if IsValid(Read(s.mem, tree[NodeOf(x, l)], VpnIndex(x, l))) {
        FollowEntry(s, tree, l, t, x);
        tree' := GetTableFinds(start, others, s, tree, l - 1, t, x);
      } else {
        FailedAllocation(start, others, s, tree);
        if FP.Allocate(s.pool).1.Some? {
          LinkEntry(start, others, s, tree, l, t, x);
          var (s1, tree1) := Linked1(s, tree, l, x);
          tree' := GetTableFinds(start, others, s1, tree1, l - 1, t, x);
          GrowthJoins(tree, tree1, tree', t);
          SameWalkJoins(s, s1, GetTable(s1, tree1[NodeOf(x, l - 1)], l - 1, t, x).0);
        }
      }
    }
  }

  lemma FailedAllocation(start: nat, others: set<nat>, s: Space, tree: Tree)
    requires SpaceInv(start, others, s, tree)
    ensures var (pool', r) := FP.Allocate(s.pool);
            && pool'.end == s.pool.end
            && (r.None? ==> pool' == s.pool && PoolExhausted(s))
  {
  }

  lemma InvParts(start: nat, others: set<nat>, s: Space, tree: Tree)
    requires SpaceInv(start, others, s, tree)
    ensures TreeInv(s.mem, s.root, tree) && FP.PoolInv(start, s.pool, others + Tables(s))
    ensures TOP in tree && tree[TOP] == s.root
    ensures forall nd :: nd in tree ==> nd.level <= 2
  {
  }
}
