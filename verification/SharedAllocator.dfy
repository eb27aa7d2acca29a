/** Two address spaces over one frame allocator and one memory, as the source makes
    them by cloning the handle of the allocator: a space writes its own frames only, so
    neither disturbs the other. */
module SharedAllocator {
  import opened Words
  import opened Sv39
  import opened MapSolver
  import opened PageTree
  import opened AddressSpace
  import opened MapTheorems
  import opened SpaceRuns
  import opened LeafFollowing
  import FP = FramePool

  // ----- a call writes own frames only -----

  lemma {:induction false} FetchKeepsTables(s: Space, f: nat, l: nat, t: nat, x: nat)
    requires t <= l <= 2
    ensures Tables(s) <= Tables(GetTable(s, f, l, t, x).0)
    decreases l
  {
    if l > t {
      hide VpnIndex, IsValid, EntryPpn, Read, Write, ChildEntry, FP.Allocate, GetTable, Tables;
      GetTableUnfold(s, f, l, t, x);
      var i := VpnIndex(x, l);
      if IsValid(Read(s.mem, f, i)) {
        FetchKeepsTables(s, EntryPpn(Read(s.mem, f, i)), l - 1, t, x);
      } else {
        var (pool', r) := FP.Allocate(s.pool);
        if r.Some? {
          var s1 := LinkTable(s, pool', f, i, r.value);
          TablesGrow(s, s1, r.value);
          FetchKeepsTables(s1, r.value, l - 1, t, x);
        } else {
          SameFrames(s, s.(pool := pool'));
        }
      }
    }
  }

  lemma SameFrames(s: Space, s1: Space)
    requires s1.root == s.root && s1.frames == s.frames
    ensures Tables(s1) == Tables(s)
  {
    assert Owned(s1) == Owned(s);
  }

  lemma TreeFrameIsOwned(start: nat, others: set<nat>, s: Space, tree: Tree, nd: Node)
    requires SpaceInv(start, others, s, tree) && nd in tree
    ensures tree[nd] in Tables(s)
  {
    assert tree[nd] in tree.Values;
  }

  lemma LinkWritesOneFrame(s: Space, pool': FP.Pool, f: nat, i: nat, g: nat, h: nat)
    requires i < 512 && h != f
    ensures Page(LinkTable(s, pool', f, i, g).mem, h) == Page(s.mem, h)
  {
  }

  lemma {:induction false} FetchWritesOwn(start: nat, others: set<nat>, s: Space, tree: Tree, l: nat, t: nat, x: nat,
                                          h: nat)
    requires SpaceInv(start, others, s, tree) && t <= l <= 2
    requires NodeOf(x, l) in tree && !LeafAbove(s.mem, tree[NodeOf(x, l)], l, t, x)
    requires h !in Tables(GetTable(s, tree[NodeOf(x, l)], l, t, x).0)
    ensures Page(GetTable(s, tree[NodeOf(x, l)], l, t, x).0.mem, h) == Page(s.mem, h)
    decreases l
  {
    if l > t {
      hide SpaceInv, TreeInv, Read, IsValid, EntryPpn, Key, Walk, VpnIndex, FP.Allocate, LeafAbove, GetTable,
        LinkTable, GrowsFrom, NodeOf, Linked1, SameWalk, Page, Tables;
      InvParts(start, others, s, tree);
      TreeFrameIsOwned(start, others, s, tree, NodeOf(x, l));
      FetchKeepsTables(s, tree[NodeOf(x, l)], l, t, x);
      GetTableUnfold(s, tree[NodeOf(x, l)], l, t, x);
      if IsValid(Read(s.mem, tree[NodeOf(x, l)], VpnIndex(x, l))) {
        FollowEntry(s, tree, l, t, x);
        FetchWritesOwn(start, others, s, tree, l - 1, t, x, h);
      } else if FP.Allocate(s.pool).1.Some? {
        LinkEntry(start, others, s, tree, l, t, x);
        var (s1, tree1) := Linked1(s, tree, l, x);
        FetchWritesOwn(start, others, s1, tree1, l - 1, t, x, h);
        var (pool', r) := FP.Allocate(s.pool);
        LinkWritesOneFrame(s, pool', tree[NodeOf(x, l)], VpnIndex(x, l), r.value, h);
      }
    } else {
      FetchStops(s, tree[NodeOf(x, l)], l, x);
    }
  }

  lemma PieceWritesOwn(start: nat, others: set<nat>, s: Space, tree: Tree, v: nat, p: nat, pc: Piece, flags: nat,
                       h: nat)
    requires SpaceInv(start, others, s, tree) && pc.level <= 2 && flags < 256 && Unblocked(s, pc)
    requires h !in Tables(MapPiece(s, v, p, pc, flags).0)
    ensures Page(MapPiece(s, v, p, pc, flags).0.mem, h) == Page(s.mem, h)
    ensures Tables(s) <= Tables(MapPiece(s, v, p, pc, flags).0)
  {
    var l, x := pc.level, TableVpn(pc.lo);
    InvParts(start, others, s, tree);
    TopIsRoot(s.mem, s.root, tree, x);
    hide SpaceInv, TreeInv, GetTable, WriteEntries, VpnIndexRange, NodeOf, FP.PoolInv, LeafAbove, TableVpn, GrowsFrom,
      Page, Tables, SameWalk, PoolExhausted;
    GetTableLowBits(s, s.root, 2, l, pc.lo);
    var (s1, table) := GetTable(s, s.root, 2, l, pc.lo);
    FetchKeepsTables(s, s.root, 2, l, x);
    SameFrames(s1, MapPiece(s, v, p, pc, flags).0);
    FetchWritesOwn(start, others, s, tree, 2, l, x, h);
    var tree1 := GetTableFinds(start, others, s, tree, 2, l, x);
    if table.Some? {
      var (i, e) := VpnIndexRange(pc.lo, pc.hi, l);
      TreeFrameIsOwned(start, others, s1, tree1, NodeOf(x, l));
      WriteEntriesTouchesOneFrame(s1.mem, table.value, v, p, pc.lo, l, i, e, flags, h);
    }
  }

  lemma {:induction false} PiecesWriteOwn(start: nat, others: set<nat>, s: Space, tree: Tree, v: nat, p: nat,
                                          ps: seq<Piece>, flags: nat, h: nat)
    requires SpaceInv(start, others, s, tree) && AllPieceOk(v, p, ps) && LeafFlags(flags)
    requires flags < 256 && (forall pc :: pc in ps ==> pc.level <= 2) && Passable(s, v, p, ps, flags)
    requires h !in Tables(MapPieces(s, v, p, ps, flags).space)
    ensures Page(MapPieces(s, v, p, ps, flags).space.mem, h) == Page(s.mem, h)
    ensures Tables(s) <= Tables(MapPieces(s, v, p, ps, flags).space)
    decreases |ps|
  {
    hide SpaceInv, LeafFlags, TargetsFree, Walk, Unblocked, MapPiece, PoolExhausted, GrowsFrom, PieceOk, PieceOverlay,
      PartOverlay, SameWalk, Page, Tables;
    if ps == [] {
      MapNothing(s, v, p, flags);
    } else {
      MapPiecesUnfold(s, v, p, ps, flags);
      hide MapPieces;
      var (s1, outcome) := MapPiece(s, v, p, ps[0], flags);
      var tree1 := MapPieceMaps(start, others, s, tree, v, p, ps[0], flags);
      if outcome == Ok {
        PiecesWriteOwn(start, others, s1, tree1, v, p, ps[1..], flags, h);
      }
      PieceWritesOwn(start, others, s, tree, v, p, ps[0], flags, h);
    }
  }

  /** A call leaves every frame alone that the space does not own afterwards: those of
      other owners, the free ones and the data. */
  lemma CallWritesOwnFrames(start: nat, others: set<nat>, s: Space, v: nat, p: nat, n: nat, flags: nat, h: nat)
    requires Good(start, others, s) && Mappable(s, v, p, n, flags)
    ensures flags < 256
    ensures h !in Tables(AllocateMap(s, v, p, n, flags).space) ==>
              Page(AllocateMap(s, v, p, n, flags).space.mem, h) == Page(s.mem, h)
  {
    assert flags < 256;
    hide Pieces, SpaceInv, MapPieces, LeafFlags, Passable, Page, Tables;
    var tree :| SpaceInv(start, others, s, tree);
    PiecesAreOk(v, p, n);
    if h !in Tables(AllocateMap(s, v, p, n, flags).space) {
      PiecesWriteOwn(start, others, s, tree, v, p, Pieces(v, p, n), flags, h);
    }
  }

  // ----- two spaces -----

  /** Both spaces see the same memory and pool, and each counts the other's frames
      among those of others. */
  ghost predicate PairGood(start: nat, others: set<nat>, a: Space, b: Space) {
    && a.mem == b.mem && a.pool == b.pool
    && Good(start, others + Tables(b), a) && Good(start, others + Tables(a), b)
  }

  /** How `b` sees the world after a call on `a` has left it as in `a'`. */
  function Beside(a': Space, b: Space): Space {
    b.(mem := a'.mem, pool := a'.pool)
  }

  lemma BesideIsGood(start: nat, others: set<nat>, a': Space, b: Space, mem: Memory, pool: FP.Pool)
    requires Good(start, others + Tables(b), a') && b.mem == mem && b.pool == pool && a'.pool.end == pool.end
    requires exists taken :: Good(start, others + taken, b)
    requires forall h :: h in Tables(b) ==> Page(a'.mem, h) == Page(mem, h)
    ensures Good(start, others + Tables(a'), Beside(a', b))
    ensures SameWalk(b, Beside(a', b))
  {
    hide Page, FP.PoolInv, TreeInv, FP.IsFree, Walk;
    var taken :| Good(start, others + taken, b);
    var tree :| SpaceInv(start, others + taken, b, tree);
    var other :| SpaceInv(start, others + Tables(b), a', other);
    var b' := Beside(a', b);
    assert forall nd :: nd in tree ==> tree[nd] in tree.Values;
    TreeReadsTables(mem, a'.mem, b.root, tree);
    assert Owned(b') == Owned(b) && Tables(b') == Tables(b);
    assert others + Tables(b) + Tables(a') == others + Tables(a') + Tables(b');
    assert SpaceInv(start, others + Tables(a'), b', tree);
    forall y: nat | y < VPN_LIMIT
      ensures Walk(b'.mem, b'.root, y) == Walk(b.mem, b.root, y)
    {
      SameTablesSameWalk(mem, a'.mem, b.root, tree, y);
    }
  }

  /** A call on one space keeps both in order and changes no translation of the other. */
  lemma CallKeepsPair(start: nat, others: set<nat>, a: Space, b: Space, v: nat, p: nat, n: nat, flags: nat)
    requires PairGood(start, others, a, b) && Mappable(a, v, p, n, flags)
    ensures flags < 256
    ensures var a' := AllocateMap(a, v, p, n, flags).space;
            PairGood(start, others, a', Beside(a', b)) && SameWalk(b, Beside(a', b))
  {
    assert flags < 256;
    hide Page, Good, Mappable, CallEffect, AllocateMap, Tables, SameWalk;
    AllocateMapIsCorrect(start, others + Tables(b), a, v, p, n, flags);
    var a' := AllocateMap(a, v, p, n, flags).space;
    GoodSpaceIsTree(start, others + Tables(b), a');
    forall h | h in Tables(b)
      ensures Page(a'.mem, h) == Page(a.mem, h)
    {
      CallWritesOwnFrames(start, others + Tables(b), a, v, p, n, flags, h);
    }
    BesideIsGood(start, others, a', b, a.mem, a.pool);
    SameFrames(b, Beside(a', b));
  }

  // ----- interleaved runs -----

  datatype Turn = Turn(first: bool, q: Request)

  function PairStep(a: Space, b: Space, t: Turn): (Space, Space)
    requires t.q.flags < 256
  {
    if t.first then
      var a' := AllocateMap(a, t.q.v, t.q.p, t.q.n, t.q.flags).space;
      (a', Beside(a', b))
    else
      var b' := AllocateMap(b, t.q.v, t.q.p, t.q.n, t.q.flags).space;
      (Beside(b', a), b')
  }

  ghost function FlatsStep(a: Space, b: Space, fa: Flat, fb: Flat, t: Turn): (Flat, Flat)
    requires t.q.flags < 256
  {
    if t.first then (FlatStep(a, fa, t.q), fb) else (fa, FlatStep(b, fb, t.q))
  }

  ghost predicate PairRunOk(a: Space, b: Space, ts: seq<Turn>)
    requires forall t :: t in ts ==> t.q.flags < 256
    decreases |ts|
  {
    ts == [] ||
    (ts[0] in ts && Served(if ts[0].first then a else b, ts[0].q)
     && var (a1, b1) := PairStep(a, b, ts[0]);
        PairRunOk(a1, b1, ts[1..]))
  }

  function PairAfter(a: Space, b: Space, ts: seq<Turn>): (Space, Space)
    requires forall t :: t in ts ==> t.q.flags < 256
    decreases |ts|
  {
    if ts == [] then (a, b)
    else
      assert ts[0] in ts;
      var (a1, b1) := PairStep(a, b, ts[0]);
      PairAfter(a1, b1, ts[1..])
  }

  ghost function FlatsAfter(a: Space, b: Space, fa: Flat, fb: Flat, ts: seq<Turn>): (Flat, Flat)
    requires forall t :: t in ts ==> t.q.flags < 256
    decreases |ts|
  {
    if ts == [] then (fa, fb)
    else
      assert ts[0] in ts;
      var (a1, b1) := PairStep(a, b, ts[0]);
      var (fa1, fb1) := FlatsStep(a, b, fa, fb, ts[0]);
      FlatsAfter(a1, b1, fa1, fb1, ts[1..])
  }

  lemma RepresentsBeside(s: Space, s': Space, flat: Flat)
    requires Represents(s, flat) && SameWalk(s, s')
    ensures Represents(s', flat)
  {
    hide Walk;
  }

  lemma StepKeepsPair(start: nat, others: set<nat>, a: Space, b: Space, fa: Flat, fb: Flat, q: Request)
    requires PairGood(start, others, a, b) && Represents(a, fa) && Represents(b, fb) && Served(a, q)
    ensures q.flags < 256
    ensures var a' := AllocateMap(a, q.v, q.p, q.n, q.flags).space;
            && PairGood(start, others, a', Beside(a', b))
            && Represents(a', FlatStep(a, fa, q)) && Represents(Beside(a', b), fb)
  {
    hide Good, Represents, FlatStep, AllocateMap, Mappable, SameWalk, Tables;
    StepRefinesFlatMap(start, others + Tables(b), a, fa, q);
    CallKeepsPair(start, others, a, b, q.v, q.p, q.n, q.flags);
    var a' := AllocateMap(a, q.v, q.p, q.n, q.flags).space;
    RepresentsBeside(b, Beside(a', b), fb);
  }

  /** Over any interleaving of served requests to two spaces that share allocator and
      memory, each refines a flat map of its own, updated by its own requests only. */
  lemma {:induction false} InterleavedRunsRefine(start: nat, others: set<nat>, a: Space, b: Space, fa: Flat, fb: Flat,
                                                 ts: seq<Turn>)
    requires PairGood(start, others, a, b) && Represents(a, fa) && Represents(b, fb)
    requires (forall t :: t in ts ==> t.q.flags < 256) && PairRunOk(a, b, ts)
    ensures var (a', b') := PairAfter(a, b, ts);
            var (fa', fb') := FlatsAfter(a, b, fa, fb, ts);
            PairGood(start, others, a', b') && Represents(a', fa') && Represents(b', fb')
    decreases |ts|
  {
    if ts != [] {
      hide Good, Represents, Served, FlatStep, AllocateMap, Beside, PairGood;
      assert ts[0] in ts;
      if ts[0].first {
        StepKeepsPair(start, others, a, b, fa, fb, ts[0].q);
      } else {
        PairIsSymmetric(start, others, a, b);
        StepKeepsPair(start, others, b, a, fb, fa, ts[0].q);
        var b1 := AllocateMap(b, ts[0].q.v, ts[0].q.p, ts[0].q.n, ts[0].q.flags).space;
        PairIsSymmetric(start, others, b1, Beside(b1, a));
      }
      var (a1, b1) := PairStep(a, b, ts[0]);
      var (fa1, fb1) := FlatsStep(a, b, fa, fb, ts[0]);
      InterleavedRunsRefine(start, others, a1, b1, fa1, fb1, ts[1..]);
    }
  }

  lemma PairIsSymmetric(start: nat, others: set<nat>, a: Space, b: Space)
    requires PairGood(start, others, a, b)
    ensures PairGood(start, others, b, a)
  {
  }

  /** The hypothesis is met: a second space created beside a good one over zero frames
      makes a pair. */
  lemma SecondSpaceMakesPair(start: nat, others: set<nat>, a: Space)
    requires Good(start, others, a) && Create(a.mem, a.pool).1.Some?
    ensures var b := Create(a.mem, a.pool).1.value;
            && PairGood(start, others, Beside(b, a), b) && SameWalk(a, Beside(b, a))
            && Represents(b, map[])
  {
    hide FP.PoolInv, FP.Allocate, TreeInv, Page, FP.IsFree, Walk, ClearFrame, IsTree;
    var tree :| SpaceInv(start, others, a, tree);
    CreateIsGood(start, others + Tables(a), a.mem, a.pool);
    var b := Create(a.mem, a.pool).1.value;
    assert Tables(a) + Tables(b) == Tables(b) + Tables(a);
    GoodSpaceIsTree(start, others + Tables(a), b);
    assert b.root in Owned(b);
    assert b.root in Tables(b);
    forall h | h in Tables(a)
      ensures Page(b.mem, h) == Page(a.mem, h)
    {
      assert h != b.root;
    }
    assert Good(start, others + {}, a) by { assert others + {} == others; }
    BesideIsGood(start, others, b, a, a.mem, a.pool);
    SameFrames(a, Beside(b, a));
  }
}
