/** The three-level table tree in physical memory. A ghost map names the tables:
    `Node(l, k)` is the level-`l` table that translates the pages with
    level-(l+1) key `k`. Two memory updates are studied here, linking a fresh
    child table and writing a leaf, by their effect on the hardware walk. */
module PageTree {
  import opened Words
  import opened Sv39

  datatype Node = Node(level: nat, key: nat)
  type Tree = map<Node, nat>

  const TOP := Node(2, 0)

  function NodeOf(x: nat, l: nat): Node
    requires l <= 2
  {
    Node(l, Key(x, l + 1))
  }

  function Child(nd: Node, i: nat): Node
    requires nd.level >= 1
  {
    Node(nd.level - 1, nd.key * 512 + i)
  }

  function Parent(nd: Node): Node {
    Node(nd.level + 1, nd.key / 512)
  }

  predicate GoodNode(nd: Node) {
    nd == TOP || (nd.level == 1 && nd.key < 512) || (nd.level == 0 && nd.key < 262144)
  }

  /** An entry in use is a properly aligned leaf or the pointer to the child table. */
  ghost predicate SlotOk(mem: Memory, tree: Tree, nd: Node, i: nat)
    requires nd in tree && nd.level <= 2 && i < 512
  {
    var w := Read(mem, tree[nd], i);
    || !IsValid(w)
    || (IsLeaf(w) && !IsReserved(w) && Offset(EntryPpn(w), nd.level) == 0)
    || (nd.level >= 1 && Child(nd, i) in tree && w == ChildEntry(tree[Child(nd, i)]))
  }

  ghost predicate LinkedToParent(mem: Memory, tree: Tree, nd: Node)
    requires nd in tree
  {
    Parent(nd) in tree && Read(mem, tree[Parent(nd)], nd.key % 512) == ChildEntry(tree[nd])
  }

  ghost predicate Injective(tree: Tree) {
    forall a, b :: a in tree && b in tree && tree[a] == tree[b] ==> a == b
  }

  ghost predicate TreeInv(mem: Memory, root: nat, tree: Tree) {
    && Linked(mem, root, tree)
    && Injective(tree)
    && (forall nd, i: nat :: nd in tree && i < 512 ==> SlotOk(mem, tree, nd, i))
  }

  /** Every table of `tree` is reached from the root through its parents. */
  ghost predicate Linked(mem: Memory, root: nat, tree: Tree) {
    && TOP in tree && tree[TOP] == root
    && (forall nd :: nd in tree ==> GoodNode(nd) && tree[nd] < PPN_LIMIT)
    && (forall nd :: nd in tree && nd.level < 2 ==> LinkedToParent(mem, tree, nd))
  }

  lemma NodeOfSplits(x: nat, l: nat)
    requires 1 <= l <= 2
    ensures Child(NodeOf(x, l), VpnIndex(x, l)) == NodeOf(x, l - 1)
    ensures Parent(NodeOf(x, l - 1)) == NodeOf(x, l) && NodeOf(x, l - 1).key % 512 == VpnIndex(x, l)
  {
    hide Key;
    KeySplit(x, l);
  }

  /** A page whose level-`l` table exists is translated by that table. */
  lemma {:induction false} WalkReaches(mem: Memory, root: nat, tree: Tree, l: nat, x: nat)
    requires Linked(mem, root, tree) && l <= 2 && x < VPN_LIMIT && NodeOf(x, l) in tree
    ensures Walk(mem, root, x) == WalkFrom(mem, tree[NodeOf(x, l)], l, x)
    decreases 2 - l
  {
    if l < 2 {
      hide Key, Read, Offset, IsValid, IsLeaf, IsReserved, EntryPpn, EntryFlags, ChildEntry;
      NodeOfSplits(x, l + 1);
      assert LinkedToParent(mem, tree, NodeOf(x, l));
      ChildEntryIsPointer(tree[NodeOf(x, l)]);
      WalkReaches(mem, root, tree, l + 1, x);
    } else {
      KeySplit(x, 2);
    }
  }

  /** A pointer entry on the path of `x` leads to the next table of the tree. */
  lemma PointerLeadsToChild(mem: Memory, root: nat, tree: Tree, l: nat, x: nat)
    requires TreeInv(mem, root, tree) && l <= 2 && NodeOf(x, l) in tree
    ensures var w := Read(mem, tree[NodeOf(x, l)], VpnIndex(x, l));
            IsValid(w) && !(IsLeaf(w) && !IsReserved(w)) ==>
              l >= 1 && NodeOf(x, l - 1) in tree && !IsLeaf(w) && !IsReserved(w)
              && EntryPpn(w) == tree[NodeOf(x, l - 1)]
  {
    hide Key, Read, Offset, IsValid, IsLeaf, IsReserved, EntryPpn, EntryFlags, ChildEntry;
    assert SlotOk(mem, tree, NodeOf(x, l), VpnIndex(x, l));
    if l >= 1 {
      NodeOfSplits(x, l);
      if NodeOf(x, l - 1) in tree {
        ChildEntryIsPointer(tree[NodeOf(x, l - 1)]);
      }
    }
  }

  /** The two memories agree on all cells of all tables except entry `i` of `nd`. */
  ghost predicate SameExcept(mem: Memory, mem': Memory, tree: Tree, nd: Node, i: nat) {
    forall m, j: nat :: m in tree && j < 512 && !(m == nd && j == i) ==>
      Read(mem', tree[m], j) == Read(mem, tree[m], j)
  }

  predicate PassesThrough(x: nat, nd: Node, i: nat)
    requires nd.level <= 2
  {
    Key(x, nd.level) == nd.key * 512 + i
  }

  lemma PassesThroughIsOnPath(x: nat, nd: Node, i: nat)
    requires nd.level <= 2 && i < 512
    ensures PassesThrough(x, nd, i) <==> NodeOf(x, nd.level) == nd && VpnIndex(x, nd.level) == i
  {
  }

  lemma CellUnchanged(mem: Memory, mem': Memory, tree: Tree, nd: Node, i: nat, l: nat, x: nat)
    requires SameExcept(mem, mem', tree, nd, i) && i < 512 && l <= 2 && nd.level <= 2
    requires NodeOf(x, l) in tree && !PassesThrough(x, nd, i)
    ensures Read(mem', tree[NodeOf(x, l)], VpnIndex(x, l)) == Read(mem, tree[NodeOf(x, l)], VpnIndex(x, l))
  {
    hide Key, Read;
    PassesThroughIsOnPath(x, nd, i);
  }

  lemma {:induction false} WalkUnchanged(mem: Memory, mem': Memory, root: nat, tree: Tree,
                                         nd: Node, i: nat, l: nat, x: nat)
    requires TreeInv(mem, root, tree) && nd in tree && nd.level <= 2 && i < 512
    requires SameExcept(mem, mem', tree, nd, i)
    requires l <= 2 && NodeOf(x, l) in tree && !PassesThrough(x, nd, i)
    ensures WalkFrom(mem', tree[NodeOf(x, l)], l, x) == WalkFrom(mem, tree[NodeOf(x, l)], l, x)
    decreases l
  {
    hide Key, Read, Offset, IsValid, IsLeaf, IsReserved, EntryPpn, EntryFlags, ChildEntry, TreeInv, SameExcept,
      NodeOf, PassesThrough;
    PointerLeadsToChild(mem, root, tree, l, x);
    CellUnchanged(mem, mem', tree, nd, i, l, x);
    if l >= 1 && NodeOf(x, l - 1) in tree {
      WalkUnchanged(mem, mem', root, tree, nd, i, l - 1, x);
    }
  }

  /** Writing an entry of one table leaves the entries of all others alone. */
  lemma WriteIsLocal(mem: Memory, tree: Tree, nd: Node, i: nat, w: nat)
    requires Injective(tree) && nd in tree && i < 512
    ensures SameExcept(mem, Write(mem, tree[nd], i, w), tree, nd, i)
  {
  }

  /** Writing an aligned leaf into an empty entry translates exactly the pages of
      that entry's block and changes no other translation. */
  lemma SetLeaf(mem: Memory, root: nat, tree: Tree, nd: Node, i: nat, w: nat)
    requires TreeInv(mem, root, tree) && nd in tree && i < 512
    requires !IsValid(Read(mem, tree[nd], i))
    requires IsValid(w) && IsLeaf(w) && !IsReserved(w) && Offset(EntryPpn(w), nd.level) == 0
    ensures var mem' := Write(mem, tree[nd], i, w);
            && TreeInv(mem', root, tree)
            && forall x: nat :: x < VPN_LIMIT ==>
                 Walk(mem', root, x) ==
                 if PassesThrough(x, nd, i) then Mapped(EntryPpn(w) + Offset(x, nd.level), EntryFlags(w))
                 else Walk(mem, root, x)
  {
    hide Key, Read, Write, Offset, IsValid, IsLeaf, IsReserved, EntryPpn, EntryFlags, ChildEntry;
    var mem' := Write(mem, tree[nd], i, w);
    WriteIsLocal(mem, tree, nd, i, w);
    LeafKeepsInv(mem, mem', root, tree, nd, i);
    hide TreeInv;
    forall x: nat | x < VPN_LIMIT
      ensures Walk(mem', root, x) ==
              if PassesThrough(x, nd, i) then Mapped(EntryPpn(w) + Offset(x, nd.level), EntryFlags(w))
              else Walk(mem, root, x)
    {
      PassesThroughIsOnPath(x, nd, i);
      if PassesThrough(x, nd, i) {
        WalkReaches(mem', root, tree, nd.level, x);
      } else {
        TopIsRoot(mem, root, tree, x);
        WalkUnchanged(mem, mem', root, tree, nd, i, 2, x);
      }
    }
  }

  lemma TopIsRoot(mem: Memory, root: nat, tree: Tree, x: nat)
    requires TreeInv(mem, root, tree) && x < VPN_LIMIT
    ensures NodeOf(x, 2) == TOP && TOP in tree && tree[TOP] == root
    ensures forall nd :: nd in tree ==> nd.level <= 2
  {
  }

  lemma LeafKeepsInv(mem: Memory, mem': Memory, root: nat, tree: Tree, nd: Node, i: nat)
    requires TreeInv(mem, root, tree) && nd in tree && i < 512
    requires SameExcept(mem, mem', tree, nd, i) && !IsValid(Read(mem, tree[nd], i))
    requires SlotOk(mem', tree, nd, i)
    ensures TreeInv(mem', root, tree)
  {
    hide Key, Read, Offset, IsValid, IsLeaf, IsReserved, EntryPpn, EntryFlags, ChildEntry;
    forall m, j: nat | m in tree && j < 512
      ensures SlotOk(mem', tree, m, j)
    {
      assert SlotOk(mem, tree, m, j);
    }
    forall m | m in tree && m.level < 2
      ensures LinkedToParent(mem', tree, m)
    {
      assert LinkedToParent(mem, tree, m);
      ChildEntryIsPointer(tree[m]);
    }
  }

  /** Linking an all-zero frame as the child of an empty entry adds one table to
      the tree and changes no translation. */
  lemma SetChild(mem: Memory, root: nat, tree: Tree, nd: Node, i: nat, f: nat)
    requires TreeInv(mem, root, tree) && nd in tree && i < 512 && nd.level >= 1
    requires !IsValid(Read(mem, tree[nd], i))
    requires f < PPN_LIMIT && f !in tree.Values
    requires forall j: nat :: j < 512 ==> Read(mem, f, j) == 0
    ensures Child(nd, i) !in tree
    ensures var mem' := Write(mem, tree[nd], i, ChildEntry(f));
            && TreeInv(mem', root, tree[Child(nd, i) := f])
            && forall x: nat :: x < VPN_LIMIT ==> Walk(mem', root, x) == Walk(mem, root, x)
  {
    hide Key, Read, Write, Offset, IsValid, IsLeaf, IsReserved, EntryPpn, EntryFlags, ChildEntry;
    var mem' := Write(mem, tree[nd], i, ChildEntry(f));
    var tree' := tree[Child(nd, i) := f];
    WriteIsLocal(mem, tree, nd, i, ChildEntry(f));
    assert forall m :: m in tree ==> tree[m] in tree.Values;
    assert forall j: nat :: j < 512 ==> Read(mem', f, j) == 0;
    ChildIsNew(mem, root, tree, nd, i);
    ChildKeepsInv(mem, mem', root, tree, nd, i, f);
    forall x: nat | x < VPN_LIMIT
      ensures Walk(mem', root, x) == Walk(mem, root, x)
    {
      hide TreeInv, Walk, SameExcept, Child;
      ChildKeepsWalk(mem, mem', root, tree, nd, i, f, x);
    }
  }

  lemma ChildKeepsWalk(mem: Memory, mem': Memory, root: nat, tree: Tree, nd: Node, i: nat, f: nat, x: nat)
    requires TreeInv(mem, root, tree) && nd in tree && i < 512 && nd.level >= 1 && x < VPN_LIMIT
    requires SameExcept(mem, mem', tree, nd, i) && !IsValid(Read(mem, tree[nd], i))
    requires TreeInv(mem', root, tree[Child(nd, i) := f])
    requires forall j: nat :: j < 512 ==> Read(mem', f, j) == 0
    ensures Walk(mem', root, x) == Walk(mem, root, x)
  {
    TopIsRoot(mem, root, tree, x);
    PassesThroughIsOnPath(x, nd, i);
    assert !IsValid(0);
    hide Key, Read, Offset, IsValid, IsLeaf, IsReserved, EntryPpn, EntryFlags, ChildEntry, WalkFrom, SameExcept;
    if PassesThrough(x, nd, i) {
      WalkReaches(mem, root, tree, nd.level, x);
      NodeOfSplits(x, nd.level);
      EmptyEntryFaults(mem, tree[nd], nd.level, x);
      EmptyEntryFaults(mem', f, nd.level - 1, x);
      hide TreeInv;
      WalkReaches(mem', root, tree[Child(nd, i) := f], nd.level - 1, x);
    } else {
      WalkUnchanged(mem, mem', root, tree, nd, i, 2, x);
    }
  }

  lemma EmptyEntryFaults(mem: Memory, f: nat, l: nat, x: nat)
    requires l <= 2 && !IsValid(Read(mem, f, VpnIndex(x, l)))
    ensures WalkFrom(mem, f, l, x) == Fault
  {
  }

  lemma ChildNode(nd: Node, i: nat)
    requires GoodNode(nd) && i < 512 && nd.level >= 1
    ensures Parent(Child(nd, i)) == nd && Child(nd, i).key % 512 == i
    ensures GoodNode(Child(nd, i)) && Child(nd, i).level <= 1
  {
    SlotOf4K(nd.key, i);
  }

  lemma ChildIsNew(mem: Memory, root: nat, tree: Tree, nd: Node, i: nat)
    requires TreeInv(mem, root, tree) && nd in tree && i < 512 && nd.level >= 1
    requires !IsValid(Read(mem, tree[nd], i))
    ensures Child(nd, i) !in tree
    ensures Parent(Child(nd, i)) == nd && Child(nd, i).key % 512 == i
    ensures GoodNode(Child(nd, i))
  {
    hide Key, Read, Offset, IsValid, IsLeaf, IsReserved, EntryPpn, EntryFlags, ChildEntry, Child, Parent, GoodNode,
      SlotOk;
    ChildNode(nd, i);
    if Child(nd, i) in tree {
      assert LinkedToParent(mem, tree, Child(nd, i));
      ChildEntryIsPointer(tree[Child(nd, i)]);
    }
  }

  lemma ChildKeepsInv(mem: Memory, mem': Memory, root: nat, tree: Tree, nd: Node, i: nat, f: nat)
    requires TreeInv(mem, root, tree) && nd in tree && i < 512 && nd.level >= 1
    requires SameExcept(mem, mem', tree, nd, i) && !IsValid(Read(mem, tree[nd], i))
    requires Read(mem', tree[nd], i) == ChildEntry(f)
    requires f < PPN_LIMIT && (forall m :: m in tree ==> tree[m] != f)
    requires forall j: nat :: j < 512 ==> Read(mem', f, j) == 0
    requires Child(nd, i) !in tree && Parent(Child(nd, i)) == nd && Child(nd, i).key % 512 == i
    requires GoodNode(Child(nd, i))
    ensures TreeInv(mem', root, tree[Child(nd, i) := f])
  {
    hide Key, Read, Offset, IsValid, IsLeaf, IsReserved, EntryPpn, EntryFlags, ChildEntry;
    var tree' := tree[Child(nd, i) := f];
    forall m, j: nat | m in tree' && j < 512
      ensures SlotOk(mem', tree', m, j)
    {
      ChildKeepsSlot(mem, mem', root, tree, nd, i, f, m, j);
    }
    hide SlotOk;
    forall m | m in tree' && m.level < 2
      ensures LinkedToParent(mem', tree', m)
    {
      if m in tree {
        assert LinkedToParent(mem, tree, m);
        ChildEntryIsPointer(tree[m]);
      }
    }
  }

  lemma ChildKeepsSlot(mem: Memory, mem': Memory, root: nat, tree: Tree, nd: Node, i: nat, f: nat, m: Node, j: nat)
    requires TreeInv(mem, root, tree) && nd in tree && i < 512 && nd.level >= 1
    requires SameExcept(mem, mem', tree, nd, i) && Read(mem', tree[nd], i) == ChildEntry(f)
    requires forall j: nat :: j < 512 ==> Read(mem', f, j) == 0
    requires Child(nd, i) !in tree && GoodNode(Child(nd, i))
    requires m in tree[Child(nd, i) := f] && j < 512
    ensures m.level <= 2 && SlotOk(mem', tree[Child(nd, i) := f], m, j)
  {
    assert !IsValid(0);
    hide Key, Read, Offset, IsValid, IsLeaf, IsReserved, EntryPpn, EntryFlags, ChildEntry;
    if m in tree {
      assert SlotOk(mem, tree, m, j);
    }
  }

  // ----- linking a frame that was not cleared -----

  /** The hardware gets nowhere from entry `w` of a level-`l` table. */
  ghost predicate DeadWord(mem: Memory, w: nat, l: nat)
    requires l <= 1
    decreases l, 0
  {
    || !IsValid(w) || IsReserved(w)
    || (if IsLeaf(w) then Offset(EntryPpn(w), l) != 0 else l == 0 || Dead(mem, EntryPpn(w), l - 1))
  }

  ghost predicate Dead(mem: Memory, f: nat, l: nat)
    requires l <= 1
    decreases l, 1
  {
    forall j: nat :: j < 512 ==> DeadWord(mem, Read(mem, f, j), l)
  }

  lemma PageBelow1(key: nat, i: nat, k: nat)
    requires key < 512 && i < 512 && k < 512
    ensures var x := (key * 512 + i) * 512 + k;
            x < VPN_LIMIT && x / 512 == key * 512 + i && x % 512 == k
  {
  }

  lemma PageBelow2(i: nat, j: nat, k: nat)
    requires i < 512 && j < 512 && k < 512
    ensures var x := (i * 512 + j) * 512 + k;
            x < VPN_LIMIT && x / 262144 == i && x / 512 % 512 == j && x % 512 == k
  {
    PageBelow1(i, j, k);
    DoubleDivide((i * 512 + j) * 512 + k);
    SlotOf4K(i, j);
  }

  /** A page of the block of entry `i` of `nd` that uses the given entries below. */
  lemma PageBelow(nd: Node, i: nat, j: nat, k: nat) returns (x: nat)
    requires GoodNode(nd) && nd.level >= 1 && i < 512 && j < 512 && k < 512
    ensures x < VPN_LIMIT && PassesThrough(x, nd, i) && VpnIndex(x, 0) == k
    ensures nd.level == 2 ==> VpnIndex(x, 1) == j
  {
    if nd.level == 1 {
      x := (nd.key * 512 + i) * 512 + k;
      PageBelow1(nd.key, i, k);
    } else {
      x := (i * 512 + j) * 512 + k;
      PageBelow2(i, j, k);
    }
  }

  lemma {:induction false} DeadFaults(mem: Memory, f: nat, l: nat, x: nat)
    requires l <= 1 && Dead(mem, f, l)
    ensures WalkFrom(mem, f, l, x) == Fault
    decreases l
  {
    hide Key, Read, IsValid, IsLeaf, IsReserved, EntryPpn, EntryFlags, Offset, VpnIndex;
    var w := Read(mem, f, VpnIndex(x, l));
    assert DeadWord(mem, w, l);
    if l == 1 && IsValid(w) && !IsReserved(w) && !IsLeaf(w) {
      DeadFaults(mem, EntryPpn(w), 0, x);
    }
  }

  /** A table that is not dead translates some page of the block it is linked to. */
  lemma LivePage(mem: Memory, f: nat, nd: Node, i: nat) returns (x: nat)
    requires GoodNode(nd) && nd.level >= 1 && i < 512 && !Dead(mem, f, nd.level - 1)
    ensures x < VPN_LIMIT && PassesThrough(x, nd, i) && WalkFrom(mem, f, nd.level - 1, x) != Fault
  {
    hide Key, Read, IsValid, IsLeaf, IsReserved, EntryPpn, EntryFlags, Offset, VpnIndex, PassesThrough;
    var j: nat :| j < 512 && !DeadWord(mem, Read(mem, f, j), nd.level - 1);
    var w := Read(mem, f, j);
    if nd.level == 1 {
      x := PageBelow(nd, i, 0, j);
    } else if IsLeaf(w) {
      x := PageBelow(nd, i, j, 0);
    } else {
      var k: nat :| k < 512 && !DeadWord(mem, Read(mem, EntryPpn(w), k), 0);
      x := PageBelow(nd, i, j, k);
    }
  }

  /** Turning an invalid word into a pointer does not matter to a leaf-level table. */
  lemma LeafTableIgnoresLink(mem: Memory, g: nat, i: nat, w: nat, h: nat, x: nat)
    requires i < 512 && !IsValid(Read(mem, g, i)) && IsValid(w) && !IsLeaf(w)
    ensures WalkFrom(Write(mem, g, i, w), h, 0, x) == WalkFrom(mem, h, 0, x)
  {
    hide Key, Read, Write, IsValid, IsLeaf, IsReserved, EntryPpn, EntryFlags, Offset, VpnIndex;
  }

  lemma WalkIgnoresLink(mem: Memory, g: nat, i: nat, w: nat, f: nat, l: nat, x: nat)
    requires i < 512 && !IsValid(Read(mem, g, i)) && IsValid(w) && !IsLeaf(w)
    requires f != g && l <= 1
    ensures WalkFrom(Write(mem, g, i, w), f, l, x) == WalkFrom(mem, f, l, x)
  {
    hide Key, Read, Write, IsValid, IsLeaf, IsReserved, EntryPpn, EntryFlags, Offset, VpnIndex;
    LeafTableIgnoresLink(mem, g, i, w, EntryPpn(Read(mem, f, VpnIndex(x, l))), x);
  }

  /** A table linked without clearing it changes no translation if and only if the
      hardware gets nowhere from any of its words. */
  lemma UnclearedTableIsSilentIff(mem: Memory, root: nat, tree: Tree, nd: Node, i: nat, f: nat)
    requires TreeInv(mem, root, tree) && nd in tree && i < 512 && 1 <= nd.level <= 2
    requires !IsValid(Read(mem, tree[nd], i)) && f < PPN_LIMIT && f !in tree.Values
    ensures var mem' := Write(mem, tree[nd], i, ChildEntry(f));
            (forall x: nat :: x < VPN_LIMIT ==> Walk(mem', root, x) == Walk(mem, root, x)) <==>
            Dead(mem, f, nd.level - 1)
  {
    hide Key, Read, Write, IsValid, IsLeaf, IsReserved, EntryPpn, EntryFlags, ChildEntry, VpnIndex, PassesThrough,
      Dead, WalkFrom, Offset;
    var mem' := Write(mem, tree[nd], i, ChildEntry(f));
    forall x: nat | x < VPN_LIMIT
      ensures if PassesThrough(x, nd, i)
              then Walk(mem, root, x) == Fault && Walk(mem', root, x) == WalkFrom(mem, f, nd.level - 1, x)
              else Walk(mem', root, x) == Walk(mem, root, x)
    {
      if PassesThrough(x, nd, i) {
        WalkIntoNewTable(mem, root, tree, nd, i, f, x);
      } else {
        WriteIsLocal(mem, tree, nd, i, ChildEntry(f));
        TopIsRoot(mem, root, tree, x);
        WalkUnchanged(mem, mem', root, tree, nd, i, 2, x);
      }
    }
    assert GoodNode(nd);
    hide TreeInv, Walk, GoodNode;
    if Dead(mem, f, nd.level - 1) {
      var l := nd.level - 1;
      forall x: nat
        ensures WalkFrom(mem, f, l, x) == Fault
      {
        DeadFaults(mem, f, l, x);
      }
    } else {
      var x := LivePage(mem, f, nd, i);
      assert Walk(mem', root, x) != Walk(mem, root, x);
    }
  }

  predicate IsUsableLeaf(w: nat) {
    IsValid(w) && IsLeaf(w) && !IsReserved(w)
  }

  lemma LinkKeepsLinks(mem: Memory, root: nat, tree: Tree, nd: Node, i: nat, w: nat)
    requires TreeInv(mem, root, tree) && nd in tree && i < 512
    requires !IsValid(Read(mem, tree[nd], i))
    ensures Linked(Write(mem, tree[nd], i, w), root, tree)
  {
    hide Key, Read, Write, IsValid, IsLeaf, IsReserved, EntryPpn, EntryFlags, ChildEntry;
    WriteIsLocal(mem, tree, nd, i, w);
    var mem' := Write(mem, tree[nd], i, w);
    forall m | m in tree && m.level < 2
      ensures LinkedToParent(mem', tree, m)
    {
      assert LinkedToParent(mem, tree, m);
      ChildEntryIsPointer(tree[m]);
    }
  }

  lemma WalkIntoNewTable(mem: Memory, root: nat, tree: Tree, nd: Node, i: nat, f: nat, x: nat)
    requires TreeInv(mem, root, tree) && nd in tree && i < 512 && 1 <= nd.level <= 2
    requires !IsValid(Read(mem, tree[nd], i)) && f < PPN_LIMIT && f !in tree.Values
    requires x < VPN_LIMIT && PassesThrough(x, nd, i)
    ensures Walk(mem, root, x) == Fault
    ensures Walk(Write(mem, tree[nd], i, ChildEntry(f)), root, x) == WalkFrom(mem, f, nd.level - 1, x)
  {
    var mem' := Write(mem, tree[nd], i, ChildEntry(f));
    PassesThroughIsOnPath(x, nd, i);
    LinkKeepsLinks(mem, root, tree, nd, i, ChildEntry(f));
    assert forall m :: m in tree ==> tree[m] in tree.Values;
    WalkReaches(mem, root, tree, nd.level, x);
    WalkReaches(mem', root, tree, nd.level, x);
    ChildEntryIsPointer(f);
    hide TreeInv, Linked, Key, Read, Write, IsValid, IsLeaf, IsReserved, EntryPpn, EntryFlags, ChildEntry;
    WalkIgnoresLink(mem, tree[nd], i, ChildEntry(f), f, nd.level - 1, x);
  }

  // ----- the shape of the tree, read off memory alone -----

  /** The level-`t` table found by following pointer entries for page `x`. */
  function TableOn(mem: Memory, f: nat, l: nat, x: nat, t: nat): Option<nat>
    requires l <= 2
    decreases l
  {
    if l <= t then Some(f)
    else
      var w := Read(mem, f, VpnIndex(x, l));
      if IsValid(w) && !IsLeaf(w) && !IsReserved(w) then TableOn(mem, EntryPpn(w), l - 1, x, t)
      else None
  }

  /** Pointers from the root reach exactly `tables`, each by one path only: no
      sharing, no cycles, depth at most three. */
  ghost predicate IsTree(mem: Memory, root: nat, tables: set<nat>) {
    && (forall x: nat, t: nat :: x < VPN_LIMIT && t <= 2 && TableOn(mem, root, 2, x, t).Some? ==>
          TableOn(mem, root, 2, x, t).value in tables)
    && (forall f :: f in tables ==>
          exists x: nat, t: nat :: x < VPN_LIMIT && t <= 2 && TableOn(mem, root, 2, x, t) == Some(f))
    && (forall x: nat, t: nat, y: nat, u: nat ::
          x < VPN_LIMIT && t <= 2 && y < VPN_LIMIT && u <= 2
          && TableOn(mem, root, 2, x, t).Some? && TableOn(mem, root, 2, x, t) == TableOn(mem, root, 2, y, u)
          ==> t == u && Key(x, t + 1) == Key(y, u + 1))
  }

  lemma {:induction false} TableOnFollowsTree(mem: Memory, root: nat, tree: Tree, l: nat, x: nat, t: nat)
    requires TreeInv(mem, root, tree) && t <= l <= 2 && x < VPN_LIMIT && NodeOf(x, l) in tree
    ensures TableOn(mem, tree[NodeOf(x, l)], l, x, t) ==
            if NodeOf(x, t) in tree then Some(tree[NodeOf(x, t)]) else None
    decreases l
  {
    if t < l {
      hide Key, Read, Offset, IsValid, IsLeaf, IsReserved, EntryPpn, EntryFlags, ChildEntry;
      NodeOfSplits(x, l);
      assert SlotOk(mem, tree, NodeOf(x, l), VpnIndex(x, l));
      if NodeOf(x, l - 1) in tree {
        assert LinkedToParent(mem, tree, NodeOf(x, l - 1));
        ChildEntryIsPointer(tree[NodeOf(x, l - 1)]);
        TableOnFollowsTree(mem, root, tree, l - 1, x, t);
      } else if t < l - 1 && NodeOf(x, 0) in tree {
        MissingAncestor(mem, root, tree, x);
      }
    }
  }

  lemma MissingAncestor(mem: Memory, root: nat, tree: Tree, x: nat)
    requires TreeInv(mem, root, tree) && NodeOf(x, 0) in tree
    ensures NodeOf(x, 1) in tree
  {
  }

  lemma NodeHasPage(nd: Node) returns (x: nat)
    requires GoodNode(nd)
    ensures x < VPN_LIMIT && NodeOf(x, nd.level) == nd
  {
    x := if nd.level == 2 then 0 else if nd.level == 1 then nd.key * 262144 else nd.key * 512;
  }

  lemma TableOnIs(mem: Memory, root: nat, tree: Tree, x: nat, t: nat)
    requires TreeInv(mem, root, tree) && x < VPN_LIMIT && t <= 2
    ensures TableOn(mem, root, 2, x, t) == if NodeOf(x, t) in tree then Some(tree[NodeOf(x, t)]) else None
  {
    hide TableOn;
    TopIsRoot(mem, root, tree, x);
    TableOnFollowsTree(mem, root, tree, 2, x, t);
  }

  lemma InvIsTree(mem: Memory, root: nat, tree: Tree)
    requires TreeInv(mem, root, tree)
    ensures IsTree(mem, root, tree.Values)
  {
    hide Key, Read, Offset, TableOn, IsValid, IsLeaf, IsReserved, EntryPpn, EntryFlags, ChildEntry;
    forall x: nat, t: nat | x < VPN_LIMIT && t <= 2
      ensures TableOn(mem, root, 2, x, t) == if NodeOf(x, t) in tree then Some(tree[NodeOf(x, t)]) else None
    {
      TableOnIs(mem, root, tree, x, t);
    }
    forall f | f in tree.Values
      ensures exists x: nat, t: nat :: x < VPN_LIMIT && t <= 2 && TableOn(mem, root, 2, x, t) == Some(f)
    {
      var nd :| nd in tree && tree[nd] == f;
      var x := NodeHasPage(nd);
      assert TableOn(mem, root, 2, x, nd.level) == Some(f);
    }
  }

  // ----- leaves above a table -----

  /** A leaf is met on the path of page `x` before its level-`t` table. */
  predicate LeafAbove(mem: Memory, f: nat, l: nat, t: nat, x: nat)
    requires l <= 2
    decreases l
  {
    l > t &&
    var w := Read(mem, f, VpnIndex(x, l));
    IsValid(w) && (IsLeaf(w) || LeafAbove(mem, EntryPpn(w), l - 1, t, x))
  }

  /** That is: the page is translated, but not by a table of that level. */
  lemma {:induction false} LeafAboveFrom(mem: Memory, root: nat, tree: Tree, l: nat, t: nat, x: nat)
    requires TreeInv(mem, root, tree) && t <= l <= 2 && NodeOf(x, l) in tree
    ensures LeafAbove(mem, tree[NodeOf(x, l)], l, t, x) <==>
            NodeOf(x, t) !in tree && WalkFrom(mem, tree[NodeOf(x, l)], l, x) != Fault
    decreases l
  {
    if t < l {
      hide Key, Read, Offset, IsValid, IsLeaf, IsReserved, EntryPpn, EntryFlags, ChildEntry;
      NodeOfSplits(x, l);
      assert SlotOk(mem, tree, NodeOf(x, l), VpnIndex(x, l));
      if NodeOf(x, l - 1) in tree {
        assert LinkedToParent(mem, tree, NodeOf(x, l - 1));
        ChildEntryIsPointer(tree[NodeOf(x, l - 1)]);
        LeafAboveFrom(mem, root, tree, l - 1, t, x);
      } else if t < l - 1 && NodeOf(x, 0) in tree {
        MissingAncestor(mem, root, tree, x);
      }
    }
  }

  lemma LeafAboveIff(mem: Memory, root: nat, tree: Tree, t: nat, x: nat)
    requires TreeInv(mem, root, tree) && t <= 2 && x < VPN_LIMIT
    ensures LeafAbove(mem, root, 2, t, x) <==> NodeOf(x, t) !in tree && Walk(mem, root, x) != Fault
  {
    hide LeafAbove;
    TopIsRoot(mem, root, tree, x);
    LeafAboveFrom(mem, root, tree, 2, t, x);
  }
}
