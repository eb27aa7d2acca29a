/** Quality of the split: the leaf entries it stands for, and why no tiling uses
    fewer. */
module MapBlocks {
  import opened Words
  import opened Sv39
  import opened MapSolver

  /** One leaf entry: the block of pages with level-`level` key `key`, so its
      virtual start is a multiple of the block size by construction. */
  datatype Block = Block(level: nat, key: nat)

  function First(b: Block): nat
    requires b.level <= 2
  {
    if b.level == 0 then b.key else if b.level == 1 then b.key * 512 else b.key * 262144
  }

  predicate Contains(b: Block, x: nat)
    requires b.level <= 2
  {
    Key(x, b.level) == b.key
  }

  lemma FirstIsContained(b: Block)
    requires b.level <= 2
    ensures Contains(b, First(b)) && Offset(First(b), b.level) == 0
    ensures forall x: nat :: Contains(b, x) <==> First(b) <= x < First(b) + Span(b.level)
  {
  }

  /** A block may be used for mapping [v, v+n) to `p` if it stays inside the
      range and its physical start is aligned too. */
  ghost predicate Legal(v: nat, p: nat, n: nat, b: Block) {
    && b.level <= 2
    && (forall x: nat :: Contains(b, x) ==> v <= x < v + n)
    && Offset(Shift(v, p, First(b)), b.level) == 0
  }

  ghost predicate IsCovered(bs: seq<Block>, x: nat) {
    exists b :: b in bs && b.level <= 2 && Contains(b, x)
  }

  /** Any set of entries that could map the range; overlaps are even allowed. */
  ghost predicate LegalCover(v: nat, p: nat, n: nat, bs: seq<Block>) {
    && (forall b :: b in bs ==> Legal(v, p, n, b))
    && (forall x: nat :: v <= x < v + n ==> IsCovered(bs, x))
  }

  ghost predicate AllWellFormed(ps: seq<Piece>) {
    forall pc :: pc in ps ==> WellFormed(pc)
  }

  function KeyBlocks(l: nat, from: nat, to: nat): (bs: seq<Block>)
    ensures |bs| == if from <= to then to - from else 0
    ensures forall k :: 0 <= k < |bs| ==> (bs[k] == Block(l, from + k))
  {
    seq(if from <= to then to - from else 0, (k: nat) => Block(l, from + k))
  }

  function PieceBlocks(pc: Piece): seq<Block>
    requires pc.level <= 2
  {
    KeyBlocks(pc.level, Key(pc.lo, pc.level), Key(pc.hi, pc.level))
  }

  /** The leaf entries of a split, in the order they are written. */
  function Blocks(ps: seq<Piece>): seq<Block>
    requires forall pc :: pc in ps ==> pc.level <= 2
  {
    if ps == [] then [] else
      assert ps[0] in ps;
      PieceBlocks(ps[0]) + Blocks(ps[1..])
  }

  lemma PieceBlockPages(pc: Piece, b: Block, x: nat)
    requires WellFormed(pc) && b in PieceBlocks(pc)
    ensures b.level == pc.level
    ensures Contains(b, x) ==> pc.lo <= x < pc.hi
    ensures pc.lo <= First(b) < pc.hi
  {
  }

  lemma KeyInPiece(pc: Piece, x: nat)
    requires WellFormed(pc)
    ensures Key(pc.lo, pc.level) <= Key(x, pc.level) < Key(pc.hi, pc.level) <==> pc.lo <= x < pc.hi
  {
  }

  /** Every block comes from a range, every page of a range is in one of its blocks. */
  lemma {:induction false} BlocksOfPieces(ps: seq<Piece>)
    requires AllWellFormed(ps)
    ensures forall b :: b in Blocks(ps) ==> exists pc :: pc in ps && b in PieceBlocks(pc)
    ensures forall x: nat, pc :: pc in ps && pc.lo <= x < pc.hi ==>
              Block(pc.level, Key(x, pc.level)) in Blocks(ps)
  {
    if ps != [] {
      BlocksOfPieces(ps[1..]);
      forall x: nat, pc | pc in ps && pc.lo <= x < pc.hi
        ensures Block(pc.level, Key(x, pc.level)) in Blocks(ps)
      {
        if pc == ps[0] {
          assert WellFormed(pc);
          KeyInPiece(pc, x);
          var bs := PieceBlocks(pc);
          assert bs[Key(x, pc.level) - Key(pc.lo, pc.level)] == Block(pc.level, Key(x, pc.level));
        }
      }
    }
  }

  ghost predicate NoOverlap(bs: seq<Block>)
    requires forall b :: b in bs ==> b.level <= 2
  {
    forall i, j, x: nat :: 0 <= i < j < |bs| ==> !(Contains(bs[i], x) && Contains(bs[j], x))
  }

  /** Blocks of a range share no page with blocks of ranges apart from it. */
  lemma BlocksApart(pc: Piece, ps: seq<Piece>, b: Block, c: Block, x: nat)
    requires WellFormed(pc) && AllWellFormed(ps)
    requires forall q :: q in ps ==> Apart(pc, q)
    requires b in PieceBlocks(pc) && c in Blocks(ps) && b.level <= 2 && c.level <= 2
    ensures !(Contains(b, x) && Contains(c, x))
  {
    hide Key, First, Offset;
    BlocksOfPieces(ps);
    var q :| q in ps && c in PieceBlocks(q);
    PieceBlockPages(pc, b, x);
    PieceBlockPages(q, c, x);
  }

  lemma {:induction false} BlocksDoNotOverlap(ps: seq<Piece>)
    requires AllWellFormed(ps) && PairwiseApart(ps)
    ensures forall b :: b in Blocks(ps) ==> b.level <= 2
    ensures NoOverlap(Blocks(ps))
  {
    if ps != [] {
      hide Key, First, Offset;
      assert ps[0] in ps && AllWellFormed(ps[1..]);
      var head, tail := PieceBlocks(ps[0]), Blocks(ps[1..]);
      BlocksDoNotOverlap(ps[1..]);
      assert forall k :: 0 <= k < |ps[1..]| ==> ps[1..][k] == ps[k + 1];
      forall i, j, x: nat | 0 <= i < |head| && 0 <= j < |tail|
        ensures !(Contains(head[i], x) && Contains(tail[j], x))
      {
        BlocksApart(ps[0], ps[1..], head[i], tail[j], x);
      }
      JoinDoesNotOverlap(head, tail);
    }
  }

  lemma JoinDoesNotOverlap(a: seq<Block>, b: seq<Block>)
    requires forall c :: c in a + b ==> c.level <= 2
    requires NoOverlap(a) && NoOverlap(b)
    requires forall i, j, x: nat :: 0 <= i < |a| && 0 <= j < |b| ==> !(Contains(a[i], x) && Contains(b[j], x))
    ensures NoOverlap(a + b)
  {
  }

  /** The split is itself a legal, non-overlapping cover. */
  lemma SplitIsLegalCover(v: nat, p: nat, n: nat)
    ensures var ps := Pieces(v, p, n);
            && AllWellFormed(ps)
            && LegalCover(v, p, n, Blocks(ps))
            && (forall b :: b in Blocks(ps) ==> b.level <= 2)
            && NoOverlap(Blocks(ps))
  {
    hide Pieces, Shift, Offset;
    var ps := Pieces(v, p, n);
    SplitIsExactTiling(v, p, n);
    BlocksOfPieces(ps);
    BlocksDoNotOverlap(ps);
    var bs := Blocks(ps);
    forall b | b in bs
      ensures Legal(v, p, n, b)
    {
      var pc :| pc in ps && b in PieceBlocks(pc);
      FirstIsContained(b);
      PieceBlockPages(pc, b, First(b));
      ShiftKeepsAlignment(v, p, First(b), b.level);
      forall x: nat | Contains(b, x)
        ensures v <= x < v + n
      {
        PieceBlockPages(pc, b, x);
      }
    }
    forall x: nat | v <= x < v + n
      ensures IsCovered(bs, x)
    {
      assert Covers(ps, x);
      var pc :| pc in ps && pc.lo <= x < pc.hi;
      assert Block(pc.level, Key(x, pc.level)) in bs;
    }
  }

  // ----- optimality -----

  lemma LegalBlockLevel(v: nat, p: nat, n: nat, b: Block)
    requires n > 0 && Legal(v, p, n, b)
    ensures b.level <= TopLevel(v, p, n)
  {
    FirstIsContained(b);
    ShiftKeepsAlignment(v, p, First(b), b.level);
    var last := First(b) + Span(b.level) - 1;
    assert Contains(b, last);
    assert Contains(b, First(b));
    assert n >= Span(b.level);
  }

  lemma LowerPieceIsBelow(v: nat, p: nat, n: nat, pc: Piece)
    requires pc in Pieces(v, p, n) && n > 0 && pc.level < TopLevel(v, p, n)
    ensures pc in Below(v, v + n, TopLevel(v, p, n) - 1)
  {
  }

  lemma PieceBelowTop(v: nat, p: nat, n: nat, pc: Piece)
    requires pc in Pieces(v, p, n) && n > 0 && pc.level < TopLevel(v, p, n)
    ensures pc.level <= 1 && IsRaggedEnd(v, v + n, pc)
  {
    hide Pieces, Below, Offset, RoundUp, RoundDown, TopLevel, TableEnd;
    var t := TopLevel(v, p, n);
    LowerPieceIsBelow(v, p, n, pc);
    TopRange(v, p, n);
    BelowTiles(v, v + n, t - 1);
    assert GoodEnds(v, v + n, t - 1, Below(v, v + n, t - 1));
  }

  /** Every range of the split holds maximal blocks: no legal block of a higher
      level touches it. */
  lemma PieceIsMaximal(v: nat, p: nat, n: nat, pc: Piece, b: Block, x: nat)
    requires pc in Pieces(v, p, n) && Legal(v, p, n, b)
    requires pc.lo <= x < pc.hi && Contains(b, x)
    ensures b.level <= pc.level
  {
    hide Pieces, Offset, RoundUp, RoundDown, Shift, TopLevel, Key, First;
    LegalBlockLevel(v, p, n, b);
    if b.level > pc.level {
      PieceBelowTop(v, p, n, pc);
      FirstIsContained(b);
      var first, end := First(b), First(b) + Span(b.level);
      assert Contains(b, first) && Contains(b, end - 1);
      BlockEndsAligned(b, pc.level + 1);
      Roundings(v, pc.level + 1, first);
      Roundings(v + n, pc.level + 1, end);
    }
  }

  lemma BlockEndsAligned(b: Block, l: nat)
    requires l <= b.level <= 2
    ensures Offset(First(b), l) == 0 && Offset(First(b) + Span(b.level), l) == 0
  {
    if b.level == 1 {
      MultipleOf512(b.key);
    } else if b.level == 2 {
      assert b.key * 262144 == (b.key * 512) * 512;
      MultipleOf512(b.key * 512);
      MultipleOf262144(b.key);
    }
  }

  lemma MultipleOf512(k: nat)
    ensures k * 512 % 512 == 0 && (k * 512 + 512) % 512 == 0 && (k * 512 + 262144) % 512 == 0
  {
  }

  lemma MultipleOf262144(k: nat)
    ensures k * 262144 % 262144 == 0 && (k * 262144 + 262144) % 262144 == 0
  {
  }

  /** Nested keys: a block of lower or equal level that shares a page with a
      block lies inside it. */
  lemma LowerBlockIsNested(b: Block, c: Block, x: nat, y: nat)
    requires b.level <= c.level <= 2
    requires Contains(b, x) && Contains(c, x) && Contains(b, y)
    ensures Contains(c, y)
  {
    if c.level == 1 {
      assert b.level == 0 || b.level == 1;
    } else if c.level == 2 {
      if b.level == 1 {
        assert x / 512 / 512 == x / 262144 && y / 512 / 512 == y / 262144;
      }
    }
  }

  /** An injection between index ranges. */
  lemma {:induction false} Pigeonhole(f: seq<nat>, k: nat)
    requires forall i :: 0 <= i < |f| ==> f[i] < k
    requires NoDuplicates(f)
    ensures |f| <= k
    decreases k
  {
    if |f| > 0 {
      assert f[0] < k;
      if i :| 0 <= i < |f| && f[i] == k - 1 {
        var rest := f[..i] + f[i + 1..];
        assert forall j :: 0 <= j < |rest| ==> rest[j] == f[if j < i then j else j + 1];
        Pigeonhole(rest, k - 1);
      } else {
        Pigeonhole(f, k - 1);
      }
    }
  }

  ghost function CoverIndex(bs: seq<Block>, x: nat): (i: nat)
    requires IsCovered(bs, x)
    ensures i < |bs| && bs[i].level <= 2 && Contains(bs[i], x)
  {
    var b :| b in bs && b.level <= 2 && Contains(b, x);
    var i :| 0 <= i < |bs| && bs[i] == b;
    i
  }

  /** No legal cover of the range uses fewer leaf entries than the split. */
  lemma SplitIsOptimal(v: nat, p: nat, n: nat, cover: seq<Block>)
    requires LegalCover(v, p, n, cover)
    ensures AllWellFormed(Pieces(v, p, n))
    ensures |Blocks(Pieces(v, p, n))| <= |cover|
  {
    hide Pieces, Shift, Offset, Key, First, TopLevel;
    var ps := Pieces(v, p, n);
    SplitIsLegalCover(v, p, n);
    var bs := Blocks(ps);
    forall i | 0 <= i < |bs|
      ensures v <= First(bs[i]) < v + n
    {
      assert bs[i] in bs;
      FirstIsContained(bs[i]);
    }
    assert forall i :: 0 <= i < |bs| ==> IsCovered(cover, First(bs[i]));
    var f := seq(|bs|, i requires 0 <= i < |bs| => CoverIndex(cover, First(bs[i])));
    forall i, j | 0 <= i < j < |bs|
      ensures f[i] != f[j]
    {
      if f[i] == f[j] {
        var b := cover[f[i]];
        CoverBlockInside(v, p, n, bs[i], b);
        FirstIsContained(bs[j]);
        LowerBlockIsNested(b, bs[i], First(bs[i]), First(bs[j]));
      }
    }
    Pigeonhole(f, |cover|);
  }

  /** A legal block holding the first page of one of the split's blocks has at
      most that block's level. */
  lemma CoverBlockInside(v: nat, p: nat, n: nat, c: Block, b: Block)
    requires AllWellFormed(Pieces(v, p, n))
    requires c in Blocks(Pieces(v, p, n)) && c.level <= 2 && Legal(v, p, n, b)
    requires Contains(b, First(c))
    ensures b.level <= c.level && Contains(c, First(c))
  {
    hide Pieces, Shift, Offset, Key, First;
    var ps := Pieces(v, p, n);
    BlocksOfPieces(ps);
    var pc :| pc in ps && c in PieceBlocks(pc);
    FirstIsContained(c);
    PieceBlockPages(pc, c, First(c));
    PieceIsMaximal(v, p, n, pc, b, First(c));
  }
}
