/** `MapPairs::solve` of 03-virt-addr-kern/src/mm.rs: splits the mapping of the
    `n` virtual pages from `v` to the physical pages from `p` into page ranges
    of 1G, 2M and 4K entries. */
module MapSolver {
  import opened Words
  import opened Sv39

  /** The source's `(PageLevel, Range<VirtPageNum>)`. */
  datatype Piece = Piece(level: nat, lo: nat, hi: nat)

  function RoundDown(x: nat, l: nat): nat
    requires l <= 2
  {
    x - Offset(x, l)
  }

  function RoundUp(x: nat, l: nat): nat
    requires l <= 2
  {
    RoundDown(x + Span(l) - 1, l)
  }

  /** Virtual and physical page numbers agree modulo the level-`l` block size. */
  predicate SameOffset(v: nat, p: nat, l: nat)
    requires l <= 2
  {
    Offset(Wrap(v - p), l) == 0
  }

  /** The highest level whose entries can be used at all. */
  function TopLevel(v: nat, p: nat, n: nat): (t: nat)
    requires n > 0
    ensures t <= 2
  {
    if SameOffset(v, p, 2) && n >= Span(2) then 2
    else if SameOffset(v, p, 1) && n >= Span(1) then 1
    else 0
  }

  /** The ragged ends left and right of the level-(l+1) part of [v, e). */
  function Below(v: nat, e: nat, l: nat): seq<Piece>
    requires l <= 1
  {
    (if RoundUp(v, l) == RoundUp(v, l + 1) then [] else [Piece(l, RoundUp(v, l), RoundUp(v, l + 1))])
    + (if RoundDown(e, l + 1) == RoundDown(e, l) then [] else [Piece(l, RoundDown(e, l + 1), RoundDown(e, l))])
    + (if l == 0 then [] else Below(v, e, l - 1))
  }

  function Pieces(v: nat, p: nat, n: nat): seq<Piece> {
    if n == 0 then []
    else
      var t := TopLevel(v, p, n);
      var (a, b) := (RoundUp(v, t), RoundDown(v + n, t));
      (if a == b then [] else [Piece(t, a, b)]) + (if t == 0 then [] else Below(v, v + n, t - 1))
  }

  // ----- the algorithm -----

  function VisitLevelsFrom(l: nat): (ls: seq<nat>)
    requires l <= 2
    ensures |ls| == l + 1 && forall k :: 0 <= k < |ls| ==> ls[k] == l - k
  {
    if l == 0 then [0] else if l == 1 then [1, 0] else [2, 1, 0]
  }

  /** The source's roundings agree with `RoundDown` and `RoundUp`. */
  lemma RoundingByDivision(x: nat, l: nat)
    requires l <= 2
    ensures Span(l) * (x / Span(l)) == RoundDown(x, l)
    ensures x % Span(l) == Offset(x, l)
  {
  }

  /** a * (x / a), as the source writes its roundings. */
  function DivideAndMultiply(x: nat, a: nat): nat
    requires a > 0
  {
    a * (x / a)
  }

  lemma EndsByDivision(v: nat, e: nat, l: nat)
    requires l <= 2
    ensures DivideAndMultiply(v + Span(l) - 1, Span(l)) == RoundUp(v, l)
    ensures DivideAndMultiply(e, Span(l)) == RoundDown(e, l)
  {
  }

  predicate Usable(v: nat, p: nat, n: nat, l: nat)
    requires l <= 2
  {
    SameOffset(v, p, l) && n >= Span(l)
  }

  lemma TopLevelIsFirstUsable(v: nat, p: nat, n: nat, l: nat)
    requires l <= 2 && Usable(v, p, n, l)
    requires forall m :: l < m <= 2 ==> !Usable(v, p, n, m)
    ensures TopLevel(v, p, n) == l
  {
    assert l < 2 ==> !Usable(v, p, n, 2);
    assert l < 1 ==> !Usable(v, p, n, 1);
  }

  /** Virtual page numbers come from 64-bit addresses, so they are below 2^52,
      and the end of the range must be a page number too; under these bounds no
      rounding wraps. */
  method Solve(v: nat, p: nat, n: nat) returns (ans: seq<Piece>)
    requires v < 0x10_0000_0000_0000 && p < WORD && v + n < WORD
    ensures ans == Pieces(v, p, n)
  {
    hide Offset, RoundDown, RoundUp, TopLevel, SameOffset, Wrap;
    ans := [];
    var levels := VisitLevelsFrom(2);
    for a := 0 to |levels|
      invariant ans == []
      invariant forall m :: 2 - a < m <= 2 ==> !Usable(v, p, n, m)
    {
      var i := levels[a];
      var align := Span(i);
      RoundingByDivision(Wrap(v - p), i);
      assert SameOffset(v, p, i) <==> Offset(Wrap(v - p), i) == 0 by { SameOffsetMeans(v, p, i); }
      if Wrap(v - p) % align != 0 || n < align {
        continue;
      }
      TopLevelIsFirstUsable(v, p, n, i);
      ans := SolveFrom(v, p, n, i);
      return;
    }
    assert n == 0 by {
      if n > 0 {
        SameOffsetMeans(v, p, 0);
        assert !Usable(v, p, n, 0);
        RoundingByDivision(Wrap(v - p), 0);
      }
    }
  }

  lemma SameOffsetMeans(v: nat, p: nat, l: nat)
    requires l <= 2
    ensures SameOffset(v, p, l) <==> Offset(Wrap(v - p), l) == 0
  {
  }

  /** What remains to be pushed after the level above `l + 1` has been handled. */
  function Rest(v: nat, e: nat, i: nat, b: nat): seq<Piece>
    requires i <= 2 && 0 < b
  {
    if i < b then [] else Below(v, e, i - b)
  }

  lemma RestStep(v: nat, e: nat, i: nat, b: nat)
    requires 0 < b <= i <= 2
    ensures var j := i - b;
            Rest(v, e, i, b) ==
            (if RoundUp(v, j) != RoundUp(v, j + 1) then [Piece(j, RoundUp(v, j), RoundUp(v, j + 1))] else [])
            + (if RoundDown(e, j + 1) != RoundDown(e, j) then [Piece(j, RoundDown(e, j + 1), RoundDown(e, j))] else [])
            + Rest(v, e, i, b + 1)
  {
  }

  lemma PiecesStart(v: nat, p: nat, n: nat)
    requires n > 0
    ensures var i := TopLevel(v, p, n);
            Pieces(v, p, n) ==
            (if RoundUp(v, i) != RoundDown(v + n, i) then [Piece(i, RoundUp(v, i), RoundDown(v + n, i))] else [])
            + Rest(v, v + n, i, 1)
  {
  }

  /** The inner loop of `solve`, entered once with the chosen level. */
  method SolveFrom(v: nat, p: nat, n: nat, i: nat) returns (ans: seq<Piece>)
    requires v < 0x10_0000_0000_0000 && v + n < WORD
    requires n > 0 && TopLevel(v, p, n) == i
    ensures ans == Pieces(v, p, n)
  {
    hide Offset, RoundDown, RoundUp, TopLevel, SameOffset, Wrap, DivideAndMultiply, Pieces, Rest, Span, VisitLevelsFrom;
    ans := [];
    var prev: Option<(nat, nat)> := None;
    var levels := VisitLevelsFrom(i);
    PiecesStart(v, p, n);
    for b := 0 to |levels|
      invariant prev.None? <==> b == 0
      invariant b == 0 ==> ans == []
      invariant b > 0 ==> prev == Some((RoundUp(v, i + 1 - b), RoundDown(v + n, i + 1 - b)))
      invariant b > 0 ==> Pieces(v, p, n) == ans + Rest(v, v + n, i, b)
    {
      var j := levels[b];
      assert j == i - b;
      var alignCur := Span(j);
      EndsByDivision(v, v + n, j);
      var veCur := DivideAndMultiply(Wrap(v + alignCur - 1), alignCur);
      var vsCur := DivideAndMultiply(Wrap(v + n), alignCur);
      if prev.Some? {
        RestStep(v, v + n, i, b);
        var (vePrev, vsPrev) := prev.value;
        if veCur != vePrev {
          ans := ans + [Piece(j, veCur, vePrev)];
        }
        if vsPrev != vsCur {
          ans := ans + [Piece(j, vsPrev, vsCur)];
        }
      } else {
        if veCur != vsCur {
          ans := ans + [Piece(j, veCur, vsCur)];
        }
      }
      prev := Some((veCur, vsCur));
    }
    assert Rest(v, v + n, i, i + 1) == [] by { RestEnds(v, v + n, i); }
  }

  lemma RestEnds(v: nat, e: nat, i: nat)
    requires i <= 2
    ensures Rest(v, e, i, i + 1) == []
  {
  }

  // ----- exact tiling -----

  ghost predicate Covers(ps: seq<Piece>, x: nat) {
    exists pc :: pc in ps && pc.lo <= x < pc.hi
  }

  ghost predicate Apart(a: Piece, b: Piece) {
    a.hi <= b.lo || b.hi <= a.lo
  }

  ghost predicate PairwiseApart(ps: seq<Piece>) {
    forall i, j :: 0 <= i < j < |ps| ==> Apart(ps[i], ps[j])
  }

  ghost predicate WellFormed(pc: Piece) {
    pc.level <= 2 && pc.lo < pc.hi && Offset(pc.lo, pc.level) == 0 && Offset(pc.hi, pc.level) == 0
  }

  /** The range lies inside the one page table that holds its first entry. */
  predicate FitsTable(pc: Piece)
    requires pc.level <= 2
  {
    pc.hi <= TableEnd(pc.lo, pc.level)
  }

  lemma Roundings4K(x: nat)
    ensures RoundDown(x, 0) == x && RoundUp(x, 0) == x
  {
  }

  lemma Multiple2M(x: nat)
    ensures (x - x % 512) % 512 == 0 && x - x % 512 <= x < x - x % 512 + 512
  {
  }

  lemma Multiple1G(x: nat)
    ensures (x - x % 262144) % 262144 == 0 && x - x % 262144 <= x < x - x % 262144 + 262144
  {
  }

  lemma Bounds2M(x: nat)
    ensures Offset(RoundDown(x, 1), 1) == 0 && RoundDown(x, 1) <= x < RoundDown(x, 1) + 512
    ensures Offset(RoundUp(x, 1), 1) == 0 && x <= RoundUp(x, 1) < x + 512
  {
    Multiple2M(x);
    Multiple2M(x + 511);
  }

  lemma Nearest2M(x: nat, y: nat)
    requires Offset(y, 1) == 0
    ensures (y <= x ==> y <= RoundDown(x, 1)) && (x <= y ==> RoundUp(x, 1) <= y)
  {
  }

  lemma Bounds1G(x: nat)
    ensures Offset(RoundDown(x, 2), 2) == 0 && RoundDown(x, 2) <= x < RoundDown(x, 2) + 262144
    ensures Offset(RoundUp(x, 2), 2) == 0 && x <= RoundUp(x, 2) < x + 262144
  {
    Multiple1G(x);
    Multiple1G(x + 262143);
  }

  lemma Nearest1G(x: nat, y: nat)
    requires Offset(y, 2) == 0
    ensures (y <= x ==> y <= RoundDown(x, 2)) && (x <= y ==> RoundUp(x, 2) <= y)
  {
  }

  /** The roundings of `x` are the nearest multiples below and above. */
  lemma Roundings(x: nat, l: nat, y: nat)
    requires l <= 2
    ensures Offset(RoundDown(x, l), l) == 0 && RoundDown(x, l) <= x < RoundDown(x, l) + Span(l)
    ensures Offset(RoundUp(x, l), l) == 0 && x <= RoundUp(x, l) < x + Span(l)
    ensures Offset(y, l) == 0 ==> (y <= x ==> y <= RoundDown(x, l)) && (x <= y ==> RoundUp(x, l) <= y)
  {
    hide RoundDown, RoundUp;
    if l == 0 {
      Roundings4K(x);
    } else if l == 1 {
      Bounds2M(x);
      if Offset(y, 1) == 0 { Nearest2M(x, y); }
    } else {
      Bounds1G(x);
      if Offset(y, 2) == 0 { Nearest1G(x, y); }
    }
  }

  lemma CoarserIsFiner(x: nat, l: nat, m: nat)
    requires l <= m <= 2 && Offset(x, m) == 0
    ensures Offset(x, l) == 0
  {
    if m == 2 {
      SmallerMultiple(x);
    }
  }

  lemma SmallerMultiple(x: nat)
    requires x % 262144 == 0
    ensures x % 512 == 0
  {
    var k := x / 262144 * 512;
    assert x == k * 512;
    MultipleOf(k);
  }

  lemma MultipleOf(k: nat)
    ensures k * 512 % 512 == 0
  {
  }

  lemma NextBlockIsTableEnd(x: nat, y: nat, l: nat)
    requires l <= 1 && x <= y < x + Span(l + 1)
    ensures Offset(y, l + 1) == 0 && x < y ==> y == TableEnd(x, l)
    ensures Offset(x, l + 1) == 0 ==> y < TableEnd(x, l)
  {
    if l == 0 {
      NextMultiple512(x, y);
    } else {
      NextMultiple262144(x, y);
    }
  }

  lemma NextMultiple512(x: nat, y: nat)
    requires x <= y < x + 512
    ensures y % 512 == 0 && x < y ==> y == (x / 512 + 1) * 512
    ensures x % 512 == 0 ==> y < (x / 512 + 1) * 512
  {
  }

  lemma NextMultiple262144(x: nat, y: nat)
    requires x <= y < x + 262144
    ensures y % 262144 == 0 && x < y ==> y == (x / 262144 + 1) * 262144
    ensures x % 262144 == 0 ==> y < (x / 262144 + 1) * 262144
  {
  }

  /** Both ragged ends at level `l` stay inside one level-(l+1) block. */
  lemma EndsFitTable(v: nat, e: nat, l: nat)
    requires l <= 1
    ensures v <= RoundUp(v, l) <= RoundUp(v, l + 1)
    ensures RoundUp(v, l) < RoundUp(v, l + 1) ==> FitsTable(Piece(l, RoundUp(v, l), RoundUp(v, l + 1)))
    ensures RoundDown(e, l + 1) <= RoundDown(e, l) <= e
    ensures FitsTable(Piece(l, RoundDown(e, l + 1), RoundDown(e, l)))
    ensures Offset(RoundUp(v, l), l) == 0 && Offset(RoundUp(v, l + 1), l) == 0
    ensures Offset(RoundDown(e, l), l) == 0 && Offset(RoundDown(e, l + 1), l) == 0
  {
    hide RoundDown, RoundUp, Offset, TableEnd;
    Roundings(v, l + 1, 0);
    Roundings(e, l + 1, 0);
    CoarserIsFiner(RoundUp(v, l + 1), l, l + 1);
    CoarserIsFiner(RoundDown(e, l + 1), l, l + 1);
    Roundings(v, l, RoundUp(v, l + 1));
    Roundings(e, l, RoundDown(e, l + 1));
    NextBlockIsTableEnd(RoundUp(v, l), RoundUp(v, l + 1), l);
    NextBlockIsTableEnd(RoundDown(e, l + 1), RoundDown(e, l), l);
  }

  /** The range at this level is left or right of what the level above covers. */
  ghost predicate IsRaggedEnd(v: nat, e: nat, pc: Piece)
    requires pc.level <= 1
  {
    || (v <= pc.lo && pc.hi <= RoundUp(v, pc.level + 1))
    || (RoundDown(e, pc.level + 1) <= pc.lo && pc.hi <= e)
  }

  ghost predicate InsideEnds(ps: seq<Piece>, v: nat, a: nat, b: nat, e: nat) {
    forall pc :: pc in ps ==> (v <= pc.lo && pc.hi <= a) || (b <= pc.lo && pc.hi <= e)
  }

  ghost predicate GoodEnds(v: nat, e: nat, l: nat, ps: seq<Piece>) {
    forall pc :: pc in ps ==> WellFormed(pc) && pc.level <= l <= 1 && FitsTable(pc) && IsRaggedEnd(v, e, pc)
  }

  lemma TwoTiles(left: Piece, right: Piece, lr: seq<Piece>)
    requires left.lo <= left.hi <= right.lo <= right.hi
    requires lr == (if left.lo == left.hi then [] else [left]) + (if right.lo == right.hi then [] else [right])
    ensures PairwiseApart(lr)
    ensures forall x: nat :: Covers(lr, x) <==> left.lo <= x < left.hi || right.lo <= x < right.hi
    ensures forall pc :: pc in lr ==> (pc == left || pc == right) && pc.lo < pc.hi
  {
  }

  lemma TwoGoodEnds(v: nat, e: nat, l: nat, lr: seq<Piece>)
    requires l <= 1
    requires forall pc :: pc in lr ==>
               pc.lo < pc.hi && (pc == Piece(l, RoundUp(v, l), RoundUp(v, l + 1))
                                 || pc == Piece(l, RoundDown(e, l + 1), RoundDown(e, l)))
    ensures GoodEnds(v, e, l, lr)
  {
    hide RoundDown, RoundUp, Offset, TableEnd;
    EndsFitTable(v, e, l);
  }

  lemma GoodEndsJoin(v: nat, e: nat, l: nat, a: seq<Piece>, b: seq<Piece>)
    requires l == 1 && GoodEnds(v, e, l, a) && GoodEnds(v, e, l - 1, b)
    ensures GoodEnds(v, e, l, a + b)
  {
    hide RoundDown, RoundUp, Offset, TableEnd;
  }

  /** `Below` tiles exactly what the level above leaves over, with ranges that
      each fit one table. */
  lemma {:induction false} BelowTiles(v: nat, e: nat, l: nat)
    requires l <= 1 && RoundUp(v, l + 1) <= RoundDown(e, l + 1)
    ensures var ps := Below(v, e, l);
            && PairwiseApart(ps)
            && GoodEnds(v, e, l, ps)
            && InsideEnds(ps, v, RoundUp(v, l + 1), RoundDown(e, l + 1), e)
    ensures forall x: nat :: Covers(Below(v, e, l), x) <==>
              v <= x < RoundUp(v, l + 1) || RoundDown(e, l + 1) <= x < e
  {
    hide RoundDown, RoundUp, Offset, TableEnd, Covers, PairwiseApart, Span, GoodEnds;
    EndsFitTable(v, e, l);
    Roundings4K(v);
    Roundings4K(e);
    var left := Piece(l, RoundUp(v, l), RoundUp(v, l + 1));
    var right := Piece(l, RoundDown(e, l + 1), RoundDown(e, l));
    var lr := (if left.lo == left.hi then [] else [left]) + (if right.lo == right.hi then [] else [right]);
    TwoTiles(left, right, lr);
    TwoGoodEnds(v, e, l, lr);
    if l == 0 {
      assert Below(v, e, l) == lr;
    } else {
      BelowTiles(v, e, l - 1);
      var rest := Below(v, e, l - 1);
      assert Below(v, e, l) == lr + rest;
      ConcatTiles(lr, rest);
      GoodEndsJoin(v, e, l, lr, rest);
    }
  }

  lemma ConcatTiles(a: seq<Piece>, b: seq<Piece>)
    requires PairwiseApart(a) && PairwiseApart(b)
    requires forall x, y :: x in a && y in b ==> Apart(x, y)
    ensures PairwiseApart(a + b)
    ensures forall x: nat :: Covers(a + b, x) <==> Covers(a, x) || Covers(b, x)
  {
  }

  lemma TopLevelIsUsable(v: nat, p: nat, n: nat)
    requires n > 0
    ensures Usable(v, p, n, TopLevel(v, p, n))
  {
    hide Wrap;
  }

  lemma TopRange(v: nat, p: nat, n: nat)
    requires n > 0
    ensures var t := TopLevel(v, p, n);
            SameOffset(v, p, t) && v <= RoundUp(v, t) <= RoundDown(v + n, t) <= v + n
  {
    hide RoundUp, RoundDown, TopLevel, SameOffset, Offset, Span;
    var t := TopLevel(v, p, n);
    TopLevelIsUsable(v, p, n);
    Roundings(v, t, 0);
    Roundings(v + n, t, RoundUp(v, t));
  }

  /** Physical page of virtual page `x`, as the code computes it. */
  function Shift(v: nat, p: nat, x: nat): nat {
    Wrap(Wrap(p - v) + x)
  }

  /** The wrapped shift keeps the alignment of a range's start, whichever of `v`
      and `p` is larger: 512 and 512*512 divide 2^64. */
  lemma ShiftKeepsAlignment(v: nat, p: nat, x: nat, l: nat)
    requires l <= 2 && Offset(x, l) == 0
    ensures Offset(Shift(v, p, x), l) == 0 <==> SameOffset(v, p, l)
    ensures Offset(Shift(v, p, x) % PPN_LIMIT, l) == Offset(Shift(v, p, x), l)
  {
    hide Wrap;
    var d := p - v;
    WrapResidues(v - p);
    NegateAligned(d);
    assert v - p == -d;
    WrapResidues(d);
    WrapResidues(Wrap(d) + x);
    AddAligned(Wrap(d), x);
    PpnResidues(Shift(v, p, x));
  }

  /** Inside one block the physical page numbers run in step with the virtual
      ones: neither the wrap nor the 44-bit field breaks a block. */
  lemma ShiftInsideBlock(v: nat, p: nat, b: nat, l: nat, d: nat)
    requires l <= 2 && Offset(b, l) == 0 && SameOffset(v, p, l) && d < Span(l)
    ensures Shift(v, p, b + d) % PPN_LIMIT == Shift(v, p, b) % PPN_LIMIT + d
  {
    ShiftKeepsAlignment(v, p, b, l);
    var y := Shift(v, p, b);
    assert Shift(v, p, b + d) == Wrap(y + d) by {
      WrapTwice(Wrap(p - v) + b, d);
      assert Wrap(p - v) + (b + d) == Wrap(p - v) + b + d;
    }
    hide Wrap, Shift;
    if l == 1 {
      AddInside512(y, d);
    } else if l == 2 {
      AddInside262144(y, d);
    }
  }

  lemma WrapTwice(c: int, d: int)
    ensures Wrap(Wrap(c) + d) == Wrap(c + d)
  {
  }

  lemma AddInside512(y: nat, d: nat)
    requires y % 512 == 0 && d < 512 && y < WORD
    ensures y + d < WORD && (y + d) % PPN_LIMIT == y % PPN_LIMIT + d
  {
  }

  lemma AddInside262144(y: nat, d: nat)
    requires y % 262144 == 0 && d < 262144 && y < WORD
    ensures y + d < WORD && (y + d) % PPN_LIMIT == y % PPN_LIMIT + d
  {
  }

  /** The wrapped shift is the intended page number p + (x - v), up to the 44
      bits of an entry. */
  lemma ShiftIsDisplacement(v: nat, p: nat, x: nat)
    requires v <= x
    ensures Shift(v, p, x) % PPN_LIMIT == (p + (x - v)) % PPN_LIMIT
    ensures p + (x - v) < PPN_LIMIT ==> Shift(v, p, x) % PPN_LIMIT == p + (x - v)
  {
    WrapTwice(p - v, x);
    assert p - v + x == p + (x - v);
    WrapKeepsPpn(p + (x - v));
    hide Wrap;
  }

  lemma WrapKeepsPpn(a: nat)
    ensures Wrap(a) % PPN_LIMIT == a % PPN_LIMIT
  {
  }

  lemma WrapResidues(x: int)
    ensures Wrap(x) % 512 == x % 512 && Wrap(x) % 262144 == x % 262144
  {
    var q, r := x / WORD, x % WORD;
    assert x == 512 * (0x80_0000_0000_0000 * q) + r == 262144 * (0x4000_0000_0000 * q) + r;
    AddMultiple512(0x80_0000_0000_0000 * q, r);
    AddMultiple262144(0x4000_0000_0000 * q, r);
  }

  lemma PpnResidues(x: nat)
    ensures x % PPN_LIMIT % 512 == x % 512 && x % PPN_LIMIT % 262144 == x % 262144
  {
    var q, r := x / PPN_LIMIT, x % PPN_LIMIT;
    AddMultiple512(0x8_0000_0000 * q, r);
    AddMultiple262144(0x400_0000 * q, r);
  }

  lemma AddMultiple512(k: int, r: nat)
    ensures (512 * k + r) % 512 == r % 512
  {
  }

  lemma AddMultiple262144(k: int, r: nat)
    ensures (262144 * k + r) % 262144 == r % 262144
  {
  }

  lemma AddAligned(d: int, x: int)
    ensures x % 512 == 0 ==> (d + x) % 512 == d % 512
    ensures x % 262144 == 0 ==> (d + x) % 262144 == d % 262144
  {
    Add512(d, x);
    Add262144(d, x);
  }

  lemma Add512(d: int, x: int)
    ensures x % 512 == 0 ==> (d + x) % 512 == d % 512
  {
  }

  lemma Add262144(d: int, x: int)
    ensures x % 262144 == 0 ==> (d + x) % 262144 == d % 262144
  {
  }

  lemma NegateAligned(d: int)
    ensures -d % 512 == 0 <==> d % 512 == 0
    ensures -d % 262144 == 0 <==> d % 262144 == 0
  {
    Negate512(d);
    Negate262144(d);
  }

  lemma Negate512(d: int)
    ensures -d % 512 == 0 <==> d % 512 == 0
  {
  }

  lemma Negate262144(d: int)
    ensures -d % 262144 == 0 <==> d % 262144 == 0
  {
  }

  lemma PiecesTile(v: nat, p: nat, n: nat)
    requires n > 0
    ensures PairwiseApart(Pieces(v, p, n))
    ensures forall x: nat :: Covers(Pieces(v, p, n), x) <==> v <= x < v + n
    ensures forall pc :: pc in Pieces(v, p, n) ==>
              WellFormed(pc) && v <= pc.lo && pc.hi <= v + n && pc.level <= TopLevel(v, p, n)
  {
    hide RoundDown, RoundUp, Offset, TableEnd, SameOffset, TopLevel, Below, Covers, PairwiseApart, Span;
    var t := TopLevel(v, p, n);
    TopRange(v, p, n);
    Roundings(v, t, 0);
    Roundings(v + n, t, 0);
    var top := Piece(t, RoundUp(v, t), RoundDown(v + n, t));
    var tops := if top.lo == top.hi then [] else [top];
    TopTiles(top, tops);
    if t > 0 {
      var rest := Below(v, v + n, t - 1);
      assert Pieces(v, p, n) == tops + rest;
      hide Pieces;
      BelowTiles(v, v + n, t - 1);
      EndsApart(top, tops, rest, v, v + n);
      ConcatTiles(tops, rest);
      assert GoodEnds(v, v + n, t - 1, rest);
    } else {
      Roundings4K(v);
      Roundings4K(v + n);
      assert Pieces(v, p, n) == tops;
    }
  }

  lemma EndsApart(top: Piece, tops: seq<Piece>, rest: seq<Piece>, v: nat, e: nat)
    requires InsideEnds(rest, v, top.lo, top.hi, e) && v <= top.lo <= top.hi <= e
    requires forall pc :: pc in tops ==> pc == top
    ensures forall x, y :: x in tops && y in rest ==> Apart(x, y)
    ensures forall pc :: pc in rest ==> v <= pc.lo && pc.hi <= e
  {
  }

  lemma TopTiles(top: Piece, tops: seq<Piece>)
    requires tops == if top.lo == top.hi then [] else [top]
    ensures PairwiseApart(tops)
    ensures forall x: nat :: Covers(tops, x) <==> top.lo <= x < top.hi
  {
  }

  /** The ranges are disjoint, their union is [v, v+n), both ends are aligned to
      their level, and so are the physical starts: no misaligned superpage. */
  lemma {:induction false} SplitIsExactTiling(v: nat, p: nat, n: nat)
    ensures PairwiseApart(Pieces(v, p, n))
    ensures forall x: nat :: Covers(Pieces(v, p, n), x) <==> v <= x < v + n
    ensures forall pc :: pc in Pieces(v, p, n) ==>
              WellFormed(pc) && v <= pc.lo && pc.hi <= v + n
              && SameOffset(v, p, pc.level)
              && Offset(Shift(v, p, pc.lo), pc.level) == 0
  {
    if n > 0 {
      PiecesTile(v, p, n);
      hide RoundDown, RoundUp, Offset, TableEnd, Shift, Wrap, TopLevel, Pieces;
      TopRange(v, p, n);
      forall pc | pc in Pieces(v, p, n)
        ensures SameOffset(v, p, pc.level) && Offset(Shift(v, p, pc.lo), pc.level) == 0
      {
        CoarserIsFiner(Wrap(v - p), pc.level, TopLevel(v, p, n));
        ShiftKeepsAlignment(v, p, pc.lo, pc.level);
      }
    }
  }
}
