/** Which pages of a request `allocate_map` writes, and where. It fetches one
    table for each range, by the first page of the range, and fills the entries
    that `vpn_index_range` names: a range of level 0 or 1 is cut at the end of that
    table, a level-2 range is not cut but its end index is masked to nine bits, and
    `vpn_level_index` masks bits 27 to 43 off a level-2 page number. */
module LostPages {
  import opened Sv39
  import opened MapSolver

  /** The page number the code computes for the entry that translates `y`. */
  function CodeVpn(lo: nat, l: nat, y: nat): nat
    requires l <= 2
  {
    VpnLevelIndex(lo, l, VpnIndex(y, l)) + Offset(y, l)
  }

  /** An entry that translates `y` is among those filled for the range. */
  predicate Writes(pc: Piece, y: nat)
    requires pc.level <= 2
  {
    && Key(y, pc.level + 1) == Key(TableVpn(pc.lo), pc.level + 1)
    && var (i, e) := VpnIndexRange(pc.lo, pc.hi, pc.level);
       i <= VpnIndex(y, pc.level) < e
  }

  /** Page `x` of the range is written, and as page `x`. */
  predicate Keeps(pc: Piece, x: nat)
    requires pc.level <= 2
  {
    Writes(pc, TableVpn(x)) && CodeVpn(pc.lo, pc.level, TableVpn(x)) == x
  }

  ghost predicate Kept(ps: seq<Piece>, x: nat)
    requires forall pc :: pc in ps ==> pc.level <= 2
  {
    exists pc :: pc in ps && pc.lo <= x < pc.hi && Keeps(pc, x)
  }

  /** The range passes the end of its table or, at level 2, reaches the end of a
      512G table or starts at a page number with one of bits 27 to 43 set. */
  predicate Lossy(pc: Piece)
    requires pc.level <= 2
  {
    if pc.level <= 1 then pc.hi > TableEnd(pc.lo, pc.level)
    else Key(pc.hi, 3) != Key(pc.lo, 3) || pc.lo % PPN_LIMIT >= VPN_LIMIT
  }

  /** The range at the chosen level is lossy. */
  predicate LosesPages(v: nat, p: nat, n: nat) {
    n > 0 &&
    var t := TopLevel(v, p, n);
    RoundUp(v, t) != RoundDown(v + n, t) && Lossy(Piece(t, RoundUp(v, t), RoundDown(v + n, t)))
  }

  // ----- one range -----

  lemma AddBelow(c: nat, d: nat)
    requires c % VPN_LIMIT + d < VPN_LIMIT
    ensures (c + d) % VPN_LIMIT == c % VPN_LIMIT + d
  {
  }

  /** The entry written for `y` is that of the page the code computes. */
  lemma CodeVpnLeadsBack(lo: nat, l: nat, y: nat)
    requires l <= 2 && y < VPN_LIMIT && Key(y, l + 1) == Key(TableVpn(lo), l + 1)
    ensures TableVpn(CodeVpn(lo, l, y)) == y
  {
    hide VpnLevelIndex, Key, Offset, VpnIndex;
    var c := VpnLevelIndex(lo, l, VpnIndex(y, l));
    LevelIndexInvertsIndex(lo, l, VpnIndex(y, l));
    KeySplit(y, l);
    BlockPages(TableVpn(c), l, y);
    AddBelow(c, Offset(y, l));
  }

  lemma SamePage4K(lo: nat, x: nat)
    requires x / 512 == lo / 512
    ensures lo - lo % 512 + x % 512 == x
  {
  }

  lemma SamePage2M(lo: nat, x: nat)
    requires x / 262144 == lo / 262144
    ensures lo - lo % 262144 + x / 512 % 512 * 512 + x % 512 == x
  {
    DoubleDivide(x);
  }

  lemma CodeVpnOfPage(lo: nat, l: nat, x: nat)
    requires l <= 1 && Key(x, l + 1) == Key(lo, l + 1)
    ensures CodeVpn(lo, l, TableVpn(x)) == x
  {
    hide TableVpn;
    TableVpnKeepsIndex(x, l);
    if l == 0 {
      SamePage4K(lo, x);
    } else {
      SamePage2M(lo, x);
    }
  }

  lemma LevelIndexIsMonotone(lo: nat, l: nat, i: nat, j: nat)
    requires l <= 2 && i <= j
    ensures VpnLevelIndex(lo, l, i) <= VpnLevelIndex(lo, l, j)
  {
  }

  lemma OffsetBelowSpan(y: nat, l: nat)
    requires l <= 2
    ensures Offset(y, l) < Span(l)
  {
  }

  /** At levels 0 and 1 what is written is the part of the range before the end
      of its table. */
  lemma WrittenBeforeCut(pc: Piece, y: nat)
    requires WellFormed(pc) && pc.level <= 1 && y < VPN_LIMIT && Writes(pc, y)
    ensures pc.lo <= CodeVpn(pc.lo, pc.level, y) < Min(pc.hi, TableEnd(pc.lo, pc.level))
    ensures TableVpn(CodeVpn(pc.lo, pc.level, y)) == y
  {
    hide VpnLevelIndex, VpnIndexRange, Key, Offset, VpnIndex, TableVpn, TableEnd;
    var l := pc.level;
    var (i, e) := VpnIndexRange(pc.lo, pc.hi, l);
    var k := VpnIndex(y, l);
    IndexRangeIsCutAtTableEnd(pc.lo, pc.hi, l);
    LevelIndexInvertsIndex(pc.lo, l, k);
    LevelIndexIsMonotone(pc.lo, l, i, k);
    LevelIndexIsMonotone(pc.lo, l, k + 1, e);
    OffsetBelowSpan(y, l);
    CodeVpnLeadsBack(pc.lo, l, y);
  }

  lemma LowKeys(x: nat)
    ensures TableVpn(x) / 512 == x / 512 % 262144 && TableVpn(x) / 262144 == x / 262144 % 512
  {
    LowBits(x / VPN_LIMIT, x % VPN_LIMIT);
    assert x == x / VPN_LIMIT * VPN_LIMIT + x % VPN_LIMIT;
    DivideRest(x / VPN_LIMIT, TableVpn(x) / 512);
  }

  lemma DivideRest(q: nat, r: nat)
    requires r < 262144
    ensures (q * 262144 + r) % 262144 == r
  {
  }

  lemma SameTable(lo: nat, l: nat, x: nat)
    requires l <= 1 && Key(x, l + 1) == Key(lo, l + 1)
    ensures Key(TableVpn(x), l + 1) == Key(TableVpn(lo), l + 1)
  {
    hide TableVpn;
    LowKeys(x);
    LowKeys(lo);
  }

  lemma KeepsBeforeCut(pc: Piece, x: nat)
    requires WellFormed(pc) && pc.level <= 1 && pc.lo <= x < pc.hi
    ensures Keeps(pc, x) <==> x < TableEnd(pc.lo, pc.level)
  {
    hide VpnIndexRange, Key, TableVpn, TableEnd, CodeVpn, Offset, VpnIndex;
    if x < TableEnd(pc.lo, pc.level) {
      KeptPageIsInRange(pc.lo, pc.hi, pc.level, x);
      TableVpnKeepsIndex(x, pc.level);
      SameTable(pc.lo, pc.level, x);
      CodeVpnOfPage(pc.lo, pc.level, x);
    } else if Keeps(pc, x) {
      WrittenBeforeCut(pc, TableVpn(x));
    }
  }

  /** At level 2 a range inside one 512G table is written whole. */
  lemma WrittenInside1G(pc: Piece, y: nat)
    requires WellFormed(pc) && pc.level == 2 && Key(pc.lo, 3) == Key(pc.hi, 3) && y < VPN_LIMIT
    ensures Writes(pc, y) <==> TableVpn(pc.lo) <= y < TableVpn(pc.hi)
    ensures Writes(pc, y) <==> pc.lo <= pc.lo / VPN_LIMIT * VPN_LIMIT + y < pc.hi
  {
    var q, a, b := pc.lo / VPN_LIMIT, TableVpn(pc.lo), TableVpn(pc.hi);
    assert pc.lo == q * VPN_LIMIT + a && pc.hi == q * VPN_LIMIT + b;
    LowBits(q, a);
    LowBits(q, b);
    assert Key(y, 3) == Key(a, 3);
    hide VpnIndexRange, VpnIndex, Key, TableVpn;
    IndexRange1G(q, a, b, y);
  }

  lemma CodeVpn1G(lo: nat, y: nat)
    requires y < VPN_LIMIT
    ensures CodeVpn(lo, 2, y) == lo - lo % PPN_LIMIT + y
  {
    Key1G(0, y);
    assert y == y / 262144 * 262144 + y % 262144;
  }

  lemma Keeps1G(pc: Piece, x: nat)
    requires WellFormed(pc) && pc.level == 2 && pc.lo <= x < pc.hi && Key(pc.lo, 3) == Key(pc.hi, 3)
    ensures Writes(pc, TableVpn(x))
    ensures CodeVpn(pc.lo, 2, TableVpn(x)) + pc.lo % PPN_LIMIT == x + pc.lo % VPN_LIMIT
    ensures Keeps(pc, x) <==> pc.lo % PPN_LIMIT < VPN_LIMIT
  {
    Inside1G(pc.lo, pc.hi, x);
    NestedRemainder(pc.lo);
    hide Writes, CodeVpn, Key;
    WrittenInside1G(pc, TableVpn(x));
    CodeVpn1G(pc.lo, TableVpn(x));
  }

  lemma Inside1G(lo: nat, hi: nat, x: nat)
    requires lo <= x < hi && lo / VPN_LIMIT == hi / VPN_LIMIT
    ensures x - x % VPN_LIMIT == lo - lo % VPN_LIMIT == lo / VPN_LIMIT * VPN_LIMIT
  {
  }

  lemma NestedRemainder(x: nat)
    ensures x % PPN_LIMIT < VPN_LIMIT <==> x % PPN_LIMIT == x % VPN_LIMIT
    ensures x % PPN_LIMIT % VPN_LIMIT == x % VPN_LIMIT
  {
    var h := x / PPN_LIMIT;
    assert x == h * 131072 * VPN_LIMIT + x % PPN_LIMIT;
    SplitRemainder(h * 131072, x % PPN_LIMIT);
  }

  lemma SplitRemainder(k: nat, r: nat)
    ensures (k * VPN_LIMIT + r) % VPN_LIMIT == r % VPN_LIMIT
  {
  }

  /** A level-2 range that is no longer than 512G but reaches the end of a 512G
      table is not written at all. */
  lemma NothingWritten1G(pc: Piece, y: nat)
    requires pc.level == 2 && pc.lo < pc.hi <= pc.lo + VPN_LIMIT && Key(pc.lo, 3) != Key(pc.hi, 3)
    ensures !Writes(pc, y)
  {
    hide VpnIndexRange, Key;
    IndexRangeIsEmpty1G(pc.lo, pc.hi);
  }

  /** A range keeps all its pages exactly when it is not lossy. */
  lemma RangeIsKeptIff(pc: Piece)
    requires WellFormed(pc)
    ensures !Lossy(pc) ==> forall x: nat :: pc.lo <= x < pc.hi ==> Keeps(pc, x)
    ensures Lossy(pc) ==> exists x: nat :: pc.lo <= x < pc.hi && !Keeps(pc, x)
  {
    hide Keeps, TableVpn, Key, TableEnd, CodeVpn;
    if pc.level <= 1 {
      forall x: nat | pc.lo <= x < pc.hi
        ensures Keeps(pc, x) <==> x < TableEnd(pc.lo, pc.level)
      {
        KeepsBeforeCut(pc, x);
      }
      var last := pc.hi - 1;
      assert Lossy(pc) ==> !Keeps(pc, last);
    } else if Key(pc.lo, 3) == Key(pc.hi, 3) {
      forall x: nat | pc.lo <= x < pc.hi
        ensures Keeps(pc, x) <==> pc.lo % PPN_LIMIT < VPN_LIMIT
      {
        Keeps1G(pc, x);
      }
      assert Lossy(pc) ==> !Keeps(pc, pc.lo);
    } else {
      LosesAcross1G(pc);
    }
  }

  lemma LosesAcross1G(pc: Piece)
    requires WellFormed(pc) && pc.level == 2 && Key(pc.lo, 3) != Key(pc.hi, 3)
    ensures exists x: nat :: pc.lo <= x < pc.hi && !Keeps(pc, x)
  {
    hide Key, CodeVpn, Writes;
    if pc.hi <= pc.lo + VPN_LIMIT {
      NothingWritten1G(pc, TableVpn(pc.lo));
      assert !Keeps(pc, pc.lo);
    } else {
      var next := pc.lo + VPN_LIMIT;
      SplitRemainder(1, pc.lo);
      assert TableVpn(next) == TableVpn(pc.lo);
      assert !Keeps(pc, next) || !Keeps(pc, pc.lo);
    }
  }

  // ----- a whole split -----

  /** The ranges below the chosen level. */
  function LowerRanges(v: nat, p: nat, n: nat): seq<Piece>
    requires n > 0
  {
    if TopLevel(v, p, n) == 0 then [] else Below(v, v + n, TopLevel(v, p, n) - 1)
  }

  lemma LowerRangesAreKept(v: nat, p: nat, n: nat, pc: Piece)
    requires n > 0 && pc in LowerRanges(v, p, n)
    ensures pc.level <= 1 && !Lossy(pc)
  {
    hide RoundUp, RoundDown, TopLevel, TableEnd, Key, Offset, SameOffset, Below, Covers, PairwiseApart, InsideEnds;
    TopRange(v, p, n);
    BelowTiles(v, v + n, TopLevel(v, p, n) - 1);
  }

  lemma TopAndLower(v: nat, p: nat, n: nat)
    requires n > 0
    ensures var t := TopLevel(v, p, n);
            var (a, b) := (RoundUp(v, t), RoundDown(v + n, t));
            Pieces(v, p, n) == (if a == b then [] else [Piece(t, a, b)]) + LowerRanges(v, p, n)
  {
    hide RoundUp, RoundDown, TopLevel, Below;
  }

  /** Only the first range can lose pages. */
  lemma OnlyFirstRangeIsLossy(v: nat, p: nat, n: nat)
    ensures forall i :: 0 < i < |Pieces(v, p, n)| ==> Pieces(v, p, n)[i].level <= 1 && !Lossy(Pieces(v, p, n)[i])
    ensures LosesPages(v, p, n) <==>
            Pieces(v, p, n) != [] && Pieces(v, p, n)[0].level <= 2 && Lossy(Pieces(v, p, n)[0])
  {
    hide RoundUp, RoundDown, TopLevel, Lossy, LowerRanges;
    if n > 0 {
      hide Pieces;
      TopAndLower(v, p, n);
      forall pc | pc in LowerRanges(v, p, n)
        ensures pc.level <= 1 && !Lossy(pc)
      {
        LowerRangesAreKept(v, p, n, pc);
      }
    } else {
      assert Pieces(v, p, n) == [] by { NoPieces(v, p); }
    }
  }

  lemma NoPieces(v: nat, p: nat)
    ensures Pieces(v, p, 0) == []
  {
  }

  /** The pages that are written as themselves lie in [v, v+n), and they are all
      of it if and only if the first range is not lossy. */
  lemma WholeRangeIsKeptIff(v: nat, p: nat, n: nat)
    ensures forall pc :: pc in Pieces(v, p, n) ==> pc.level <= 2
    ensures forall x: nat :: Kept(Pieces(v, p, n), x) ==> v <= x < v + n
    ensures (forall x: nat :: v <= x < v + n ==> Kept(Pieces(v, p, n), x)) <==> !LosesPages(v, p, n)
  {
    hide Pieces, LosesPages, Lossy, Offset, Shift, SameOffset, Keeps;
    var ps := Pieces(v, p, n);
    SplitIsExactTiling(v, p, n);
    OnlyFirstRangeIsLossy(v, p, n);
    forall x: nat | Kept(ps, x)
      ensures v <= x < v + n
    {
      assert Covers(ps, x);
    }
    if !LosesPages(v, p, n) {
      forall x: nat | v <= x < v + n
        ensures Kept(ps, x)
      {
        assert Covers(ps, x);
        var i :| 0 <= i < |ps| && ps[i].lo <= x < ps[i].hi;
        assert ps[i] in ps;
        RangeIsKeptIff(ps[i]);
      }
    } else {
      assert ps[0] in ps;
      RangeIsKeptIff(ps[0]);
      var lost: nat :| ps[0].lo <= lost < ps[0].hi && !Keeps(ps[0], lost);
      OtherRangesMiss(ps, 0, lost);
      assert Covers(ps, lost);
      assert v <= lost < v + n && !Kept(ps, lost);
    }
  }

  lemma OtherRangesMiss(ps: seq<Piece>, i: nat, x: nat)
    requires PairwiseApart(ps) && i < |ps| && ps[i].lo <= x < ps[i].hi
    ensures forall pc :: pc in ps && pc.lo <= x < pc.hi ==> pc == ps[i]
  {
    forall pc | pc in ps && pc.lo <= x < pc.hi
      ensures pc == ps[i]
    {
      var j :| 0 <= j < |ps| && ps[j] == pc;
      var a, b := if i < j then i else j, if i < j then j else i;
      assert a < b ==> Apart(ps[a], ps[b]);
    }
  }

  // ----- ranges do not collide -----

  /** No entry is needed by two of the ranges. */
  ghost predicate RangesDoNotCollide(ps: seq<Piece>)
    requires forall pc :: pc in ps ==> pc.level <= 2
  {
    forall i, j, y: nat :: 0 <= i < j < |ps| && y < VPN_LIMIT ==> !(Writes(ps[i], y) && Writes(ps[j], y))
  }

  /** What is written are entries of pages of the range, up to bits 27 and higher. */
  lemma WrittenPageOf(pc: Piece, y: nat) returns (x: nat)
    requires WellFormed(pc) && pc.hi <= pc.lo + VPN_LIMIT && y < VPN_LIMIT && Writes(pc, y)
    ensures pc.lo <= x < pc.hi && TableVpn(x) == y
  {
    hide Writes, CodeVpn, TableEnd, Key;
    x := if pc.level <= 1 then CodeVpn(pc.lo, pc.level, y) else pc.lo / VPN_LIMIT * VPN_LIMIT + y;
    if pc.level <= 1 {
      WrittenBeforeCut(pc, y);
    } else if Key(pc.lo, 3) == Key(pc.hi, 3) {
      WrittenInside1G(pc, y);
      SameLowBits(pc.lo / VPN_LIMIT, y);
    } else {
      NothingWritten1G(pc, y);
    }
  }

  lemma SameResidue(x: nat, y: nat)
    requires TableVpn(x) == TableVpn(y) && x < y + VPN_LIMIT && y < x + VPN_LIMIT
    ensures x == y
  {
  }

  /** A request of at most 2^27 pages needs every entry once. */
  lemma RequestDoesNotCollide(v: nat, p: nat, n: nat)
    requires n <= VPN_LIMIT
    ensures forall pc :: pc in Pieces(v, p, n) ==> pc.level <= 2
    ensures RangesDoNotCollide(Pieces(v, p, n))
    ensures forall pc, y: nat :: pc in Pieces(v, p, n) && y < VPN_LIMIT && Writes(pc, y) ==>
              exists x: nat :: v <= x < v + n && TableVpn(x) == y
  {
    hide Pieces, Writes, Offset, SameOffset, Shift, TableVpn;
    var ps := Pieces(v, p, n);
    SplitIsExactTiling(v, p, n);
    forall pc, y: nat | pc in ps && y < VPN_LIMIT && Writes(pc, y)
      ensures exists x: nat :: v <= x < v + n && TableVpn(x) == y
    {
      var x := WrittenPageOf(pc, y);
    }
    forall i, j, y: nat | 0 <= i < j < |ps| && y < VPN_LIMIT
      ensures !(Writes(ps[i], y) && Writes(ps[j], y))
    {
      assert ps[i] in ps && ps[j] in ps && Apart(ps[i], ps[j]);
      if Writes(ps[i], y) && Writes(ps[j], y) {
        var a := WrittenPageOf(ps[i], y);
        var b := WrittenPageOf(ps[j], y);
        SameResidue(a, b);
      }
    }
  }
}
