/** The Sv39 paging mode: index arithmetic and page-table entries of
    03-virt-addr-kern/src/mm.rs, physical memory as frames of 512 words, and the
    hardware's table walk (RISC-V Privileged Architecture, version 1.11,
    sections 4.3.2 and 4.4). Shifts and masks are written as division and
    remainder by the same powers of two. */
module Sv39 {
  import opened Words

  const VPN_LIMIT := 0x800_0000          // 27-bit virtual page numbers
  const PPN_LIMIT := 0x1000_0000_0000    // 44-bit physical page numbers

  /** Pages covered by one entry of a level-`l` table; level 3 is a whole address space. */
  function Span(l: nat): (n: nat)
    requires l <= 3
    ensures 0 < n <= VPN_LIMIT
  {
    if l == 0 then 1 else if l == 1 then 512 else if l == 2 then 262144 else VPN_LIMIT
  }

  /** `x >> (9 * l)`: the number of the level-`l` block that holds page `x`. */
  function Key(x: nat, l: nat): nat
    requires l <= 3
  {
    if l == 0 then x else if l == 1 then x / 512 else if l == 2 then x / 262144 else x / VPN_LIMIT
  }

  /** Position of page `x` inside its level-`l` block. */
  function Offset(x: nat, l: nat): nat
    requires l <= 3
  {
    if l == 0 then 0 else if l == 1 then x % 512 else if l == 2 then x % 262144 else x % VPN_LIMIT
  }

  // ----- index arithmetic -----

  function VpnIndex(vpn: nat, l: nat): (i: nat)
    requires l <= 2
    ensures i < 512
  {
    Key(vpn, l) % 512
  }

  function VpnIndexRange(start: nat, end: nat, l: nat): (r: (nat, nat))
    requires l <= 2
    ensures r.0 < 512 && r.1 <= 512
  {
    var s := Key(start, l) % 512;
    var e := Key(end, l) % 512;
    if l <= 1 && Key(end, l + 1) > Key(start, l + 1) then (s, 512) else (s, e)
  }

  function VpnLevelIndex(vpn: nat, l: nat, idx: nat): nat
    requires l <= 2
  {
    if l == 0 then vpn - vpn % 512 + idx
    else if l == 1 then vpn - vpn % 262144 + idx * 512
    else vpn - vpn % PPN_LIMIT + idx * 262144
  }

  /** First page after the table that holds the level-`l` entry of `vpn`. */
  function TableEnd(vpn: nat, l: nat): nat
    requires l <= 2
  {
    if l == 0 then (vpn / 512 + 1) * 512
    else if l == 1 then (vpn / 262144 + 1) * 262144
    else (vpn / VPN_LIMIT + 1) * VPN_LIMIT
  }

  function Min(a: nat, b: nat): nat {
    if a < b then a else b
  }

  /** The 27 bits of a page number that the table walk looks at. */
  function TableVpn(x: nat): (y: nat)
    ensures y < VPN_LIMIT
  {
    x % VPN_LIMIT
  }

  lemma LowBits(q: nat, y: nat)
    requires y < VPN_LIMIT
    ensures var x := q * VPN_LIMIT + y;
            x / 512 == q * 262144 + y / 512 && x / 262144 == q * 512 + y / 262144
    ensures (q * 262144 + y / 512) % 512 == y / 512 % 512
    ensures (q * 512 + y / 262144) % 512 == y / 262144 % 512
    ensures (q * VPN_LIMIT + y) % 512 == y % 512 && (q * VPN_LIMIT + y) % 262144 == y % 262144
  {
  }

  /** Index and offset of a page depend on these bits alone. */
  lemma TableVpnKeepsIndex(x: nat, l: nat)
    requires l <= 2
    ensures VpnIndex(TableVpn(x), l) == VpnIndex(x, l) && Offset(TableVpn(x), l) == Offset(x, l)
  {
    LowBits(x / VPN_LIMIT, x % VPN_LIMIT);
    assert x == x / VPN_LIMIT * VPN_LIMIT + x % VPN_LIMIT;
  }

  lemma CutRange4K(lo: nat, hi: nat)
    requires lo < hi
    ensures var s, e := lo % 512, if hi / 512 > lo / 512 then 512 else hi % 512;
            s < e && lo - lo % 512 + s == lo && lo - lo % 512 + e == Min(hi, (lo / 512 + 1) * 512)
  {
  }

  lemma TwoLevels(a: nat)
    ensures a * 512 / 262144 == a / 512 && a * 512 / 512 == a
    ensures a * 512 % 262144 == a % 512 * 512
  {
  }

  lemma CutRange2M(a: nat, b: nat)
    requires a < b
    ensures var lo, hi := a * 512, b * 512;
            var (s, e) := VpnIndexRange(lo, hi, 1);
            && s < e
            && VpnLevelIndex(lo, 1, s) == lo
            && VpnLevelIndex(lo, 1, e) == Min(hi, TableEnd(lo, 1))
  {
    TwoLevels(a);
    TwoLevels(b);
    CutRange4K(a, b);
  }

  /** At levels 0 and 1 the index range of an aligned page range runs over exactly
      those entries of the table of `lo` that cover [lo, min(hi, table end)): the
      range is cut at the end of that table. */
  lemma IndexRangeIsCutAtTableEnd(lo: nat, hi: nat, l: nat)
    requires l <= 1 && lo < hi
    requires Offset(lo, l) == 0 && Offset(hi, l) == 0
    ensures var (s, e) := VpnIndexRange(lo, hi, l);
            && s < e
            && VpnLevelIndex(lo, l, s) == lo
            && VpnLevelIndex(lo, l, e) == Min(hi, TableEnd(lo, l))
  {
    if l == 0 {
      CutRange4K(lo, hi);
    } else {
      assert lo == Key(lo, l) * Span(l) && hi == Key(hi, l) * Span(l);
      hide Key, VpnIndexRange, VpnLevelIndex, TableEnd;
      CutRange2M(Key(lo, 1), Key(hi, 1));
    }
  }

  lemma EntryOf4K(lo: nat, hi: nat, x: nat)
    requires lo <= x < hi && x < (lo / 512 + 1) * 512
    ensures x / 512 == lo / 512
    ensures lo % 512 <= x % 512 < if hi / 512 > lo / 512 then 512 else hi % 512
  {
  }

  /** At levels 0 and 1 a page before the cut uses an entry of the table of `lo`,
      inside the index range. */
  lemma KeptPageIsInRange(lo: nat, hi: nat, l: nat, x: nat)
    requires l <= 1 && lo <= x < Min(hi, TableEnd(lo, l))
    requires Offset(lo, l) == 0 && Offset(hi, l) == 0
    ensures Key(x, l + 1) == Key(lo, l + 1)
    ensures var (s, e) := VpnIndexRange(lo, hi, l);
            s <= VpnIndex(x, l) < e
  {
    if l == 0 {
      EntryOf4K(lo, hi, x);
    } else {
      var a, b, y := lo / 512, hi / 512, x / 512;
      TwoLevels(a);
      TwoLevels(b);
      assert a * 512 == lo && b * 512 == hi && y < b;
      DoubleDivide(x);
      DoubleDivide(lo);
      DoubleDivide(hi);
      BelowTableEnd2M(x, a);
      EntryOf4K(a, b, y);
    }
  }

  lemma DoubleDivide(x: nat)
    ensures x / 512 / 512 == x / 262144
  {
  }

  lemma BelowTableEnd2M(x: nat, a: nat)
    requires x < (a / 512 + 1) * 262144
    ensures x / 512 < (a / 512 + 1) * 512
  {
  }

  lemma Multiples1G(k: nat, y: nat)
    requires k < 512
    ensures k * 262144 / 262144 == k && k * 262144 % 262144 == 0
    ensures k <= y / 262144 <==> k * 262144 <= y
  {
  }

  /** Level-2 key of a page given by its 512G block and the rest. */
  lemma Key1G(q: nat, y: nat)
    requires y < VPN_LIMIT
    ensures VpnIndex(q * VPN_LIMIT + y, 2) == y / 262144 < 512
  {
    LowBits(q, y);
  }

  lemma IndexRange1GEnds(lo: nat, hi: nat)
    ensures VpnIndexRange(lo, hi, 2) == (VpnIndex(lo, 2), VpnIndex(hi, 2))
  {
  }

  /** At level 2 nothing is cut and the end index is masked: a range inside one
      512G table gets the entries of all its pages. */
  lemma IndexRange1G(q: nat, a: nat, b: nat, y: nat)
    requires a < b < VPN_LIMIT && a % 262144 == 0 && b % 262144 == 0 && y < VPN_LIMIT
    ensures var (s, e) := VpnIndexRange(q * VPN_LIMIT + a, q * VPN_LIMIT + b, 2);
            s <= VpnIndex(y, 2) < e <==> a <= y < b
  {
    hide VpnIndexRange, VpnIndex;
    IndexRange1GEnds(q * VPN_LIMIT + a, q * VPN_LIMIT + b);
    Key1G(q, a);
    Key1G(q, b);
    Key1G(0, y);
    Multiples1G(a / 262144, y);
    Multiples1G(b / 262144, y);
  }

  lemma NextTable(lo: nat, hi: nat)
    requires lo < hi <= lo + VPN_LIMIT && lo / VPN_LIMIT != hi / VPN_LIMIT
    ensures hi % VPN_LIMIT <= lo % VPN_LIMIT
  {
  }

  /** A level-2 range that reaches or passes the end of a 512G table, but is not
      longer than one, gets no entry at all. */
  lemma IndexRangeIsEmpty1G(lo: nat, hi: nat)
    requires lo < hi <= lo + VPN_LIMIT && Key(lo, 3) != Key(hi, 3)
    ensures var (s, e) := VpnIndexRange(lo, hi, 2); e <= s
  {
    hide VpnIndexRange, VpnIndex;
    IndexRange1GEnds(lo, hi);
    Key1G(lo / VPN_LIMIT, lo % VPN_LIMIT);
    Key1G(hi / VPN_LIMIT, hi % VPN_LIMIT);
    NextTable(lo, hi);
    Monotone1G(hi % VPN_LIMIT, lo % VPN_LIMIT);
  }

  lemma Monotone1G(a: nat, b: nat)
    requires a <= b
    ensures a / 262144 <= b / 262144
  {
  }

  lemma SlotOf4K(q: nat, i: nat)
    requires i < 512
    ensures (q * 512 + i) / 512 == q && (q * 512 + i) % 512 == i
  {
  }

  lemma SlotOf2M(q: nat, i: nat)
    requires i < 512
    ensures var x := q * 262144 + i * 512;
            x / 512 == q * 512 + i && x % 512 == 0 && x / 262144 == q
  {
  }

  lemma SlotOf1G(h: nat, i: nat)
    requires i < 512
    ensures var x := h * PPN_LIMIT + i * 262144;
            x % 262144 == 0 && x % VPN_LIMIT == i * 262144
    ensures i * 262144 / 262144 == i && i * 262144 / VPN_LIMIT == 0
  {
    assert h * PPN_LIMIT == (h * 131072) * VPN_LIMIT;
    SameLowBits(h * 131072, i * 262144);
    LowBits(h * 131072, i * 262144);
  }

  lemma SameLowBits(q: nat, y: nat)
    requires y < VPN_LIMIT
    ensures (q * VPN_LIMIT + y) % VPN_LIMIT == y
  {
  }

  /** Entry `idx` of the table of `lo` starts at `VpnLevelIndex`, and the low bits
      of that page number lead back to the same table and entry. */
  lemma LevelIndexInvertsIndex(lo: nat, l: nat, idx: nat)
    requires l <= 2 && idx < 512
    ensures var c := VpnLevelIndex(lo, l, idx);
            var b := TableVpn(c);
            && Offset(c, l) == 0 && Offset(b, l) == 0
            && b == VpnLevelIndex(TableVpn(lo), l, idx)
            && Key(b, l + 1) == Key(TableVpn(lo), l + 1)
            && Key(b, l) == Key(TableVpn(lo), l + 1) * 512 + idx
            && b + Span(l) <= VPN_LIMIT
            && VpnLevelIndex(lo, l, idx + 1) == c + Span(l)
  {
    if l == 0 {
      Level0Index(lo, idx);
    } else if l == 1 {
      Level1Index(lo, idx);
    } else {
      Level2Index(lo, idx);
    }
  }

  lemma Level0Index(lo: nat, idx: nat)
    requires idx < 512
    ensures var c, y := lo - lo % 512 + idx, lo % VPN_LIMIT;
            var b := c % VPN_LIMIT;
            b == y - y % 512 + idx && b / 512 == y / 512 && b + 1 <= VPN_LIMIT && b == y / 512 * 512 + idx
  {
    LowBits(lo / VPN_LIMIT, lo % VPN_LIMIT);
    assert lo == lo / VPN_LIMIT * VPN_LIMIT + lo % VPN_LIMIT;
    var y := lo % VPN_LIMIT;
    SlotOf4K(y / 512, idx);
    assert y - y % 512 + idx < VPN_LIMIT;
    SameLowBits(lo / VPN_LIMIT, y - y % 512 + idx);
  }

  lemma Level1Index(lo: nat, idx: nat)
    requires idx < 512
    ensures var c, y := lo - lo % 262144 + idx * 512, lo % VPN_LIMIT;
            var b := c % VPN_LIMIT;
            && c % 512 == 0 && b % 512 == 0 && b == y - y % 262144 + idx * 512
            && b / 262144 == y / 262144 && b + 512 <= VPN_LIMIT && b / 512 == y / 262144 * 512 + idx
  {
    LowBits(lo / VPN_LIMIT, lo % VPN_LIMIT);
    assert lo == lo / VPN_LIMIT * VPN_LIMIT + lo % VPN_LIMIT;
    var y := lo % VPN_LIMIT;
    SlotOf2M(y / 262144, idx);
    SlotOf2M(lo / 262144, idx);
    assert y - y % 262144 == y / 262144 * 262144;
    assert lo - lo % 262144 == lo / 262144 * 262144;
    assert y - y % 262144 + idx * 512 + 512 <= VPN_LIMIT;
    SameLowBits(lo / VPN_LIMIT, y - y % 262144 + idx * 512);
  }

  lemma Level2Index(lo: nat, idx: nat)
    requires idx < 512
    ensures var c, y := lo - lo % PPN_LIMIT + idx * 262144, lo % VPN_LIMIT;
            var b := c % VPN_LIMIT;
            && c % 262144 == 0 && b % 262144 == 0 && y % PPN_LIMIT == y && b == idx * 262144
            && b / VPN_LIMIT == y / VPN_LIMIT && b + 262144 <= VPN_LIMIT && b / 262144 == idx
            && y / VPN_LIMIT == 0
  {
    SlotOf1G(lo / PPN_LIMIT, idx);
    assert lo - lo % PPN_LIMIT == lo / PPN_LIMIT * PPN_LIMIT;
  }

  /** A page's keys at successive levels: the key one level up and the table index. */
  lemma KeySplit(x: nat, l: nat)
    requires l <= 2
    ensures Key(x, l) == Key(x, l + 1) * 512 + VpnIndex(x, l)
    ensures Key(x, l) / 512 == Key(x, l + 1)
    ensures x < VPN_LIMIT ==> Key(x, 3) == 0
  {
  }

  /** The pages with level-`l` key `k` are the `Span(l)` pages of one block. */
  lemma BlockPages(b: nat, l: nat, x: nat)
    requires l <= 2 && Offset(b, l) == 0
    ensures Key(x, l) == Key(b, l) <==> b <= x < b + Span(l)
    ensures b <= x < b + Span(l) ==> Offset(x, l) == x - b
  {
  }

  // ----- page-table entries -----

  const FLAG_V := 1
  const FLAG_R := 2
  const FLAG_W := 4
  const FLAG_X := 8

  predicate Has(flags: nat, bit: nat)
    requires bit > 0
  {
    (flags / bit) % 2 == 1
  }

  lemma SetLowBit(flags: nat)
    requires flags % 2 == 0
    ensures (flags + 1) / 2 == flags / 2 && (flags + 1) / 4 == flags / 4 && (flags + 1) / 8 == flags / 8
    ensures flags < 256 ==> flags + 1 < 256
  {
  }

  /** `V | flags` on an 8-bit flag set. */
  function WithV(flags: nat): (r: nat)
    ensures Has(r, FLAG_V)
    ensures r % 2 == 1 && r / 2 == flags / 2
    ensures flags < 256 ==> r < 256
    ensures Has(r, FLAG_R) <==> Has(flags, FLAG_R)
    ensures Has(r, FLAG_W) <==> Has(flags, FLAG_W)
    ensures Has(r, FLAG_X) <==> Has(flags, FLAG_X)
  {
    if flags % 2 == 1 then flags
    else
      SetLowBit(flags);
      flags + 1
  }

  /** `(ppn << 10) | flags`: the two parts do not overlap. */
  function Entry(ppn: nat, flags: nat): nat
    requires flags < 256
  {
    Wrap(ppn * 1024) + flags
  }

  function EntryPpn(w: nat): (p: nat)
    ensures p < PPN_LIMIT
  {
    (w / 1024) % PPN_LIMIT
  }

  function EntryFlags(w: nat): (f: nat)
    ensures f < 256
  {
    w % 256
  }

  predicate IsValid(w: nat) {
    Has(EntryFlags(w), FLAG_V)
  }

  predicate IsLeaf(w: nat) {
    Has(EntryFlags(w), FLAG_R) || Has(EntryFlags(w), FLAG_X)
  }

  /** Writable but not readable is reserved. */
  predicate IsReserved(w: nat) {
    !Has(EntryFlags(w), FLAG_R) && Has(EntryFlags(w), FLAG_W)
  }

  predicate LeafFlags(flags: nat) {
    && flags < 256
    && (Has(flags, FLAG_R) || Has(flags, FLAG_X))
    && (Has(flags, FLAG_W) ==> Has(flags, FLAG_R))
  }

  /** What `slot_set_mapping` writes. */
  function MappingEntry(ppn: nat, flags: nat): nat
    requires flags < 256
  {
    Entry(ppn, WithV(flags))
  }

  /** What `slot_set_child` writes: V alone. */
  function ChildEntry(ppn: nat): nat {
    Entry(ppn, FLAG_V)
  }

  /** The shift pushes the top ten bits of the page number out of the word. */
  lemma ShiftedPpn(ppn: nat)
    ensures Wrap(ppn * 1024) == (ppn % 0x40_0000_0000_0000) * 1024
  {
  }

  lemma EntryFields(h: nat, flags: nat)
    requires flags < 256
    ensures (h * 1024 + flags) / 1024 == h && (h * 1024 + flags) % 256 == flags
  {
    LowByte(h * 4, flags);
  }

  lemma LowByte(k: nat, r: nat)
    requires r < 256
    ensures (k * 256 + r) % 256 == r
  {
  }

  lemma FieldWidth(h: nat)
    ensures h % 0x40_0000_0000_0000 % PPN_LIMIT == h % PPN_LIMIT
  {
  }

  /** Reading back an entry gives its flags, and its page number up to the 44
      bits the format has. */
  lemma EntryRoundTrip(ppn: nat, flags: nat)
    requires flags < 256
    ensures EntryFlags(Entry(ppn, flags)) == flags
    ensures Entry(ppn, flags) % 1024 == flags
    ensures EntryPpn(Entry(ppn, flags)) == ppn % PPN_LIMIT
    ensures EntryPpn(Entry(ppn, flags)) == ppn <==> ppn < PPN_LIMIT
  {
    ShiftedPpn(ppn);
    EntryFields(ppn % 0x40_0000_0000_0000, flags);
    FieldWidth(ppn);
  }

  /** A mapping entry is read by the hardware as a leaf exactly when the caller's
      flags are proper leaf flags; otherwise it is a pointer or reserved. */
  lemma MappingEntryIsLeaf(ppn: nat, flags: nat)
    requires flags < 256
    ensures var w := MappingEntry(ppn, flags);
            && IsValid(w)
            && (IsLeaf(w) && !IsReserved(w) <==> LeafFlags(flags))
            && EntryPpn(w) == ppn % PPN_LIMIT
            && EntryFlags(w) == WithV(flags)
            && w % 2 == 1 && w % 1024 / 2 == flags / 2
  {
    hide Entry, WithV, EntryPpn;
    EntryRoundTrip(ppn, WithV(flags));
    LowBitOf(MappingEntry(ppn, flags));
  }

  lemma LowBitOf(w: nat)
    ensures w % 1024 % 2 == w % 2
  {
  }

  lemma ChildEntryIsPointer(ppn: nat)
    requires ppn < PPN_LIMIT
    ensures var w := ChildEntry(ppn);
            IsValid(w) && !IsLeaf(w) && !IsReserved(w) && EntryPpn(w) == ppn && w % 1024 == 1
  {
    EntryRoundTrip(ppn, FLAG_V);
  }

  // ----- physical memory -----

  type Table = t: seq<nat> | |t| == 512 witness seq(512, _ => 0)

  /** Frames by page number; a frame that is absent is all zero. */
  type Memory = map<nat, Table>

  function ZeroTable(): (t: Table)
    ensures forall i :: 0 <= i < 512 ==> t[i] == 0
  {
    seq(512, i => 0)
  }

  function Page(mem: Memory, f: nat): Table {
    if f in mem then mem[f] else ZeroTable()
  }

  function Read(mem: Memory, f: nat, i: nat): nat
    requires i < 512
  {
    Page(mem, f)[i]
  }

  function Write(mem: Memory, f: nat, i: nat, w: nat): (mem': Memory)
    requires i < 512
    ensures forall g: nat, j: nat :: j < 512 ==>
              Read(mem', g, j) == if g == f && j == i then w else Read(mem, g, j)
    ensures forall g: nat :: g != f ==> Page(mem', g) == Page(mem, g)
  {
    mem[f := Page(mem, f)[i := w]]
  }

  function ClearFrame(mem: Memory, f: nat): (mem': Memory)
    ensures forall g: nat, j: nat :: j < 512 ==> Read(mem', g, j) == if g == f then 0 else Read(mem, g, j)
    ensures forall g: nat :: g != f ==> Page(mem', g) == Page(mem, g)
  {
    mem[f := ZeroTable()]
  }

  // ----- the hardware walk -----

  datatype Translation = Fault | Mapped(ppn: nat, flags: nat)

  /** Translated to page `ppn`, with V set and the other seven flags as given. */
  predicate SentTo(t: Translation, ppn: nat, flags: nat) {
    t.Mapped? && t.ppn == ppn && t.flags % 2 == 1 && t.flags / 2 == flags / 2
  }

  lemma SentToIff(t: Translation, ppn: nat, flags: nat)
    ensures SentTo(t, ppn, flags) <==> t == Mapped(ppn, WithV(flags))
  {
    hide WithV;
    if SentTo(t, ppn, flags) {
      assert t.flags == t.flags / 2 * 2 + 1 == WithV(flags) / 2 * 2 + 1;
    }
  }

  /** Translation of virtual page `x` by the level-`l` table in frame `f`. */
  function WalkFrom(mem: Memory, f: nat, l: nat, x: nat): Translation
    requires l <= 2
    decreases l
  {
    var w := Read(mem, f, VpnIndex(x, l));
    if !IsValid(w) || IsReserved(w) then Fault
    else if IsLeaf(w) then
      if Offset(EntryPpn(w), l) != 0 then Fault   // misaligned superpage
      else Mapped(EntryPpn(w) + Offset(x, l), EntryFlags(w))
    else if l == 0 then Fault
    else WalkFrom(mem, EntryPpn(w), l - 1, x)
  }

  function Walk(mem: Memory, root: nat, x: nat): Translation {
    WalkFrom(mem, root, 2, x)
  }

  lemma {:induction false} WalkFromLowBits(mem: Memory, f: nat, l: nat, x: nat)
    requires l <= 2
    ensures WalkFrom(mem, f, l, TableVpn(x)) == WalkFrom(mem, f, l, x)
    decreases l
  {
    hide VpnIndex, Offset, TableVpn, Read, IsValid, IsLeaf, IsReserved, EntryPpn, EntryFlags;
    TableVpnKeepsIndex(x, l);
    if l > 0 {
      WalkFromLowBits(mem, EntryPpn(Read(mem, f, VpnIndex(x, l))), l - 1, x);
    }
  }

  /** The walk looks at the low 27 bits of a page number only. */
  lemma WalkLowBits(mem: Memory, root: nat, x: nat)
    ensures Walk(mem, root, TableVpn(x)) == Walk(mem, root, x)
  {
    WalkFromLowBits(mem, root, 2, x);
  }
}
