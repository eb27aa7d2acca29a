/** `PagedAddrSpace` of 03-virt-addr-kern/src/mm.rs as a mutable object that owns
    frames of a shared allocator and writes shared physical memory. Every method
    is proved to compute the function of the same name in AddressSpace.dfy. */
module PagedAddrSpace {
  import opened Words
  import opened Sv39
  import opened MapSolver
  import FP = FramePool
  import AS = AddressSpace

  class PhysMemory {
    var pages: Memory

    constructor (pages: Memory)
      ensures this.pages == pages
    {
      this.pages := pages;
    }
  }

  function VisitLevelsBefore(l: nat): seq<nat>
    requires l <= 2
  {
    if l == 0 then [2, 1] else if l == 1 then [2] else []
  }

  class PagedAddrSpace {
    const ram: PhysMemory
    const frameAlloc: FP.StackFrameAllocator
    var rootFrame: nat
    var frames: seq<nat>

    function Value(): AS.Space
      reads this, ram, frameAlloc
    {
      AS.Space(ram.pages, frameAlloc.Value(), rootFrame, frames)
    }

    constructor (ram: PhysMemory, frameAlloc: FP.StackFrameAllocator, rootFrame: nat)
      ensures this.ram == ram && this.frameAlloc == frameAlloc
      ensures this.rootFrame == rootFrame && frames == []
    {
      this.ram, this.frameAlloc := ram, frameAlloc;
      this.rootFrame, frames := rootFrame, [];
    }

    static method TryNewIn(ram: PhysMemory, frameAlloc: FP.StackFrameAllocator) returns (r: Option<PagedAddrSpace>)
      modifies ram, frameAlloc
      ensures var (pool', s) := AS.Create(old(ram.pages), old(frameAlloc.Value()));
              && frameAlloc.Value() == pool'
              && (r.Some? <==> s.Some?)
              && (r.Some? ==> fresh(r.value) && r.value.ram == ram && r.value.frameAlloc == frameAlloc
                              && r.value.Value() == s.value)
              && (r.None? ==> ram.pages == old(ram.pages))
      ensures r.Some? ==>
                && (forall i: nat :: i < 512 ==> Read(ram.pages, r.value.rootFrame, i) == 0)
                && (forall h: nat :: h != r.value.rootFrame ==> Page(ram.pages, h) == Page(old(ram.pages), h))
    {
      var root := frameAlloc.AllocateFrame();
      if root.None? {
        return None;
      }
      ram.pages := ClearFrame(ram.pages, root.value);
      var space := new PagedAddrSpace(ram, frameAlloc, root.value);
      r := Some(space);
    }

    method AllocGetTable(entryLevel: nat, vpnStart: nat) returns (table: Option<nat>)
      requires entryLevel <= 2
      modifies this, ram, frameAlloc
      ensures (Value(), table) == AS.GetTable(old(Value()), old(rootFrame), 2, entryLevel, vpnStart)
      ensures rootFrame == old(rootFrame)
    {
      var ppn := rootFrame;
      var levels := VisitLevelsBefore(entryLevel);
      for b := 0 to |levels|
        invariant rootFrame == old(rootFrame)
        invariant AS.GetTable(Value(), ppn, 2 - b, entryLevel, vpnStart)
               == AS.GetTable(old(Value()), old(rootFrame), 2, entryLevel, vpnStart)
      {
        var vidx := VpnIndex(vpnStart, levels[b]);
        var entry := Read(ram.pages, ppn, vidx);
        if IsValid(entry) {
          ppn := EntryPpn(entry);
        } else {
          var frame := frameAlloc.AllocateFrame();
          if frame.None? {
            return None;
          }
          ram.pages := Write(ram.pages, ppn, vidx, ChildEntry(frame.value));
          ppn := frame.value;
          frames := frames + [frame.value];
        }
      }
      table := Some(ppn);
    }

    method AllocateMap(vpn: nat, ppn: nat, n: nat, flags: nat) returns (outcome: AS.Outcome)
      requires vpn < 0x10_0000_0000_0000 && ppn < WORD && vpn + n < WORD && flags < 256
      modifies this, ram, frameAlloc
      ensures var r := AS.AllocateMap(old(Value()), vpn, ppn, n, flags);
              Value() == r.space && outcome == r.outcome
    {
      var pieces := Solve(vpn, ppn, n);
      SplitIsExactTiling(vpn, ppn, n);
      hide Pieces, AS.GetTable, AS.WriteEntries;
      for k := 0 to |pieces|
        invariant forall pc :: pc in pieces ==> pc.level <= 2
        invariant var r, r0 := AS.MapPieces(Value(), vpn, ppn, pieces[k..], flags),
                               AS.MapPieces(old(Value()), vpn, ppn, pieces, flags);
                  r.space == r0.space && r.outcome == r0.outcome
      {
        var pc := pieces[k];
        assert pieces[k..][0] == pc && pieces[k..][1..] == pieces[k + 1..];
        var table := AllocGetTable(pc.level, pc.lo);
        if table.None? {
          return AS.FrameAllocError;
        }
        var ok := WriteRange(table.value, vpn, ppn, pc, flags);
        if !ok {
          return AS.AlreadyAllocated;
        }
      }
      outcome := AS.Ok;
    }

    /** The inner loop of `allocate_map`; `ok` is false where the source panics. */
    method WriteRange(table: nat, vpn: nat, ppn: nat, pc: Piece, flags: nat) returns (ok: bool)
      requires pc.level <= 2 && flags < 256
      modifies ram
      ensures var (i, e) := VpnIndexRange(pc.lo, pc.hi, pc.level);
              (ram.pages, ok) == AS.WriteEntries(old(ram.pages), table, vpn, ppn, pc.lo, pc.level, i, e, flags)
    {
      hide VpnIndexRange, VpnLevelIndex, Shift, IsValid, MappingEntry;
      var (vidx, end) := VpnIndexRange(pc.lo, pc.hi, pc.level);
      while vidx < end
        invariant end <= 512
        invariant AS.WriteEntries(ram.pages, table, vpn, ppn, pc.lo, pc.level, vidx, end, flags)
               == AS.WriteEntries(old(ram.pages), table, vpn, ppn, pc.lo, pc.level,
                                  VpnIndexRange(pc.lo, pc.hi, pc.level).0, end, flags)
      {
        var thisPpn := Shift(vpn, ppn, VpnLevelIndex(pc.lo, pc.level, vidx));
        if IsValid(Read(ram.pages, table, vidx)) {
          return false;
        }
        ram.pages := Write(ram.pages, table, vidx, MappingEntry(thisPpn, flags));
        vidx := vidx + 1;
      }
      ok := true;
    }

    /** The drop of the space: the root frame first, then `frames` in order. */
    method Drop() returns (ok: bool)
      modifies frameAlloc
      ensures ok <==> AS.Drop(old(Value())).Some?
      ensures ok ==> frameAlloc.Value() == AS.Drop(old(Value())).value
    {
      var owned := [rootFrame] + frames;
      for k := 0 to |owned|
        invariant AS.FreeAll(frameAlloc.Value(), owned[k..]) == AS.FreeAll(old(frameAlloc.Value()), owned)
      {
        assert owned[k..][0] == owned[k] && owned[k..][1..] == owned[k + 1..];
        ok := frameAlloc.DeallocateFrame(owned[k]);
        if !ok {
          return;
        }
      }
      ok := true;
    }
  }
}
