/** The fragment of a RISC-V machine that the kernels' assembly uses: 32
    registers, three supervisor CSRs and 8-byte memory words by address. */
module Machine {
  import opened Words

  type Reg = r: nat | r < 32
  type Regs = x: seq<nat> | |x| == 32 witness seq(32, i => 0)
  type Mem = map<nat, nat>

  const SP: Reg := 2
  const T0: Reg := 5
  const T1: Reg := 6
  const T2: Reg := 7
  const A0: Reg := 10
  const A1: Reg := 11

  datatype Csr = Sscratch | Sepc | Sstatus

  datatype Cpu = Cpu(x: Regs, sscratch: nat, sepc: nat, sstatus: nat, mem: Mem)

  datatype Instr =
    | Sd(src: Reg, off: int, base: Reg)
    | Ld(dst: Reg, off: int, base: Reg)
    | Addi(dst: Reg, src: Reg, imm: int)
    | Mv(dst: Reg, src: Reg)
    | Csrr(dst: Reg, csr: Csr)
    | Csrw(csr: Csr, src: Reg)
    | Csrrw(dst: Reg, csr: Csr, src: Reg)

  /** Memory that was never written reads as zero. */
  function Load(mem: Mem, a: nat): nat {
    if a in mem then mem[a] else 0
  }

  function SetReg(x: Regs, r: Reg, v: nat): (x': Regs)
    ensures forall q: nat :: q < 32 ==> x'[q] == if q == r then v else x[q]
  {
    x[r := v]
  }

  function GetCsr(s: Cpu, c: Csr): nat {
    match c case Sscratch => s.sscratch case Sepc => s.sepc case Sstatus => s.sstatus
  }

  function SetCsr(s: Cpu, c: Csr, v: nat): Cpu {
    match c case Sscratch => s.(sscratch := v) case Sepc => s.(sepc := v) case Sstatus => s.(sstatus := v)
  }

  function Step(s: Cpu, i: Instr): Cpu {
    match i
    case Sd(src, off, base) => s.(mem := s.mem[Wrap(s.x[base] + off) := s.x[src]])
    case Ld(dst, off, base) => s.(x := SetReg(s.x, dst, Load(s.mem, Wrap(s.x[base] + off))))
    case Addi(dst, src, imm) => s.(x := SetReg(s.x, dst, Wrap(s.x[src] + imm)))
    case Mv(dst, src) => s.(x := SetReg(s.x, dst, s.x[src]))
    case Csrr(dst, csr) => s.(x := SetReg(s.x, dst, GetCsr(s, csr)))
    case Csrw(csr, src) => SetCsr(s, csr, s.x[src])
    case Csrrw(dst, csr, src) => SetCsr(s, csr, s.x[src]).(x := SetReg(s.x, dst, GetCsr(s, csr)))
  }

  function Exec(s: Cpu, prog: seq<Instr>): Cpu
    decreases |prog|
  {
    if prog == [] then s else Exec(Step(s, prog[0]), prog[1..])
  }

  lemma {:induction false} ExecAppend(s: Cpu, p: seq<Instr>, q: seq<Instr>)
    ensures Exec(s, p + q) == Exec(Exec(s, p), q)
    decreases |p|
  {
    if p == [] {
      assert p + q == q;
    } else {
      assert (p + q)[0] == p[0] && (p + q)[1..] == p[1..] + q;
      ExecAppend(Step(s, p[0]), p[1..], q);
    }
  }

  lemma Exec1(s: Cpu, a: Instr)
    ensures Exec(s, [a]) == Step(s, a)
  {
  }

  lemma Exec2(s: Cpu, a: Instr, b: Instr)
    ensures Exec(s, [a, b]) == Step(Step(s, a), b)
  {
    assert [a, b] == [a] + [b];
    ExecAppend(s, [a], [b]);
    Exec1(s, a);
    Exec1(Step(s, a), b);
  }

  lemma Exec3(s: Cpu, a: Instr, b: Instr, c: Instr)
    ensures Exec(s, [a, b, c]) == Step(Step(Step(s, a), b), c)
  {
    hide Step;
    assert [a, b, c] == [a] + [b, c];
    ExecAppend(s, [a], [b, c]);
    Exec1(s, a);
    Exec2(Step(s, a), b, c);
  }

  lemma Exec4(s: Cpu, a: Instr, b: Instr, c: Instr, d: Instr)
    ensures Exec(s, [a, b, c, d]) == Step(Step(Step(Step(s, a), b), c), d)
  {
    hide Step;
    assert [a, b, c, d] == [a, b] + [c, d];
    ExecAppend(s, [a, b], [c, d]);
    Exec2(s, a, b);
    Exec2(Step(Step(s, a), b), c, d);
  }

  // ----- runs of stores and loads relative to one base register -----

  /** Pairs of a register and its word offset: the operands of consecutive
      `sd`/`ld` lines. */
  type Layout = seq<(Reg, nat)>

  function Stores(layout: Layout, base: Reg): seq<Instr>
    decreases |layout|
  {
    if layout == [] then [] else [Sd(layout[0].0, 8 * layout[0].1, base)] + Stores(layout[1..], base)
  }

  function Loads(layout: Layout, base: Reg): seq<Instr>
    decreases |layout|
  {
    if layout == [] then [] else [Ld(layout[0].0, 8 * layout[0].1, base)] + Loads(layout[1..], base)
  }

  predicate DistinctSlots(layout: Layout) {
    forall i, j :: 0 <= i < j < |layout| ==> layout[i].1 != layout[j].1
  }

  predicate DistinctRegs(layout: Layout) {
    forall i, j :: 0 <= i < j < |layout| ==> layout[i].0 != layout[j].0
  }

  /** All slots of the layout lie in the `n` words from `b`, without wrap-around. */
  predicate FitsAt(layout: Layout, b: nat, n: nat) {
    b + 8 * n <= WORD && forall i :: 0 <= i < |layout| ==> layout[i].1 < n
  }

  /** The words of `mem` at `b` hold the registers of `x` as laid out. */
  ghost predicate Holds(mem: Mem, b: nat, layout: Layout, x: Regs) {
    forall i :: 0 <= i < |layout| ==> Load(mem, b + 8 * layout[i].1) == x[layout[i].0]
  }

  ghost predicate SameOutside(mem: Mem, mem': Mem, lo: nat, hi: nat) {
    forall a: nat :: !(lo <= a < hi) ==> Load(mem', a) == Load(mem, a)
  }

  lemma StoresUnfold(s: Cpu, layout: Layout, base: Reg)
    requires layout != []
    ensures Exec(s, Stores(layout, base)) ==
            Exec(Step(s, Sd(layout[0].0, 8 * layout[0].1, base)), Stores(layout[1..], base))
    ensures forall i :: 0 <= i < |layout[1..]| ==> layout[1..][i] == layout[i + 1]
  {
  }

  /** Stores change memory only, and only the listed words. */
  lemma {:induction false} StoresFrame(s: Cpu, layout: Layout, base: Reg, n: nat, a: nat)
    requires FitsAt(layout, s.x[base], n)
    requires forall i :: 0 <= i < |layout| ==> a != s.x[base] + 8 * layout[i].1
    ensures var s' := Exec(s, Stores(layout, base));
            s' == s.(mem := s'.mem) && Load(s'.mem, a) == Load(s.mem, a)
    decreases |layout|
  {
    if layout != [] {
      StoresUnfold(s, layout, base);
      StoresFrame(Step(s, Sd(layout[0].0, 8 * layout[0].1, base)), layout[1..], base, n, a);
    }
  }

  lemma {:induction false} StoresHold(s: Cpu, layout: Layout, base: Reg, n: nat)
    requires DistinctSlots(layout) && FitsAt(layout, s.x[base], n)
    ensures Holds(Exec(s, Stores(layout, base)).mem, s.x[base], layout, s.x)
    decreases |layout|
  {
    if layout != [] {
      StoresUnfold(s, layout, base);
      var s1 := Step(s, Sd(layout[0].0, 8 * layout[0].1, base));
      StoresHold(s1, layout[1..], base, n);
      StoresFrame(s1, layout[1..], base, n, s.x[base] + 8 * layout[0].1);
      var mem := Exec(s, Stores(layout, base)).mem;
      forall i | 0 <= i < |layout|
        ensures Load(mem, s.x[base] + 8 * layout[i].1) == s.x[layout[i].0]
      {
        if i > 0 {
          assert layout[1..][i - 1] == layout[i];
        }
      }
    }
  }

  /** A run of stores saves every register in its own word and touches nothing else. */
  lemma StoresSave(s: Cpu, layout: Layout, base: Reg, n: nat)
    requires DistinctSlots(layout) && FitsAt(layout, s.x[base], n)
    ensures var s' := Exec(s, Stores(layout, base));
            && s' == s.(mem := s'.mem)
            && Holds(s'.mem, s.x[base], layout, s.x)
            && SameOutside(s.mem, s'.mem, s.x[base], s.x[base] + 8 * n)
  {
    StoresHold(s, layout, base, n);
    var s' := Exec(s, Stores(layout, base));
    StoresFrame(s, layout, base, n, s.x[base] + 8 * n);
    forall a: nat | !(s.x[base] <= a < s.x[base] + 8 * n)
      ensures Load(s'.mem, a) == Load(s.mem, a)
    {
      StoresFrame(s, layout, base, n, a);
    }
  }

  /** A run of loads fills every listed register from its own word and changes
      nothing else. */
  lemma {:induction false} LoadsRestore(s: Cpu, layout: Layout, base: Reg, n: nat)
    requires DistinctRegs(layout) && FitsAt(layout, s.x[base], n)
    requires forall i :: 0 <= i < |layout| ==> layout[i].0 != base
    ensures var s' := Exec(s, Loads(layout, base));
            && s' == s.(x := s'.x)
            && Holds(s.mem, s.x[base], layout, s'.x)
            && forall r: Reg :: (forall i :: 0 <= i < |layout| ==> layout[i].0 != r) ==> s'.x[r] == s.x[r]
    decreases |layout|
  {
    if layout != [] {
      var rest := layout[1..];
      var s1 := Step(s, Ld(layout[0].0, 8 * layout[0].1, base));
      var prog := Loads(layout, base);
      assert prog[0] == Ld(layout[0].0, 8 * layout[0].1, base) && prog[1..] == Loads(rest, base);
      assert Exec(s, prog) == Exec(s1, Loads(rest, base));
      assert forall i :: 0 <= i < |rest| ==> rest[i] == layout[i + 1];
      assert s1.x[base] == s.x[base];
      LoadsRestore(s1, rest, base, n);
      var s' := Exec(s1, Loads(rest, base));
      assert s'.x[layout[0].0] == s1.x[layout[0].0];
      forall i | 0 <= i < |layout|
        ensures Load(s.mem, s.x[base] + 8 * layout[i].1) == s'.x[layout[i].0]
      {
        if i > 0 {
          assert rest[i - 1] == layout[i];
        }
      }
      forall r: Reg | forall i :: 0 <= i < |layout| ==> layout[i].0 != r
        ensures s'.x[r] == s.x[r]
      {
        assert layout[0].0 != r;
        assert forall i :: 0 <= i < |rest| ==> rest[i].0 != r;
      }
    }
  }

  /** A machine whose state is changed in place, with its fetch-and-execute loop. */
  class Hart {
    var cpu: Cpu

    constructor (cpu: Cpu)
      ensures this.cpu == cpu
    {
      this.cpu := cpu;
    }

    method Execute(prog: seq<Instr>)
      modifies this
      ensures cpu == Exec(old(cpu), prog)
    {
      for pc := 0 to |prog|
        invariant Exec(cpu, prog[pc..]) == Exec(old(cpu), prog)
      {
        assert prog[pc..][0] == prog[pc] && prog[pc..][1..] == prog[pc + 1..];
        cpu := Step(cpu, prog[pc]);
      }
    }
  }
}
