/** `switch_task` of 02-multi-program-kern/kernel/src/task.rs: saves the
    callee-saved registers of one task on its kernel stack and loads those of
    another. */
module TaskSwitch {
  import opened Words
  import opened Machine

  const CONTEXT_BYTES := 104      // size of a TaskContext: 13 words

  /** ra and s0..s11 in the order of `TaskContext`. */
  const SWITCH_LAYOUT: Layout := [
    (1, 0), (8, 1), (9, 2), (18, 3), (19, 4), (20, 5), (21, 6),
    (22, 7), (23, 8), (24, 9), (25, 10), (26, 11), (27, 12)]

  function SavedReg(k: nat): Reg
    requires k < 13
  {
    if k == 0 then 1 else if k <= 2 then k + 7 else k + 15
  }

  lemma SwitchLayoutShape()
    ensures |SWITCH_LAYOUT| == 13
    ensures forall k :: 0 <= k < 13 ==> SWITCH_LAYOUT[k] == (SavedReg(k), k)
    ensures DistinctSlots(SWITCH_LAYOUT) && DistinctRegs(SWITCH_LAYOUT)
    ensures forall k :: 0 <= k < 13 ==> SWITCH_LAYOUT[k].0 !in {SP, A0, A1}
  {
  }

  const SWITCH_HEAD: seq<Instr> := [Addi(SP, SP, -13 * 8), Sd(SP, 0, A0)]
  const SWITCH_STACK: seq<Instr> := [Mv(SP, A1)]
  const SWITCH_TAIL: seq<Instr> := [Addi(SP, SP, 13 * 8)]

  function SwitchTask(): seq<Instr> {
    SWITCH_HEAD + (Stores(SWITCH_LAYOUT, SP) + (SWITCH_STACK + (Loads(SWITCH_LAYOUT, SP) + SWITCH_TAIL)))
  }

  /** What a task keeps across a switch: sp, and ra, s0..s11. */
  datatype Context = Context(sp: nat, regs: seq<nat>)

  function ContextOf(x: Regs): Context {
    Context(x[SP], seq(13, k requires 0 <= k < 13 => x[SavedReg(k)]))
  }

  /** The 13 words at `b` are the saved context `c`, to be resumed with sp above them. */
  ghost predicate ContextHolds(mem: Mem, b: nat, c: Context) {
    c.sp == b + CONTEXT_BYTES && |c.regs| == 13 && forall k: nat :: k < 13 ==> Load(mem, b + 8 * k) == c.regs[k]
  }

  /** Two register files have the same context exactly if ra, sp, s0, s1 and s2..s11
      agree: all that a called function has to keep, save gp and tp. */
  lemma SameContextIff(x: Regs, y: Regs)
    ensures ContextOf(x) == ContextOf(y) <==>
            forall r: nat :: r < 32 && (r == 1 || r == 2 || r == 8 || r == 9 || 18 <= r < 28) ==> x[r] == y[r]
  {
    if ContextOf(x) == ContextOf(y) {
      forall r: nat | r < 32 && (r == 1 || r == 2 || r == 8 || r == 9 || 18 <= r < 28)
        ensures x[r] == y[r]
      {
        if r != 2 {
          var k := if r == 1 then 0 else if r <= 9 then r - 7 else r - 15;
          assert ContextOf(x).regs[k] == x[r] && ContextOf(y).regs[k] == y[r];
        }
      }
    }
  }

  /** A stored context is ra, s0, s1, s2..s11 in this order, with sp above them. */
  lemma ContextWords(mem: Mem, b: nat, x: Regs)
    requires ContextHolds(mem, b, ContextOf(x))
    ensures x[2] == b + 104
    ensures Load(mem, b) == x[1] && Load(mem, b + 8) == x[8] && Load(mem, b + 16) == x[9]
    ensures forall i: nat :: i < 10 ==> Load(mem, b + 24 + 8 * i) == x[18 + i]
  {
    hide Load;
    var regs := ContextOf(x).regs;
    assert regs[0] == x[1] && regs[1] == x[8] && regs[2] == x[9];
    forall i: nat | i < 10
      ensures Load(mem, b + 24 + 8 * i) == x[18 + i]
    {
      assert regs[i + 3] == x[18 + i];
      assert b + 24 + 8 * i == b + 8 * (i + 3);
    }
  }

  lemma ContextIsHeld(mem: Mem, b: nat, x: Regs)
    requires Holds(mem, b, SWITCH_LAYOUT, x)
    ensures forall k: nat :: k < 13 ==> Load(mem, b + 8 * k) == x[SavedReg(k)]
  {
    SwitchLayoutShape();
    hide Load;
    forall k: nat | k < 13
      ensures Load(mem, b + 8 * k) == x[SavedReg(k)]
    {
      assert SWITCH_LAYOUT[k] == (SavedReg(k), k);
    }
  }

  lemma SwitchInParts(s: Cpu)
    ensures Exec(s, SwitchTask()) ==
            Exec(Exec(Exec(Exec(Exec(s, SWITCH_HEAD), Stores(SWITCH_LAYOUT, SP)), SWITCH_STACK),
                      Loads(SWITCH_LAYOUT, SP)), SWITCH_TAIL)
  {
    hide Exec, Stores, Loads, SWITCH_HEAD, SWITCH_STACK, SWITCH_TAIL, SWITCH_LAYOUT;
    var p3 := Loads(SWITCH_LAYOUT, SP) + SWITCH_TAIL;
    var p2 := SWITCH_STACK + p3;
    var s1 := Exec(s, SWITCH_HEAD);
    var s2 := Exec(s1, Stores(SWITCH_LAYOUT, SP));
    ExecAppend(s, SWITCH_HEAD, Stores(SWITCH_LAYOUT, SP) + p2);
    ExecAppend(s1, Stores(SWITCH_LAYOUT, SP), p2);
    ExecAppend(s2, SWITCH_STACK, p3);
    ExecAppend(Exec(s2, SWITCH_STACK), Loads(SWITCH_LAYOUT, SP), SWITCH_TAIL);
  }

  lemma SwitchHead(s: Cpu)
    requires CONTEXT_BYTES <= s.x[SP] < WORD && s.x[A0] < WORD
    ensures var b := s.x[SP] - CONTEXT_BYTES;
            Exec(s, SWITCH_HEAD) == s.(x := SetReg(s.x, SP, b), mem := s.mem[s.x[A0] := b])
  {
    hide Exec, SetReg;
    Exec2(s, Addi(SP, SP, -13 * 8), Sd(SP, 0, A0));
  }

  /** A stack pointer with room for a context below it, the word that receives
      the pointer to that context, and the context to load. */
  ghost predicate SwitchReady(s: Cpu) {
    && CONTEXT_BYTES <= s.x[SP] < WORD
    && s.x[A0] < WORD && !(s.x[SP] - CONTEXT_BYTES <= s.x[A0] < s.x[SP])
    && s.x[A1] + CONTEXT_BYTES < WORD
  }

  /** State after the switch: memory with the pushed registers, and the registers
      loaded from it before the final adjustment of sp. */
  lemma SwitchStates(s: Cpu) returns (mem: Mem, x: Regs)
    requires SwitchReady(s)
    ensures var b := s.x[SP] - CONTEXT_BYTES;
            && Exec(s, SwitchTask()) == s.(x := SetReg(x, SP, s.x[A1] + CONTEXT_BYTES), mem := mem)
            && (forall k: nat :: k < 13 ==> Load(mem, b + 8 * k) == s.x[SavedReg(k)])
            && SameOutside(s.mem[s.x[A0] := b], mem, b, s.x[SP])
            && (forall k: nat :: k < 13 ==> Load(mem, s.x[A1] + 8 * k) == x[SavedReg(k)])
  {
    hide Exec, Stores, Loads, SwitchTask, SWITCH_HEAD, SWITCH_STACK, SWITCH_TAIL, SavedReg, Holds, Load, SameOutside,
      SetReg;
    var b := s.x[SP] - CONTEXT_BYTES;
    SwitchLayoutShape();
    SwitchInParts(s);
    SwitchHead(s);
    var s1 := Exec(s, SWITCH_HEAD);
    assert FitsAt(SWITCH_LAYOUT, b, 13) && FitsAt(SWITCH_LAYOUT, s.x[A1], 13);
    assert forall i :: 0 <= i < |SWITCH_LAYOUT| ==> SWITCH_LAYOUT[i].0 != SP;
    hide SWITCH_LAYOUT, DistinctRegs, DistinctSlots, FitsAt;
    StoresSave(s1, SWITCH_LAYOUT, SP, 13);
    var s2 := Exec(s1, Stores(SWITCH_LAYOUT, SP));
    StackMoves(s2);
    var s3 := Exec(s2, SWITCH_STACK);
    LoadsRestore(s3, SWITCH_LAYOUT, SP, 13);
    var s4 := Exec(s3, Loads(SWITCH_LAYOUT, SP));
    StackPops(s4);
    mem, x := s2.mem, s4.x;
    ContextIsHeld(mem, b, s1.x);
    ContextIsHeld(mem, s.x[A1], x);
    SavedRegsAreNotSp();
  }

  /** The switch pushes the running task's context, publishes its address at a0,
      and continues with the 13 words at a1, read after the push. */
  lemma SwitchEffect(s: Cpu)
    requires SwitchReady(s)
    ensures var b := s.x[SP] - CONTEXT_BYTES;
            var s' := Exec(s, SwitchTask());
            && Load(s'.mem, s.x[A0]) == b
            && ContextHolds(s'.mem, b, ContextOf(s.x))
            && (forall a: nat :: a != s.x[A0] && !(b <= a < s.x[SP]) ==> Load(s'.mem, a) == Load(s.mem, a))
            && ContextHolds(s'.mem, s.x[A1], ContextOf(s'.x))
            && s'.sscratch == s.sscratch
  {
    hide Exec, SwitchTask, SetReg, Load, SameOutside, ContextHolds, ContextOf, SavedReg;
    var b := s.x[SP] - CONTEXT_BYTES;
    var mem, x := SwitchStates(s);
    PushIsLocal(s.mem, mem, s.x[A0], b, s.x[SP]);
    ContextIsStored(mem, b, s.x);
    SavedRegsAreNotSp();
    ContextIsStored(mem, s.x[A1], SetReg(x, SP, s.x[A1] + CONTEXT_BYTES));
  }

  lemma PushIsLocal(mem: Mem, mem': Mem, p: nat, lo: nat, hi: nat)
    requires SameOutside(mem[p := lo], mem', lo, hi) && !(lo <= p < hi)
    ensures Load(mem', p) == lo
    ensures forall a: nat :: a != p && !(lo <= a < hi) ==> Load(mem', a) == Load(mem, a)
  {
  }

  lemma ContextIsStored(mem: Mem, b: nat, x: Regs)
    requires x[SP] == b + CONTEXT_BYTES
    requires forall k: nat :: k < 13 ==> Load(mem, b + 8 * k) == x[SavedReg(k)]
    ensures ContextHolds(mem, b, ContextOf(x))
  {
  }

  lemma SavedRegsAreNotSp()
    ensures forall k: nat :: k < 13 ==> SavedReg(k) != SP
  {
  }

  lemma StackMoves(s: Cpu)
    ensures Exec(s, SWITCH_STACK) == s.(x := SetReg(s.x, SP, s.x[A1]))
  {
    hide Exec, SetReg;
    Exec1(s, Mv(SP, A1));
  }

  lemma StackPops(s: Cpu)
    requires s.x[SP] + CONTEXT_BYTES < WORD
    ensures Exec(s, SWITCH_TAIL) == s.(x := SetReg(s.x, SP, s.x[SP] + CONTEXT_BYTES))
  {
    hide Exec, SetReg;
    Exec1(s, Addi(SP, SP, 13 * 8));
  }

  lemma ContextIsUnique(mem: Mem, mem': Mem, b: nat, c: Context, d: Context)
    requires ContextHolds(mem, b, c) && ContextHolds(mem', b, d)
    requires forall a: nat :: b <= a < b + CONTEXT_BYTES ==> Load(mem', a) == Load(mem, a)
    ensures c == d
  {
  }

  /** Switching to a context stored apart from the running task's stack frame
      and pointer word continues with exactly that context. */
  lemma SwitchResumes(s: Cpu, c: Context)
    requires SwitchReady(s) && ContextHolds(s.mem, s.x[A1], c)
    requires var b := s.x[SP] - CONTEXT_BYTES;
             && !(s.x[A1] <= s.x[A0] < s.x[A1] + CONTEXT_BYTES)
             && (s.x[A1] + CONTEXT_BYTES <= b || s.x[SP] <= s.x[A1])
    ensures ContextOf(Exec(s, SwitchTask()).x) == c
  {
    hide Exec, SwitchTask, Load, ContextHolds, ContextOf;
    SwitchEffect(s);
    var s' := Exec(s, SwitchTask());
    ContextIsUnique(s.mem, s'.mem, s.x[A1], c, ContextOf(s'.x));
  }

  /** `run_next_task` reads the next context pointer before the switch stores the
      new one. A task that switches to itself therefore comes back as it left if
      and only if that older pointer is the address of the context it pushes. */
  lemma SelfSwitchResumesIff(s: Cpu)
    requires SwitchReady(s) && s.x[A1] == Load(s.mem, s.x[A0])
    ensures ContextOf(Exec(s, SwitchTask()).x) == ContextOf(s.x) <==> s.x[A1] == s.x[SP] - CONTEXT_BYTES
  {
    hide Exec, SwitchTask, Load;
    SwitchEffect(s);
    var s' := Exec(s, SwitchTask());
    if s.x[A1] == s.x[SP] - CONTEXT_BYTES {
      ContextIsUnique(s'.mem, s'.mem, s.x[A1], ContextOf(s.x), ContextOf(s'.x));
    }
  }
}
