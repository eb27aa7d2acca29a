/** The kernel/user coroutine of 03-virt-addr-kern/src/executor.rs: `resume` saves
    the kernel's registers on its stack, runs user code from a context record,
    and comes back through the trap vector. */
module Executor {
  import opened Words
  import opened Machine
  import opened Trap

  const KERNEL_FRAME_BYTES := 120       // 15 words
  const CONTEXT_BYTES := 272            // a UserContext: 34 words
  const SLOT_KERNEL_STACK := 33

  /** ra, gp, tp, s0..s11 in the order they are saved. */
  const KERNEL_LAYOUT: Layout := [
    (1, 0), (3, 1), (4, 2), (8, 3), (9, 4), (18, 5), (19, 6), (20, 7),
    (21, 8), (22, 9), (23, 10), (24, 11), (25, 12), (26, 13), (27, 14)]

  function KernelReg(i: nat): Reg
    requires i < 15
  {
    if i == 0 then 1 else if i <= 2 then i + 2 else if i <= 4 then i + 5 else i + 13
  }

  lemma KernelLayoutEntries()
    ensures |KERNEL_LAYOUT| == 15
    ensures forall i :: 0 <= i < 15 ==> KERNEL_LAYOUT[i] == (KernelReg(i), i)
  {
  }

  lemma KernelLayoutShape()
    ensures |KERNEL_LAYOUT| == 15
    ensures DistinctSlots(KERNEL_LAYOUT) && DistinctRegs(KERNEL_LAYOUT)
    ensures forall i :: 0 <= i < 15 ==> KERNEL_LAYOUT[i].0 !in {SP, A0} && KERNEL_LAYOUT[i].1 < 15
  {
    hide KERNEL_LAYOUT;
    KernelLayoutEntries();
  }

  const SAVE_HEAD: seq<Instr> := [Addi(SP, SP, -15 * 8)]
  const USER_HEAD: seq<Instr> := [Sd(SP, 33 * 8, A0), Csrw(Sscratch, A0), Mv(SP, A0)]
  const USER_CSRS: seq<Instr> := [Ld(T0, 31 * 8, SP), Ld(T1, 32 * 8, SP), Csrw(Sstatus, T0), Csrw(Sepc, T1)]
  const USER_SP: seq<Instr> := [Ld(SP, 1 * 8, SP)]

  /** `from_kernel_save` followed by `to_user_restore`, up to `sret`; the general
      registers of a context lie as in a trap frame. */
  function EnterUser(): seq<Instr> {
    SAVE_HEAD + (Stores(KERNEL_LAYOUT, SP) + (USER_HEAD + (USER_CSRS + (Loads(TRAP_LAYOUT, SP) + USER_SP))))
  }

  const TRAP_HEAD: seq<Instr> := [Csrrw(SP, Sscratch, SP)]
  const TRAP_CSRS: seq<Instr> := [Csrr(T0, Sstatus), Sd(T0, 31 * 8, SP), Csrr(T1, Sepc), Sd(T1, 32 * 8, SP)]
  const TRAP_SP: seq<Instr> := [Csrrw(T2, Sscratch, SP), Sd(T2, 1 * 8, SP)]
  const KERNEL_HEAD: seq<Instr> := [Csrr(SP, Sscratch), Ld(SP, 33 * 8, SP)]
  const KERNEL_TAIL: seq<Instr> := [Addi(SP, SP, 15 * 8)]

  /** `from_user_save` followed by `to_kernel_restore`, up to the jump to ra. */
  function LeaveUser(): seq<Instr> {
    TRAP_HEAD + (Stores(TRAP_LAYOUT, SP)
      + (TRAP_CSRS + (TRAP_SP + (KERNEL_HEAD + (Loads(KERNEL_LAYOUT, SP) + KERNEL_TAIL)))))
  }

  /** What a called function has to keep: ra, sp, gp, tp, s0, s1 and s2..s11. */
  predicate IsKept(r: nat) {
    r == 1 || r == 2 || r == 3 || r == 4 || r == 8 || r == 9 || 18 <= r < 28
  }

  ghost predicate SameKernel(x: Regs, y: Regs) {
    forall r: nat :: r < 32 && IsKept(r) ==> x[r] == y[r]
  }

  /** These are the stack pointer and the registers of the kernel frame. */
  lemma FrameCoversKept(mem: Mem, b: nat, x: Regs, y: Regs)
    requires Holds(mem, b, KERNEL_LAYOUT, x) && Holds(mem, b, KERNEL_LAYOUT, y) && x[SP] == y[SP]
    ensures SameKernel(x, y)
  {
    KernelLayoutEntries();
    hide Load;
    forall r: nat | r < 32 && IsKept(r)
      ensures x[r] == y[r]
    {
      if r != 2 {
        var i := if r == 1 then 0 else if r <= 4 then r - 2 else if r <= 9 then r - 5 else r - 13;
        assert KERNEL_LAYOUT[i] == (r, i);
      }
    }
  }

  /** The kernel frame below `sp` and the context record at `c` do not overlap. */
  predicate Apart(c: nat, sp: nat) {
    && KERNEL_FRAME_BYTES <= sp < WORD && c + CONTEXT_BYTES < WORD
    && (c + CONTEXT_BYTES <= sp - KERNEL_FRAME_BYTES || sp <= c)
  }

  // ----- entering user code -----

  lemma EnterInParts(s: Cpu)
    ensures Exec(s, EnterUser()) ==
            Exec(Exec(Exec(Exec(Exec(Exec(s, SAVE_HEAD), Stores(KERNEL_LAYOUT, SP)), USER_HEAD), USER_CSRS),
                      Loads(TRAP_LAYOUT, SP)), USER_SP)
  {
    hide Exec, Stores, Loads, SAVE_HEAD, USER_HEAD, USER_CSRS, USER_SP, KERNEL_LAYOUT, TRAP_LAYOUT;
    var p4 := Loads(TRAP_LAYOUT, SP) + USER_SP;
    var p3 := USER_CSRS + p4;
    var p2 := USER_HEAD + p3;
    var s1 := Exec(s, SAVE_HEAD);
    var s2 := Exec(s1, Stores(KERNEL_LAYOUT, SP));
    var s3 := Exec(s2, USER_HEAD);
    ExecAppend(s, SAVE_HEAD, Stores(KERNEL_LAYOUT, SP) + p2);
    ExecAppend(s1, Stores(KERNEL_LAYOUT, SP), p2);
    ExecAppend(s2, USER_HEAD, p3);
    ExecAppend(s3, USER_CSRS, p4);
    ExecAppend(Exec(s3, USER_CSRS), Loads(TRAP_LAYOUT, SP), USER_SP);
  }

  lemma SaveHead(s: Cpu)
    requires KERNEL_FRAME_BYTES <= s.x[SP] < WORD
    ensures Exec(s, SAVE_HEAD) == s.(x := SetReg(s.x, SP, s.x[SP] - KERNEL_FRAME_BYTES))
  {
    hide Exec, SetReg;
    Exec1(s, Addi(SP, SP, -15 * 8));
  }

  lemma UserHead(s: Cpu)
    requires s.x[A0] + CONTEXT_BYTES < WORD
    ensures Exec(s, USER_HEAD) ==
            s.(x := SetReg(s.x, SP, s.x[A0]), sscratch := s.x[A0],
               mem := s.mem[s.x[A0] + 8 * SLOT_KERNEL_STACK := s.x[SP]])
  {
    hide Exec, SetReg;
    Exec3(s, Sd(SP, 33 * 8, A0), Csrw(Sscratch, A0), Mv(SP, A0));
    var s1 := Step(s, Sd(SP, 33 * 8, A0));
    assert s1 == s.(mem := s.mem[s.x[A0] + 8 * SLOT_KERNEL_STACK := s.x[SP]]);
    var s2 := Step(s1, Csrw(Sscratch, A0));
    assert s2 == s1.(sscratch := s.x[A0]);
  }

  lemma UserCsrs(s: Cpu)
    requires s.x[SP] + CONTEXT_BYTES < WORD
    ensures var s' := Exec(s, USER_CSRS);
            && s'.x[SP] == s.x[SP] && s'.sscratch == s.sscratch && s'.mem == s.mem
            && s'.sstatus == Load(s.mem, s.x[SP] + 8 * SLOT_SSTATUS)
            && s'.sepc == Load(s.mem, s.x[SP] + 8 * SLOT_SEPC)
  {
    hide Exec, SetReg;
    Exec4(s, Ld(T0, 31 * 8, SP), Ld(T1, 32 * 8, SP), Csrw(Sstatus, T0), Csrw(Sepc, T1));
  }

  lemma UserSp(s: Cpu)
    requires s.x[SP] + CONTEXT_BYTES < WORD
    ensures Exec(s, USER_SP) == s.(x := SetReg(s.x, SP, Load(s.mem, s.x[SP] + 8 * SLOT_SP)))
  {
    hide Exec, SetReg;
    Exec1(s, Ld(SP, 1 * 8, SP));
  }

  /** Memory after entering: the kernel frame is filled, its address recorded. */
  lemma EnterMemory(s: Cpu) returns (m: Mem, s3: Cpu)
    requires Apart(s.x[A0], s.x[SP])
    ensures var k := s.x[SP] - KERNEL_FRAME_BYTES;
            && Exec(s, EnterUser()) == Exec(Exec(Exec(s3, USER_CSRS), Loads(TRAP_LAYOUT, SP)), USER_SP)
            && s3.x[SP] == s.x[A0] && s3.sscratch == s.x[A0]
            && s3.mem == m[s.x[A0] + 8 * SLOT_KERNEL_STACK := k]
            && Holds(m, k, KERNEL_LAYOUT, s.x)
            && SameOutside(s.mem, m, k, s.x[SP])
  {
    hide Exec, Stores, Loads, EnterUser, SAVE_HEAD, USER_HEAD, USER_CSRS, USER_SP, TRAP_LAYOUT, Load, SameOutside;
    var k := s.x[SP] - KERNEL_FRAME_BYTES;
    KernelLayoutShape();
    EnterInParts(s);
    SaveHead(s);
    var s1 := Exec(s, SAVE_HEAD);
    StoresSave(s1, KERNEL_LAYOUT, SP, 15);
    var s2 := Exec(s1, Stores(KERNEL_LAYOUT, SP));
    HoldsIgnoresSp(s2.mem, k, s1.x, s.x);
    UserHead(s2);
    m, s3 := s2.mem, Exec(s2, USER_HEAD);
  }

  lemma HoldsIgnoresSp(mem: Mem, b: nat, x: Regs, y: Regs)
    requires Holds(mem, b, KERNEL_LAYOUT, x)
    requires forall r: nat :: r < 32 && r != SP ==> x[r] == y[r]
    ensures Holds(mem, b, KERNEL_LAYOUT, y)
  {
  }

  lemma ContextLoads(s3: Cpu, u: UserRegs)
    requires s3.x[SP] + CONTEXT_BYTES < WORD && FrameHolds(s3.mem, s3.x[SP], u)
    ensures var s' := Exec(Exec(Exec(s3, USER_CSRS), Loads(TRAP_LAYOUT, SP)), USER_SP);
            SameUser(UserView(s'), u) && s'.sscratch == s3.sscratch && s'.mem == s3.mem
  {
    hide Exec, Loads, USER_CSRS, USER_SP, Load;
    TrapLayoutShape();
    UserCsrs(s3);
    var s4 := Exec(s3, USER_CSRS);
    assert FitsAt(TRAP_LAYOUT, s3.x[SP], 33);
    LoadsRestore(s4, TRAP_LAYOUT, SP, 33);
    var s5 := Exec(s4, Loads(TRAP_LAYOUT, SP));
    UserSp(s5);
    LayoutCoversRegs(s3.mem, s3.x[SP], s5.x);
    hide TRAP_LAYOUT, Holds, DistinctRegs, DistinctSlots, FitsAt;
    forall r: nat | 1 <= r < 32
      ensures Exec(s5, USER_SP).x[r] == u.x[r]
    {
      assert Load(s3.mem, s3.x[SP] + 8 * (r - 1)) == u.x[r];
    }
  }

  /** Entering gives user code exactly the registers of the context record, with
      sscratch at the record; the kernel's registers are on its stack and the
      address of that frame is in the record. */
  lemma EnterRestoresUser(s: Cpu, u: UserRegs)
    requires Apart(s.x[A0], s.x[SP]) && FrameHolds(s.mem, s.x[A0], u)
    ensures var k := s.x[SP] - KERNEL_FRAME_BYTES;
            var s' := Exec(s, EnterUser());
            && SameUser(UserView(s'), u)
            && s'.sscratch == s.x[A0]
            && Load(s'.mem, s.x[A0] + 8 * SLOT_KERNEL_STACK) == k
            && Holds(s'.mem, k, KERNEL_LAYOUT, s.x)
  {
    hide Exec, EnterUser, Loads, USER_CSRS, USER_SP, TRAP_LAYOUT, KERNEL_LAYOUT, FrameHolds, SameUser, UserView;
    var m, s3 := EnterMemory(s);
    var c, k := s.x[A0], s.x[SP] - KERNEL_FRAME_BYTES;
    KernelFrameSurvives(m, s3.mem, k, s.x, c + 8 * SLOT_KERNEL_STACK);
    FrameIsLocal(s.mem, s3.mem, c, u);
    ContextLoads(s3, u);
  }

  lemma KernelFrameSurvives(m: Mem, m': Mem, k: nat, x: Regs, p: nat)
    requires Holds(m, k, KERNEL_LAYOUT, x)
    requires forall a: nat :: k <= a < k + KERNEL_FRAME_BYTES ==> Load(m', a) == Load(m, a)
    ensures Holds(m', k, KERNEL_LAYOUT, x)
  {
  }

  // ----- coming back -----

  lemma LeaveInParts(s: Cpu)
    ensures Exec(s, LeaveUser()) ==
            Exec(Exec(Exec(Exec(Exec(Exec(Exec(s, TRAP_HEAD), Stores(TRAP_LAYOUT, SP)), TRAP_CSRS), TRAP_SP),
                           KERNEL_HEAD), Loads(KERNEL_LAYOUT, SP)), KERNEL_TAIL)
  {
    hide Exec, Stores, Loads, TRAP_HEAD, TRAP_CSRS, TRAP_SP, KERNEL_HEAD, KERNEL_TAIL, KERNEL_LAYOUT, TRAP_LAYOUT;
    var p5 := Loads(KERNEL_LAYOUT, SP) + KERNEL_TAIL;
    var p4 := KERNEL_HEAD + p5;
    var p3 := TRAP_SP + p4;
    var p2 := TRAP_CSRS + p3;
    var s1 := Exec(s, TRAP_HEAD);
    var s2 := Exec(s1, Stores(TRAP_LAYOUT, SP));
    var s3 := Exec(s2, TRAP_CSRS);
    var s4 := Exec(s3, TRAP_SP);
    ExecAppend(s, TRAP_HEAD, Stores(TRAP_LAYOUT, SP) + p2);
    ExecAppend(s1, Stores(TRAP_LAYOUT, SP), p2);
    ExecAppend(s2, TRAP_CSRS, p3);
    ExecAppend(s3, TRAP_SP, p4);
    ExecAppend(s4, KERNEL_HEAD, p5);
    ExecAppend(Exec(s4, KERNEL_HEAD), Loads(KERNEL_LAYOUT, SP), KERNEL_TAIL);
  }

  lemma TrapHead(s: Cpu)
    ensures Exec(s, TRAP_HEAD) == s.(x := SetReg(s.x, SP, s.sscratch), sscratch := s.x[SP])
  {
    hide Exec, SetReg;
    Exec1(s, Csrrw(SP, Sscratch, SP));
  }

  lemma TrapCsrs(s: Cpu)
    requires s.x[SP] + CONTEXT_BYTES < WORD
    ensures var s' := Exec(s, TRAP_CSRS);
            && s'.x[SP] == s.x[SP] && s'.sscratch == s.sscratch
            && s'.mem == s.mem[s.x[SP] + 8 * SLOT_SSTATUS := s.sstatus][s.x[SP] + 8 * SLOT_SEPC := s.sepc]
  {
    hide Exec, SetReg;
    Exec4(s, Csrr(T0, Sstatus), Sd(T0, 31 * 8, SP), Csrr(T1, Sepc), Sd(T1, 32 * 8, SP));
  }

  lemma TrapSp(s: Cpu)
    requires s.x[SP] + CONTEXT_BYTES < WORD
    ensures var s' := Exec(s, TRAP_SP);
            && s'.sscratch == s.x[SP]
            && s'.mem == s.mem[s.x[SP] + 8 * SLOT_SP := s.sscratch]
  {
    hide Exec, SetReg;
    Exec2(s, Csrrw(T2, Sscratch, SP), Sd(T2, 1 * 8, SP));
    var s1 := Step(s, Csrrw(T2, Sscratch, SP));
    assert s1 == s.(sscratch := s.x[SP], x := SetReg(s.x, T2, s.sscratch));
    assert s1.x[SP] == s.x[SP] && s1.x[T2] == s.sscratch;
  }

  lemma KernelHead(s: Cpu)
    requires s.sscratch + CONTEXT_BYTES < WORD
    ensures var s' := Exec(s, KERNEL_HEAD);
            && s' == s.(x := s'.x) && s'.x[SP] == Load(s.mem, s.sscratch + 8 * SLOT_KERNEL_STACK)
  {
    hide Exec, SetReg;
    Exec2(s, Csrr(SP, Sscratch), Ld(SP, 33 * 8, SP));
  }

  lemma KernelTail(s: Cpu)
    requires s.x[SP] + KERNEL_FRAME_BYTES < WORD
    ensures Exec(s, KERNEL_TAIL) == s.(x := SetReg(s.x, SP, s.x[SP] + KERNEL_FRAME_BYTES))
  {
    hide Exec, SetReg;
    Exec1(s, Addi(SP, SP, 15 * 8));
  }

  /** First half of the way back: the user's registers are in the record. */
  lemma TrapSavesUser(s: Cpu) returns (s4: Cpu)
    requires s.sscratch + CONTEXT_BYTES < WORD
    ensures Exec(s, LeaveUser()) == Exec(Exec(Exec(s4, KERNEL_HEAD), Loads(KERNEL_LAYOUT, SP)), KERNEL_TAIL)
    ensures s4.sscratch == s.sscratch
    ensures FrameHolds(s4.mem, s.sscratch, UserView(s))
    ensures SameOutside(s.mem, s4.mem, s.sscratch, s.sscratch + FRAME_BYTES)
  {
    hide Exec, Stores, Loads, LeaveUser, TRAP_HEAD, TRAP_CSRS, TRAP_SP, KERNEL_HEAD, KERNEL_TAIL, KERNEL_LAYOUT, Load;
    var c := s.sscratch;
    TrapLayoutShape();
    LeaveInParts(s);
    TrapHead(s);
    var s1 := Exec(s, TRAP_HEAD);
    assert FitsAt(TRAP_LAYOUT, c, 33);
    StoresSave(s1, TRAP_LAYOUT, SP, 33);
    var s2 := Exec(s1, Stores(TRAP_LAYOUT, SP));
    LayoutCoversRegs(s2.mem, c, s1.x);
    hide TRAP_LAYOUT, Holds, DistinctRegs, DistinctSlots, FitsAt;
    TrapCsrs(s2);
    var s3 := Exec(s2, TRAP_CSRS);
    TrapSp(s3);
    s4 := Exec(s3, TRAP_SP);
    EntryFrame(s, s1.x, s2.mem, s4.mem, c);
  }

  lemma KernelLoads(s4: Cpu, k: nat, x: Regs)
    requires s4.sscratch + CONTEXT_BYTES < WORD && k + KERNEL_FRAME_BYTES < WORD
    requires Load(s4.mem, s4.sscratch + 8 * SLOT_KERNEL_STACK) == k && Holds(s4.mem, k, KERNEL_LAYOUT, x)
    requires x[SP] == k + KERNEL_FRAME_BYTES
    ensures var s' := Exec(Exec(Exec(s4, KERNEL_HEAD), Loads(KERNEL_LAYOUT, SP)), KERNEL_TAIL);
            SameKernel(s'.x, x) && s'.mem == s4.mem && s'.sscratch == s4.sscratch
  {
    hide Exec, Loads, KERNEL_HEAD, KERNEL_TAIL, Load;
    KernelLayoutShape();
    KernelHead(s4);
    var s5 := Exec(s4, KERNEL_HEAD);
    LoadsRestore(s5, KERNEL_LAYOUT, SP, 15);
    var s6 := Exec(s5, Loads(KERNEL_LAYOUT, SP));
    assert s6.x[SP] == k;
    KernelTail(s6);
    var s' := Exec(s6, KERNEL_TAIL);
    HoldsIgnoresSp(s4.mem, k, s6.x, s'.x);
    hide KERNEL_LAYOUT;
    FrameCoversKept(s4.mem, k, s'.x, x);
  }

  // ----- one resume -----

  /** User code runs for the record at `c`: sscratch points to it, and the kernel
      registers `x` wait in the frame whose address the record keeps. */
  ghost predicate UserPhase(cpu: Cpu, c: nat, x: Regs) {
    && cpu.sscratch == c && Apart(c, x[SP])
    && Load(cpu.mem, c + 8 * SLOT_KERNEL_STACK) == x[SP] - KERNEL_FRAME_BYTES
    && Holds(cpu.mem, x[SP] - KERNEL_FRAME_BYTES, KERNEL_LAYOUT, x)
  }

  /** The way into user code. */
  lemma ResumeStep(s: Cpu, u: UserRegs)
    requires Apart(s.x[A0], s.x[SP]) && FrameHolds(s.mem, s.x[A0], u)
    ensures var s' := Exec(s, EnterUser());
            SameUser(UserView(s'), u) && UserPhase(s', s.x[A0], s.x) && s'.sscratch == s.x[A0]
  {
    hide Exec, EnterUser, KERNEL_LAYOUT, FrameHolds, SameUser, UserView, Holds, Load;
    EnterRestoresUser(s, u);
  }

  /** The way back: the kernel finds its registers, the record holds the user's. */
  lemma TrapBackStep(w: Cpu, c: nat, x: Regs)
    requires UserPhase(w, c, x)
    ensures var s' := Exec(w, LeaveUser());
            SameKernel(s'.x, x) && FrameHolds(s'.mem, c, UserView(w)) && s'.sscratch == c
  {
    hide Exec, LeaveUser, Loads, KERNEL_LAYOUT, KERNEL_HEAD, KERNEL_TAIL, FrameHolds, SameKernel, UserView, Holds, Load;
    var k := x[SP] - KERNEL_FRAME_BYTES;
    var s4 := TrapSavesUser(w);
    KernelFrameSurvives(w.mem, s4.mem, k, x, 0);
    KernelLoads(s4, k, x);
  }

  /** User code may do anything but write the context record, the kernel frame
      and sscratch. */
  ghost predicate UserConfined(e: Cpu, w: Cpu, c: nat, k: nat) {
    && w.sscratch == e.sscratch
    && (forall a: nat :: c <= a < c + CONTEXT_BYTES ==> Load(w.mem, a) == Load(e.mem, a))
    && (forall a: nat :: k <= a < k + KERNEL_FRAME_BYTES ==> Load(w.mem, a) == Load(e.mem, a))
  }

  /** One `resume`: the kernel finds its own registers again, and the record holds
      exactly the user's registers at the trap. */
  lemma ResumeRoundTrip(s: Cpu, u: UserRegs, w: Cpu)
    requires Apart(s.x[A0], s.x[SP]) && FrameHolds(s.mem, s.x[A0], u)
    requires UserConfined(Exec(s, EnterUser()), w, s.x[A0], s.x[SP] - KERNEL_FRAME_BYTES)
    ensures SameUser(UserView(Exec(s, EnterUser())), u)
    ensures var s' := Exec(w, LeaveUser());
            && SameKernel(s'.x, s.x)
            && FrameHolds(s'.mem, s.x[A0], UserView(w))
            && s'.sscratch == s.x[A0]
  {
    hide Exec, EnterUser, LeaveUser, KERNEL_LAYOUT, FrameHolds, SameUser, SameKernel, UserView, Holds, Load;
    ResumeStep(s, u);
    ConfinedKeepsPhase(Exec(s, EnterUser()), w, s.x[A0], s.x);
    TrapBackStep(w, s.x[A0], s.x);
  }

  lemma ConfinedKeepsPhase(e: Cpu, w: Cpu, c: nat, x: Regs)
    requires UserPhase(e, c, x) && UserConfined(e, w, c, x[SP] - KERNEL_FRAME_BYTES)
    ensures UserPhase(w, c, x)
  {
    hide KERNEL_LAYOUT, Holds, Load;
    KernelFrameSurvives(e.mem, w.mem, x[SP] - KERNEL_FRAME_BYTES, x, 0);
  }

  /** What the record at `c` holds. */
  function Record(mem: Mem, c: nat): UserRegs {
    UserRegs(seq(32, r => if 1 <= r < 32 then Load(mem, c + 8 * (r - 1)) else 0),
             Load(mem, c + 8 * SLOT_SEPC), Load(mem, c + 8 * SLOT_SSTATUS))
  }

  lemma RecordIsHeld(mem: Mem, c: nat)
    ensures FrameHolds(mem, c, Record(mem, c))
  {
  }

  // ----- the runtime object -----

  /** `reset`: user stack, status and a poison kernel stack that resume overwrites. */
  function ResetRecord(mem: Mem, c: nat, userStack: nat, sstatus: nat): Mem {
    mem[c + 8 * SLOT_SP := userStack][c + 8 * SLOT_SSTATUS := sstatus][c + 8 * SLOT_KERNEL_STACK := POISON]
  }

  const POISON := 0x2333_3366_6666

  /** `prepare_next_app`: also the new pc; the other registers keep their last values. */
  function PrepareNextApp(mem: Mem, c: nat, userStack: nat, sstatus: nat, sepc: nat): Mem {
    ResetRecord(mem, c, userStack, sstatus)[c + 8 * SLOT_SEPC := sepc]
  }

  lemma RecordAfterReset(mem: Mem, c: nat, userStack: nat, sstatus: nat)
    ensures var mem' := ResetRecord(mem, c, userStack, sstatus);
            && (forall u :: FrameHolds(mem, c, u) ==>
                  FrameHolds(mem', c, UserRegs(SetReg(u.x, SP, userStack), u.sepc, sstatus)))
            && Load(mem', c + 8 * 33) == 0x2333_3366_6666
            && SameOutside(mem, mem', c, c + CONTEXT_BYTES)
  {
  }

  lemma PreparedAppStarts(mem: Mem, c: nat, u: UserRegs, userStack: nat, sstatus: nat, sepc: nat)
    requires FrameHolds(mem, c, u)
    ensures FrameHolds(PrepareNextApp(mem, c, userStack, sstatus, sepc), c,
                       UserRegs(SetReg(u.x, SP, userStack), sepc, sstatus))
    ensures Load(PrepareNextApp(mem, c, userStack, sstatus, sepc), c + 8 * 33) == 0x2333_3366_6666
    ensures SameOutside(mem, PrepareNextApp(mem, c, userStack, sstatus, sepc), c, c + CONTEXT_BYTES)
  {
  }

  class Runtime {
    const hart: Hart
    const context: nat
    const userStack: nat

    constructor (hart: Hart, context: nat, userStack: nat)
      ensures this.hart == hart && this.context == context && this.userStack == userStack
    {
      this.hart, this.context, this.userStack := hart, context, userStack;
    }

    method StoreField(slot: nat, v: nat)
      modifies hart
      ensures hart.cpu == old(hart.cpu).(mem := old(hart.cpu.mem)[context + 8 * slot := v])
    {
      hart.cpu := hart.cpu.(mem := hart.cpu.mem[context + 8 * slot := v]);
    }

    /** The record afterwards has the new user stack and status and keeps every
        other register and the pc; nothing outside the record is written. */
    method Reset(sstatus: nat)
      modifies hart
      ensures forall u :: FrameHolds(old(hart.cpu.mem), context, u) ==>
                FrameHolds(hart.cpu.mem, context, UserRegs(SetReg(u.x, SP, userStack), u.sepc, sstatus))
      ensures Load(hart.cpu.mem, context + 8 * 33) == 0x2333_3366_6666
      ensures SameOutside(old(hart.cpu.mem), hart.cpu.mem, context, context + CONTEXT_BYTES)
      ensures hart.cpu == old(hart.cpu).(mem := ResetRecord(old(hart.cpu.mem), context, userStack, sstatus))
    {
      RecordAfterReset(hart.cpu.mem, context, userStack, sstatus);
      StoreField(SLOT_SP, userStack);
      StoreField(SLOT_SSTATUS, sstatus);
      StoreField(SLOT_KERNEL_STACK, POISON);
      hide FrameHolds, Load;
    }

    method PrepareNext(newSepc: nat, sstatus: nat)
      modifies hart
      ensures hart.cpu == old(hart.cpu).(mem := PrepareNextApp(old(hart.cpu.mem), context, userStack, sstatus, newSepc))
    {
      Reset(sstatus);
      StoreField(SLOT_SEPC, newSepc);
    }

    /** The call of `do_resume`, up to the first user instruction: user code starts
        with exactly the registers of the record, and the caller's wait in the
        kernel frame. */
    method DoResume()
      requires Apart(context, hart.cpu.x[SP])
      modifies hart
      ensures SameUser(UserView(hart.cpu), Record(old(hart.cpu.mem), context))
      ensures UserPhase(hart.cpu, context, old(hart.cpu.x))
    {
      hide Exec, EnterUser, Record, FrameHolds, SameUser, UserView, UserPhase;
      ghost var x := hart.cpu.x;
      hart.cpu := hart.cpu.(x := SetReg(hart.cpu.x, A0, context));
      RecordIsHeld(hart.cpu.mem, context);
      ResumeStep(hart.cpu, Record(hart.cpu.mem, context));
      PhaseIgnoresA0(Exec(hart.cpu, EnterUser()), context, hart.cpu.x, x);
      hart.Execute(EnterUser());
    }

    /** The trap vector, up to the return into the kernel: the caller of the resume
        finds its registers `x` again, and the record holds the user's. */
    method ReturnToKernel(ghost x: Regs)
      requires UserPhase(hart.cpu, context, x)
      modifies hart
      ensures SameKernel(hart.cpu.x, x)
      ensures FrameHolds(hart.cpu.mem, context, UserView(old(hart.cpu)))
      ensures hart.cpu.sscratch == context
    {
      hide Exec, LeaveUser, FrameHolds, SameKernel, UserView, UserPhase;
      TrapBackStep(hart.cpu, context, x);
      hart.Execute(LeaveUser());
    }
  }

  lemma PhaseIgnoresA0(cpu: Cpu, c: nat, x: Regs, y: Regs)
    requires UserPhase(cpu, c, x) && forall r: nat :: r < 32 && r != A0 ==> x[r] == y[r]
    ensures UserPhase(cpu, c, y)
  {
    KernelLayoutShape();
  }
}
