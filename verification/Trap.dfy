/** Trap entry and exit of 02-multi-program-kern/kernel/src/trap.rs: the assembly
    as instruction lists, and what it does to the user's registers and the frame
    on the kernel stack. */
module Trap {
  import opened Words
  import opened Machine

  const FRAME_BYTES := 264      // size of a TrapContext: 33 words
  const SLOT_SP := 1
  const SLOT_A0 := 9
  const SLOT_A1 := 10
  const SLOT_SSTATUS := 31
  const SLOT_SEPC := 32

  /** x1 and x3..x31; the word of x2 is handled apart. */
  const TRAP_LAYOUT: Layout := [
    (1, 0), (3, 2), (4, 3), (5, 4), (6, 5), (7, 6), (8, 7), (9, 8), (10, 9), (11, 10),
    (12, 11), (13, 12), (14, 13), (15, 14), (16, 15), (17, 16), (18, 17), (19, 18), (20, 19), (21, 20),
    (22, 21), (23, 22), (24, 23), (25, 24), (26, 25), (27, 26), (28, 27), (29, 28), (30, 29), (31, 30)]

  lemma TrapLayoutShape()
    ensures |TRAP_LAYOUT| == 30
    ensures forall i :: 0 <= i < 30 ==> TRAP_LAYOUT[i] == if i == 0 then (1, 0) else (i + 2, i + 1)
    ensures DistinctSlots(TRAP_LAYOUT) && DistinctRegs(TRAP_LAYOUT)
  {
  }

  const ENTRY_HEAD: seq<Instr> := [Csrrw(SP, Sscratch, SP), Addi(SP, SP, -33 * 8)]
  const ENTRY_TAIL: seq<Instr> := [
    Csrr(T0, Sstatus), Sd(T0, 31 * 8, SP),
    Csrr(T1, Sepc), Sd(T1, 32 * 8, SP)]
  const ENTRY_SP: seq<Instr> := [Csrr(T2, Sscratch), Sd(T2, 1 * 8, SP)]
  const ENTRY_CALL: seq<Instr> := [Mv(A0, SP)]

  /** `trap_entry` up to the call of the handler. */
  function TrapEntry(): seq<Instr> {
    ENTRY_HEAD + (Stores(TRAP_LAYOUT, SP) + (ENTRY_TAIL + (ENTRY_SP + ENTRY_CALL)))
  }

  const EXIT_LOADS: seq<Instr> := [Ld(T0, 31 * 8, SP), Ld(T1, 32 * 8, SP)]
  const EXIT_SP: seq<Instr> := [Ld(T2, 1 * 8, SP)]
  const EXIT_CSRS: seq<Instr> := [Csrw(Sstatus, T0), Csrw(Sepc, T1)]
  const EXIT_SCRATCH: seq<Instr> := [Csrw(Sscratch, T2)]
  const EXIT_TAIL: seq<Instr> := [Addi(SP, SP, 33 * 8), Csrrw(SP, Sscratch, SP)]

  /** `restore_trap`, and the part of `trap_entry` after the call, up to `sret`. */
  function RestoreTrap(): seq<Instr> {
    EXIT_LOADS + EXIT_SP + (EXIT_CSRS + EXIT_SCRATCH + (Loads(TRAP_LAYOUT, SP) + EXIT_TAIL))
  }

  /** What user code sees of the machine. */
  datatype UserRegs = UserRegs(x: Regs, sepc: nat, sstatus: nat)

  function UserView(s: Cpu): UserRegs {
    UserRegs(s.x, s.sepc, s.sstatus)
  }

  /** Equal in x1..x31, pc and status; x0 is hard-wired. */
  ghost predicate SameUser(u: UserRegs, w: UserRegs) {
    u.sepc == w.sepc && u.sstatus == w.sstatus && forall r: nat :: 1 <= r < 32 ==> u.x[r] == w.x[r]
  }

  /** The trap frame at address `b` holds the user registers `u`. */
  ghost predicate FrameHolds(mem: Mem, b: nat, u: UserRegs) {
    && (forall r: nat :: 1 <= r < 32 ==> Load(mem, b + 8 * (r - 1)) == u.x[r])
    && Load(mem, b + 8 * 31) == u.sstatus
    && Load(mem, b + 8 * 32) == u.sepc
  }

  lemma LayoutCoversRegs(mem: Mem, b: nat, x: Regs)
    ensures Holds(mem, b, TRAP_LAYOUT, x) <==>
            forall r: nat :: 1 <= r < 32 && r != 2 ==> Load(mem, b + 8 * (r - 1)) == x[r]
  {
    TrapLayoutShape();
    hide Load;
    if Holds(mem, b, TRAP_LAYOUT, x) {
      forall r: nat | 1 <= r < 32 && r != 2
        ensures Load(mem, b + 8 * (r - 1)) == x[r]
      {
        var i := if r == 1 then 0 else r - 2;
        assert TRAP_LAYOUT[i] == (r, r - 1);
      }
    }
  }

  // ----- entry -----

  lemma EntryHead(s: Cpu)
    requires FRAME_BYTES <= s.sscratch < WORD
    ensures Exec(s, ENTRY_HEAD) == s.(x := SetReg(s.x, SP, s.sscratch - FRAME_BYTES), sscratch := s.x[SP])
  {
    hide Exec, SetReg;
    Exec2(s, Csrrw(SP, Sscratch, SP), Addi(SP, SP, -33 * 8));
  }

  lemma EntryTail(s: Cpu)
    requires s.x[SP] + FRAME_BYTES < WORD
    ensures var s' := Exec(s, ENTRY_TAIL);
            && s'.x[SP] == s.x[SP] && s'.sscratch == s.sscratch && s'.sepc == s.sepc && s'.sstatus == s.sstatus
            && s'.mem == s.mem[s.x[SP] + 8 * SLOT_SSTATUS := s.sstatus][s.x[SP] + 8 * SLOT_SEPC := s.sepc]
  {
    hide Exec, SetReg;
    Exec4(s, Csrr(T0, Sstatus), Sd(T0, 31 * 8, SP), Csrr(T1, Sepc), Sd(T1, 32 * 8, SP));
  }

  lemma EntrySp(s: Cpu)
    requires s.x[SP] + FRAME_BYTES < WORD
    ensures var s' := Exec(s, ENTRY_SP + ENTRY_CALL);
            && s'.x[SP] == s.x[SP] && s'.x[A0] == s.x[SP]
            && s'.sscratch == s.sscratch && s'.sepc == s.sepc && s'.sstatus == s.sstatus
            && s'.mem == s.mem[s.x[SP] + 8 * SLOT_SP := s.sscratch]
  {
    hide Exec, SetReg;
    ExecAppend(s, ENTRY_SP, ENTRY_CALL);
    Exec2(s, Csrr(T2, Sscratch), Sd(T2, 1 * 8, SP));
    Exec1(Exec(s, ENTRY_SP), Mv(A0, SP));
  }

  lemma EntryInFourParts(s: Cpu)
    ensures Exec(s, TrapEntry()) ==
            Exec(Exec(Exec(Exec(s, ENTRY_HEAD), Stores(TRAP_LAYOUT, SP)), ENTRY_TAIL), ENTRY_SP + ENTRY_CALL)
  {
    hide Exec, Stores, ENTRY_HEAD, ENTRY_TAIL, ENTRY_SP, ENTRY_CALL, TRAP_LAYOUT;
    var p3 := ENTRY_SP + ENTRY_CALL;
    var p2 := ENTRY_TAIL + p3;
    var p1 := Stores(TRAP_LAYOUT, SP) + p2;
    ExecAppend(s, ENTRY_HEAD, p1);
    ExecAppend(Exec(s, ENTRY_HEAD), Stores(TRAP_LAYOUT, SP), p2);
    ExecAppend(Exec(Exec(s, ENTRY_HEAD), Stores(TRAP_LAYOUT, SP)), ENTRY_TAIL, p3);
  }

  /** Entry leaves a frame with all user registers directly below the kernel
      stack top that sscratch held, and writes nothing else. */
  lemma EntrySavesUser(s: Cpu)
    requires FRAME_BYTES <= s.sscratch < WORD
    ensures var b := s.sscratch - FRAME_BYTES;
            var s' := Exec(s, TrapEntry());
            && s'.x[SP] == b && s'.x[A0] == b
            && FrameHolds(s'.mem, b, UserView(s))
            && SameOutside(s.mem, s'.mem, b, s.sscratch)
  {
    hide Exec, Stores, TrapEntry, ENTRY_HEAD, ENTRY_TAIL, ENTRY_SP, ENTRY_CALL, Load;
    var b := s.sscratch - FRAME_BYTES;
    TrapLayoutShape();
    EntryInFourParts(s);
    EntryHead(s);
    var s1 := Exec(s, ENTRY_HEAD);
    assert FitsAt(TRAP_LAYOUT, b, 33);
    hide TRAP_LAYOUT;
    StoresSave(s1, TRAP_LAYOUT, SP, 33);
    var s2 := Exec(s1, Stores(TRAP_LAYOUT, SP));
    EntryTail(s2);
    var s3 := Exec(s2, ENTRY_TAIL);
    EntrySp(s3);
    LayoutCoversRegs(s2.mem, b, s1.x);
    hide Holds, DistinctRegs, DistinctSlots, FitsAt;
    EntryFrame(s, s1.x, s2.mem, Exec(s3, ENTRY_SP + ENTRY_CALL).mem, b);
  }

  lemma EntryFrame(s: Cpu, x1: Regs, mem2: Mem, mem4: Mem, b: nat)
    requires x1 == SetReg(s.x, SP, b)
    requires forall r: nat :: 1 <= r < 32 && r != 2 ==> Load(mem2, b + 8 * (r - 1)) == x1[r]
    requires SameOutside(s.mem, mem2, b, b + FRAME_BYTES)
    requires mem4 == mem2[b + 8 * SLOT_SSTATUS := s.sstatus][b + 8 * SLOT_SEPC := s.sepc][b + 8 * SLOT_SP := s.x[SP]]
    ensures FrameHolds(mem4, b, UserView(s))
    ensures SameOutside(s.mem, mem4, b, b + FRAME_BYTES)
  {
  }

  // ----- exit -----

  lemma ExitHead(s: Cpu, u: UserRegs)
    requires s.x[SP] + FRAME_BYTES < WORD && FrameHolds(s.mem, s.x[SP], u)
    ensures var s' := Exec(s, EXIT_LOADS + EXIT_SP);
            && s' == s.(x := s'.x)
            && s'.x[SP] == s.x[SP] && s'.x[T0] == u.sstatus && s'.x[T1] == u.sepc && s'.x[T2] == u.x[2]
  {
    hide Exec, SetReg, Load;
    ExecAppend(s, EXIT_LOADS, EXIT_SP);
    Exec2(s, Ld(T0, 31 * 8, SP), Ld(T1, 32 * 8, SP));
    Exec1(Exec(s, EXIT_LOADS), Ld(T2, 1 * 8, SP));
    assert Load(s.mem, s.x[SP] + 8 * (2 - 1)) == u.x[2];
  }

  lemma ExitCsrs(s: Cpu)
    ensures Exec(s, EXIT_CSRS + EXIT_SCRATCH) == s.(sstatus := s.x[T0], sepc := s.x[T1], sscratch := s.x[T2])
  {
    ExecAppend(s, EXIT_CSRS, EXIT_SCRATCH);
    Exec2(s, Csrw(Sstatus, T0), Csrw(Sepc, T1));
    Exec1(Exec(s, EXIT_CSRS), Csrw(Sscratch, T2));
  }

  lemma ExitTail(s: Cpu)
    requires s.x[SP] + FRAME_BYTES < WORD
    ensures Exec(s, EXIT_TAIL) == s.(x := SetReg(s.x, SP, s.sscratch), sscratch := s.x[SP] + FRAME_BYTES)
  {
    hide Exec, SetReg;
    Exec2(s, Addi(SP, SP, 33 * 8), Csrrw(SP, Sscratch, SP));
  }

  lemma ExitInFourParts(s: Cpu)
    ensures Exec(s, RestoreTrap()) ==
            Exec(Exec(Exec(Exec(s, EXIT_LOADS + EXIT_SP), EXIT_CSRS + EXIT_SCRATCH), Loads(TRAP_LAYOUT, SP)), EXIT_TAIL)
  {
    hide Exec, Loads, EXIT_LOADS, EXIT_SP, EXIT_CSRS, EXIT_SCRATCH, EXIT_TAIL, TRAP_LAYOUT;
    var p0, p1 := EXIT_LOADS + EXIT_SP, EXIT_CSRS + EXIT_SCRATCH;
    var p2 := Loads(TRAP_LAYOUT, SP) + EXIT_TAIL;
    assert RestoreTrap() == p0 + (p1 + p2);
    ExecAppend(s, p0, p1 + p2);
    ExecAppend(Exec(s, p0), p1, p2);
    ExecAppend(Exec(Exec(s, p0), p1), Loads(TRAP_LAYOUT, SP), EXIT_TAIL);
  }

  /** Exit gives user code exactly the registers of the frame at sp and leaves
      the address above the frame, the kernel stack top, in sscratch. */
  lemma ExitRestoresUser(s: Cpu, u: UserRegs)
    requires s.x[SP] + FRAME_BYTES < WORD && FrameHolds(s.mem, s.x[SP], u)
    ensures var s' := Exec(s, RestoreTrap());
            && SameUser(UserView(s'), u)
            && s'.sscratch == s.x[SP] + FRAME_BYTES
            && s'.mem == s.mem
  {
    hide Exec, Loads, RestoreTrap, EXIT_LOADS, EXIT_SP, EXIT_CSRS, EXIT_SCRATCH, EXIT_TAIL, Load;
    TrapLayoutShape();
    ExitInFourParts(s);
    ExitHead(s, u);
    var s1 := Exec(s, EXIT_LOADS + EXIT_SP);
    ExitCsrs(s1);
    var s2 := Exec(s1, EXIT_CSRS + EXIT_SCRATCH);
    assert FitsAt(TRAP_LAYOUT, s.x[SP], 33);
    LoadsRestore(s2, TRAP_LAYOUT, SP, 33);
    var s3 := Exec(s2, Loads(TRAP_LAYOUT, SP));
    hide TRAP_LAYOUT;
    ExitTail(s3);
    LayoutCoversRegs(s.mem, s.x[SP], s3.x);
    hide Holds, DistinctRegs, DistinctSlots, FitsAt;
    forall r: nat | 1 <= r < 32
      ensures Exec(s3, EXIT_TAIL).x[r] == u.x[r]
    {
      assert Load(s.mem, s.x[SP] + 8 * (r - 1)) == u.x[r];
    }
  }

  // ----- entry, handler, exit -----

  /** The handler's `Return` arm: result words and the advanced pc. */
  function AnswerFrame(mem: Mem, b: nat, code: nat, extra: nat): Mem {
    mem[b + 8 * SLOT_A0 := code][b + 8 * SLOT_A1 := extra]
       [b + 8 * SLOT_SEPC := Wrap(Load(mem, b + 8 * SLOT_SEPC) + 4)]
  }

  function AnswerUser(u: UserRegs, code: nat, extra: nat): UserRegs {
    UserRegs(SetReg(SetReg(u.x, A0, code), A1, extra), Wrap(u.sepc + 4), u.sstatus)
  }

  lemma AnswerEditsFrame(mem: Mem, b: nat, u: UserRegs, code: nat, extra: nat)
    requires FrameHolds(mem, b, u)
    ensures FrameHolds(AnswerFrame(mem, b, code, extra), b, AnswerUser(u, code, extra))
    ensures SameOutside(mem, AnswerFrame(mem, b, code, extra), b, b + FRAME_BYTES)
  {
  }

  /** `w` is `u` after a system call that returned `code` and `extra`: these are in a0
      and a1, the pc is past the ecall, every other register and the status are as before. */
  ghost predicate Returned(u: UserRegs, w: UserRegs, code: nat, extra: nat) {
    && w.x[10] == code && w.x[11] == extra
    && (forall r: nat :: 1 <= r < 32 && r != 10 && r != 11 ==> w.x[r] == u.x[r])
    && w.sepc == Wrap(u.sepc + 4) && w.sstatus == u.sstatus
  }

  lemma AnsweredIsReturned(u: UserRegs, w: UserRegs, code: nat, extra: nat)
    requires SameUser(w, AnswerUser(u, code, extra))
    ensures Returned(u, w, code, extra)
  {
  }

  /** A system call answered with `Return` comes back with every register as it
      was at the trap, except a0, a1 and the pc, which skips the ecall; sscratch
      is the kernel stack top again. The handler may do anything that leaves sp
      and the frame, apart from the answer, alone. */
  lemma SyscallRoundTrip(s: Cpu, h: Cpu, code: nat, extra: nat)
    requires FRAME_BYTES <= s.sscratch < WORD
    requires var e := Exec(s, TrapEntry());
             && h.x[SP] == e.x[SP]
             && var b := e.x[SP];
                forall a: nat :: b <= a < b + FRAME_BYTES ==>
                  Load(h.mem, a) == Load(AnswerFrame(e.mem, b, code, extra), a)
    ensures var s' := Exec(h, RestoreTrap());
            Returned(UserView(s), UserView(s'), code, extra) && s'.sscratch == s.sscratch
  {
    hide Exec, TrapEntry, RestoreTrap, AnswerUser, AnswerFrame, FrameHolds, SameUser, Load, Returned;
    EntrySavesUser(s);
    var b := s.sscratch - FRAME_BYTES;
    var e := Exec(s, TrapEntry());
    AnswerEditsFrame(e.mem, b, UserView(s), code, extra);
    FrameIsLocal(AnswerFrame(e.mem, b, code, extra), h.mem, b, AnswerUser(UserView(s), code, extra));
    ExitRestoresUser(h, AnswerUser(UserView(s), code, extra));
    AnsweredIsReturned(UserView(s), UserView(Exec(h, RestoreTrap())), code, extra);
  }

  lemma FrameIsLocal(mem: Mem, mem': Mem, b: nat, u: UserRegs)
    requires FrameHolds(mem, b, u)
    requires forall a: nat :: b <= a < b + FRAME_BYTES ==> Load(mem', a) == Load(mem, a)
    ensures FrameHolds(mem', b, u)
  {
  }
}
