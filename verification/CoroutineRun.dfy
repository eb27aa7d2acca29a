/** The loop of `execute` in 03-virt-addr-kern/src/main.rs around the coroutine of
    executor.rs, as a state machine: resumes, user code, traps, kernel code between
    them and its edits of the context record. A shadow keeps the registers that user
    code is entitled to and those the kernel had when it last called `resume`; every
    run of the real machine gives both sides exactly those. */
module CoroutineRun {
  import opened Words
  import opened Machine
  import opened Trap
  import opened Executor

  datatype Coroutine = Coroutine(cpu: Cpu, inUser: bool)

  /** The user registers at the last trap, as edited since, and the kernel's
      registers at the last resume. */
  datatype Shadow = Shadow(user: UserRegs, kern: Regs)

  datatype Event =
    | Resume                    // do_resume, up to the first user instruction
    | UserRun(cpu: Cpu)         // user code, up to the moment of a trap
    | TrapBack                  // the trap vector, up to the return into the kernel
    | KernelCode(cpu: Cpu)      // any kernel code between two resumes, but for the edits below
    | Answer(code: nat, extra: nat)
    | Prepare(userStack: nat, sstatus: nat, sepc: nat)
    | SetWord(slot: nat, v: nat)  // any other store through `context_mut`

  ghost predicate Legal(c: nat, st: Coroutine, e: Event) {
    match e
    case Resume => !st.inUser && st.cpu.x[A0] == c && Apart(c, st.cpu.x[SP])
    case UserRun(cpu) => st.inUser && UserConfined(st.cpu, cpu, c, Load(st.cpu.mem, c + 8 * SLOT_KERNEL_STACK))
    case TrapBack => st.inUser
    case KernelCode(cpu) =>
      !st.inUser && forall a: nat :: c <= a < c + CONTEXT_BYTES ==> Load(cpu.mem, a) == Load(st.cpu.mem, a)
    case Answer(code, extra) => !st.inUser
    case Prepare(userStack, sstatus, sepc) => !st.inUser
    case SetWord(slot, v) => !st.inUser && slot <= SLOT_KERNEL_STACK
  }

  function WithMem(st: Coroutine, mem: Mem): Coroutine {
    st.(cpu := st.cpu.(mem := mem))
  }

  function Next(c: nat, st: Coroutine, e: Event): Coroutine {
    match e
    case Resume => Coroutine(Exec(st.cpu, EnterUser()), true)
    case UserRun(cpu) => st.(cpu := cpu)
    case TrapBack => Coroutine(Exec(st.cpu, LeaveUser()), false)
    case KernelCode(cpu) => st.(cpu := cpu)
    case Answer(code, extra) => WithMem(st, AnswerFrame(st.cpu.mem, c, code, extra))
    case Prepare(userStack, sstatus, sepc) => WithMem(st, PrepareNextApp(st.cpu.mem, c, userStack, sstatus, sepc))
    case SetWord(slot, v) => WithMem(st, st.cpu.mem[c + 8 * slot := v])
  }

  /** The registers that word `slot` of the record stands for; the kernel's frame
      address is not the user's business. */
  function EditUser(u: UserRegs, slot: nat, v: nat): UserRegs {
    if slot < 31 then u.(x := SetReg(u.x, slot + 1, v))
    else if slot == SLOT_SSTATUS then u.(sstatus := v)
    else if slot == SLOT_SEPC then u.(sepc := v)
    else u
  }

  /** The shadow never looks at memory. */
  function NextShadow(st: Coroutine, sh: Shadow, e: Event): Shadow {
    match e
    case Resume => sh.(kern := st.cpu.x)
    case TrapBack => sh.(user := UserView(st.cpu))
    case Answer(code, extra) => sh.(user := AnswerUser(sh.user, code, extra))
    case Prepare(userStack, sstatus, sepc) => sh.(user := UserRegs(SetReg(sh.user.x, SP, userStack), sepc, sstatus))
    case SetWord(slot, v) => sh.(user := EditUser(sh.user, slot, v))
    case _ => sh
  }

  ghost predicate Inv(c: nat, st: Coroutine, sh: Shadow) {
    if st.inUser then UserPhase(st.cpu, c, sh.kern) else FrameHolds(st.cpu.mem, c, sh.user)
  }

  /** What both sides observe: user code starts with what it is entitled to, and
      the kernel gets back sp, ra, gp, tp and s0..s11 of its last resume. */
  ghost predicate Faithful(c: nat, st: Coroutine, sh: Shadow, e: Event) {
    var st' := Next(c, st, e);
    && (e.Resume? ==> SameUser(UserView(st'.cpu), sh.user) && st'.cpu.sscratch == c)
    && (e.TrapBack? ==> SameKernel(st'.cpu.x, sh.kern) && FrameHolds(st'.cpu.mem, c, UserView(st.cpu)))
  }

  // ----- each step -----

  lemma EditStep(c: nat, mem: Mem, u: UserRegs, slot: nat, v: nat)
    requires FrameHolds(mem, c, u) && slot <= SLOT_KERNEL_STACK
    ensures FrameHolds(mem[c + 8 * slot := v], c, EditUser(u, slot, v))
  {
  }

  lemma KernelCodeStep(c: nat, mem: Mem, mem': Mem, u: UserRegs)
    requires FrameHolds(mem, c, u)
    requires forall a: nat :: c <= a < c + CONTEXT_BYTES ==> Load(mem', a) == Load(mem, a)
    ensures FrameHolds(mem', c, u)
  {
    hide Load;
    FrameIsLocal(mem, mem', c, u);
  }

  lemma UserRunStep(c: nat, cpu: Cpu, w: Cpu, x: Regs)
    requires UserPhase(cpu, c, x) && UserConfined(cpu, w, c, Load(cpu.mem, c + 8 * SLOT_KERNEL_STACK))
    ensures UserPhase(w, c, x)
  {
    hide Holds, Load, KERNEL_LAYOUT;
    ConfinedKeepsPhase(cpu, w, c, x);
  }

  lemma StepIsFaithful(c: nat, st: Coroutine, sh: Shadow, e: Event)
    requires Inv(c, st, sh) && Legal(c, st, e)
    ensures Inv(c, Next(c, st, e), NextShadow(st, sh, e)) && Faithful(c, st, sh, e)
  {
    hide Exec, EnterUser, LeaveUser, AnswerFrame, AnswerUser, FrameHolds, UserPhase, UserConfined, Load, SameUser,
      SameKernel, UserView, Apart, PrepareNextApp, EditUser;
    match e
    case Resume => ResumeStep(st.cpu, sh.user);
    case UserRun(cpu) => UserRunStep(c, st.cpu, cpu, sh.kern);
    case TrapBack => TrapBackStep(st.cpu, c, sh.kern);
    case KernelCode(cpu) => KernelCodeStep(c, st.cpu.mem, cpu.mem, sh.user);
    case Answer(code, extra) => AnswerEditsFrame(st.cpu.mem, c, sh.user, code, extra);
    case Prepare(userStack, sstatus, sepc) => PreparedAppStarts(st.cpu.mem, c, sh.user, userStack, sstatus, sepc);
    case SetWord(slot, v) => EditStep(c, st.cpu.mem, sh.user, slot, v);
  }

  // ----- whole runs -----

  ghost predicate LegalRun(c: nat, st: Coroutine, es: seq<Event>)
    decreases |es|
  {
    es == [] || (Legal(c, st, es[0]) && LegalRun(c, Next(c, st, es[0]), es[1..]))
  }

  ghost predicate FaithfulRun(c: nat, st: Coroutine, sh: Shadow, es: seq<Event>)
    decreases |es|
  {
    es == [] ||
    (Faithful(c, st, sh, es[0]) && FaithfulRun(c, Next(c, st, es[0]), NextShadow(st, sh, es[0]), es[1..]))
  }

  /** Over any number of resumes, whatever kernel code does with its registers and
      with memory outside the record, user code always starts with the registers of
      its last trap as edited since, and each resume gives the kernel the registers
      back with which it was called. */
  lemma {:induction false} RunIsFaithful(c: nat, st: Coroutine, sh: Shadow, es: seq<Event>)
    requires Inv(c, st, sh) && LegalRun(c, st, es)
    ensures FaithfulRun(c, st, sh, es)
    decreases |es|
  {
    hide Faithful, Legal, Next, NextShadow, Inv;
    if es != [] {
      StepIsFaithful(c, st, sh, es[0]);
      RunIsFaithful(c, Next(c, st, es[0]), NextShadow(st, sh, es[0]), es[1..]);
    }
  }

  function After(c: nat, st: Coroutine, es: seq<Event>): Coroutine
    decreases |es|
  {
    if es == [] then st else After(c, Next(c, st, es[0]), es[1..])
  }

  /** Kernel code without edits of the record. */
  lemma {:induction false} KernelKeepsShadow(c: nat, st: Coroutine, sh: Shadow, es: seq<Event>)
    requires Inv(c, st, sh) && LegalRun(c, st, es) && !st.inUser && forall e :: e in es ==> e.KernelCode?
    ensures Inv(c, After(c, st, es), sh) && !After(c, st, es).inUser
    decreases |es|
  {
    hide Inv;
    if es != [] {
      assert es[0] in es;
      StepIsFaithful(c, st, sh, es[0]);
      KernelKeepsShadow(c, Next(c, st, es[0]), sh, es[1..]);
    }
  }

  /** A system call answered with `Return`, on the machine alone: the next resume
      enters user code with the registers of the trap, a0 and a1 set and the pc
      moved past the ecall, whatever kernel code ran before and after the answer. */
  lemma AnsweredCallReturns(c: nat, st: Coroutine, sh: Shadow, before: seq<Event>, code: nat, extra: nat,
                            after: seq<Event>)
    requires Inv(c, st, sh) && st.inUser
    requires forall e :: e in before || e in after ==> e.KernelCode?
    requires LegalRun(c, Next(c, st, TrapBack), before)
    requires LegalRun(c, Answered(c, st, before, code, extra), after)
    requires Legal(c, After(c, Answered(c, st, before, code, extra), after), Resume)
    ensures var back := Next(c, After(c, Answered(c, st, before, code, extra), after), Resume);
            Returned(UserView(st.cpu), UserView(back.cpu), code, extra)
  {
    hide Inv, Legal, LegalRun, After, Exec, EnterUser, LeaveUser, AnswerFrame, AnswerUser, UserView, SameUser, Returned;
    var sh1 := NextShadow(st, sh, TrapBack);
    var st1 := Next(c, st, TrapBack);
    assert Legal(c, st, TrapBack) by { TrapIsLegal(c, st); }
    StepIsFaithful(c, st, sh, TrapBack);
    KernelKeepsShadow(c, st1, sh1, before);
    var st2 := After(c, st1, before);
    assert Legal(c, st2, Answer(code, extra)) by { AnswerIsLegal(c, st2, code, extra); }
    StepIsFaithful(c, st2, sh1, Answer(code, extra));
    var sh2 := NextShadow(st2, sh1, Answer(code, extra));
    var st3 := Answered(c, st, before, code, extra);
    KernelKeepsShadow(c, st3, sh2, after);
    StepIsFaithful(c, After(c, st3, after), sh2, Resume);
    AnsweredIsReturned(UserView(st.cpu), UserView(Next(c, After(c, st3, after), Resume).cpu), code, extra);
  }

  /** The machine after a trap, some kernel code and the answer. */
  function Answered(c: nat, st: Coroutine, before: seq<Event>, code: nat, extra: nat): Coroutine {
    Next(c, After(c, Next(c, st, TrapBack), before), Answer(code, extra))
  }

  lemma TrapIsLegal(c: nat, st: Coroutine)
    requires st.inUser
    ensures Legal(c, st, TrapBack)
  {
  }

  lemma AnswerIsLegal(c: nat, st: Coroutine, code: nat, extra: nat)
    requires !st.inUser
    ensures Legal(c, st, Answer(code, extra))
  {
  }

  function ZeroRegs(): (x: Regs)
    ensures forall r: nat :: r < 32 ==> x[r] == 0
  {
    seq(32, i => 0)
  }

  lemma ZeroRecord(mem: Mem, c: nat)
    requires forall a: nat :: c <= a < c + CONTEXT_BYTES ==> Load(mem, a) == 0
    ensures FrameHolds(mem, c, UserRegs(ZeroRegs(), 0, 0))
  {
    hide Load;
  }

  /** `new_user`: from a zeroed record prepared for the first program the invariant
      holds, and the first resume, whatever kernel code runs before it, enters that
      program with its own stack and all other registers zero. */
  lemma NewUserStarts(c: nat, cpu: Cpu, sh: Shadow, userStack: nat, sstatus: nat, sepc: nat, es: seq<Event>)
    requires forall a: nat :: c <= a < c + CONTEXT_BYTES ==> Load(cpu.mem, a) == 0
    requires sh.user == UserRegs(SetReg(ZeroRegs(), SP, userStack), sepc, sstatus)
    requires forall e :: e in es ==> e.KernelCode?
    requires LegalRun(c, Next(c, Coroutine(cpu, false), Prepare(userStack, sstatus, sepc)), es)
    ensures Inv(c, Next(c, Coroutine(cpu, false), Prepare(userStack, sstatus, sepc)), sh)
    ensures var st := After(c, Next(c, Coroutine(cpu, false), Prepare(userStack, sstatus, sepc)), es);
            Legal(c, st, Resume) ==> SameUser(UserView(Next(c, st, Resume).cpu), sh.user)
  {
    hide FrameHolds, PrepareNextApp, Load, UserPhase, Exec, EnterUser, LeaveUser, AnswerFrame, ZeroRegs, LegalRun,
      After, SameUser, Legal;
    ZeroRecord(cpu.mem, c);
    PreparedAppStarts(cpu.mem, c, UserRegs(ZeroRegs(), 0, 0), userStack, sstatus, sepc);
    var st0 := Next(c, Coroutine(cpu, false), Prepare(userStack, sstatus, sepc));
    KernelKeepsShadow(c, st0, sh, es);
    var st := After(c, st0, es);
    if Legal(c, st, Resume) {
      StepIsFaithful(c, st, sh, Resume);
    }
  }
}
