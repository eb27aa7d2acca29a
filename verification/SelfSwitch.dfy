/** Runs of the kernel machine in which a task may also be switched to itself, as
    happens to a task that yields while no other one is ready. `run_next_task` reads the
    pointer to load before `switch_task` stores the new one, so such a switch continues
    at the context of the task's previous switch-out. */
module SelfSwitch {
  import opened Words
  import opened Machine
  import opened Trap
  import opened TaskSwitch
  import opened KernelRun
  import opened Loader

  datatype Act = Other(e: Event) | Self

  /** As in `KernelRun`; kernel code also leaves the running task's context pointer
      alone, which the code writes in `switch_task` only. */
  ghost predicate LegalAct(pl: Place, n: nat, sys: Sys, act: Act) {
    match act
    case Other(e) =>
      && Legal(pl, n, sys, e)
      && (e.KernelCode? ==> Load(e.cpu.mem, PtrAddr(pl, sys.cur)) == Load(sys.cpu.mem, PtrAddr(pl, sys.cur)))
    case Self =>
      && !sys.inUser
      && sys.cpu.x[A0] == PtrAddr(pl, sys.cur) && sys.cpu.x[A1] == Load(sys.cpu.mem, PtrAddr(pl, sys.cur))
      && StackBase(pl, sys.cur) + CONTEXT_BYTES <= sys.cpu.x[SP] <= FrameBase(pl, sys.cur)
  }

  function NextAct(pl: Place, sys: Sys, act: Act): Sys {
    match act
    case Other(e) => Next(pl, sys, e)
    case Self => Sys(Exec(sys.cpu, SwitchTask()), sys.cur, false)
  }

  function ShadowAct(sys: Sys, sh: Shadow, act: Act): Shadow
    requires sys.cur < |sh.kern| && sys.cur < |sh.user|
  {
    match act
    case Other(e) => NextShadow(sys, sh, e)
    case Self => sh.(kern := sh.kern[sys.cur := ContextOf(sys.cpu.x)])
  }

  /** Also the running task's pointer is where its last switch-out left it. */
  ghost predicate OutInv(pl: Place, n: nat, sys: Sys, sh: Shadow) {
    && Inv(pl, n, sys, sh)
    && PointsTo(pl, sys.cpu.mem, sys.cur, sh.kern[sys.cur].sp)
  }

  ghost predicate PointsTo(pl: Place, mem: Mem, t: nat, sp: nat) {
    && StackBase(pl, t) + CONTEXT_BYTES <= sp <= FrameBase(pl, t)
    && Load(mem, PtrAddr(pl, t)) == sp - CONTEXT_BYTES
  }

  /** A task switched to itself goes on with the stack pointer of its previous
      switch-out, and comes back as it left exactly if that is the present one. */
  ghost predicate FaithfulAct(pl: Place, n: nat, sys: Sys, sh: Shadow, act: Act)
    requires |sh.kern| == n && |sh.user| == n && sys.cur < n
  {
    match act
    case Other(e) => Faithful(pl, n, sys, sh, e)
    case Self =>
      var sys' := NextAct(pl, sys, act);
      && sys'.cpu.x[SP] == sh.kern[sys.cur].sp
      && (ContextOf(sys'.cpu.x) == ContextOf(sys.cpu.x) <==> sys.cpu.x[SP] == sh.kern[sys.cur].sp)
  }

  // ----- each step -----

  /** Outside switches the running task's pointer does not change. */
  lemma PointerStays(pl: Place, n: nat, sys: Sys, sh: Shadow, e: Event)
    requires Inv(pl, n, sys, sh) && LegalAct(pl, n, sys, Other(e)) && !e.SwitchTo?
    ensures Load(Next(pl, sys, e).cpu.mem, PtrAddr(pl, sys.cur)) == Load(sys.cpu.mem, PtrAddr(pl, sys.cur))
  {
    hide Exec, TrapEntry, RestoreTrap, SwitchTask, AnswerFrame, AnswerUser, Load, FrameHolds, SameUser, Parked;
    StackRoom(pl, n, sys.cur);
    match e
    case TrapIn =>
      EntrySavesUser(sys.cpu);
    case Answer(code, extra) =>
      AnswerEditsFrame(sys.cpu.mem, FrameBase(pl, sys.cur), sh.user[sys.cur], code, extra);
    case TrapOut =>
      ExitRestoresUser(sys.cpu, sh.user[sys.cur]);
    case UserRun(cpu) =>
      assert KeepsTask(pl, sys.cpu.mem, cpu.mem, sys.cur);
    case _ =>
  }

  lemma PointerOfParkedTask(pl: Place, mem: Mem, t: nat, c: Context, u: UserRegs)
    requires Parked(pl, mem, t, c, u)
    ensures PointsTo(pl, mem, t, c.sp)
  {
  }

  lemma PointersDiffer(pl: Place, n: nat, cur: nat, next: nat)
    requires ValidPlace(pl) && cur < n <= MAX_APP_NUM && next < n && next != cur
    ensures PtrAddr(pl, next) != PtrAddr(pl, cur)
    ensures !(StackBase(pl, cur) <= PtrAddr(pl, next) < StackTop(pl, cur))
  {
  }

  lemma NextPointerStays(pl: Place, n: nat, sys: Sys, sh: Shadow, next: nat)
    requires Inv(pl, n, sys, sh) && Legal(pl, n, sys, SwitchTo(next))
    ensures next < n && PointsTo(pl, Next(pl, sys, SwitchTo(next)).cpu.mem, next, sh.kern[next].sp)
  {
    hide Exec, TrapEntry, RestoreTrap, SwitchTask, AnswerFrame, AnswerUser, Parked, Load, FrameHolds, ContextHolds,
      ContextOf, UserView, SameUser, StackBase, StackTop, FrameBase, PtrAddr;
    PointerOfParkedTask(pl, sys.cpu.mem, next, sh.kern[next], sh.user[next]);
    SwitchRegisters(pl, n, sys, sh.kern[next], sh.user[next], next);
    PointersDiffer(pl, n, sys.cur, next);
    FrameInStack(pl, sys.cur);
  }

  lemma OtherStep(pl: Place, n: nat, sys: Sys, sh: Shadow, e: Event)
    requires OutInv(pl, n, sys, sh) && LegalAct(pl, n, sys, Other(e))
    ensures OutInv(pl, n, Next(pl, sys, e), NextShadow(sys, sh, e)) && Faithful(pl, n, sys, sh, e)
  {
    hide Exec, TrapEntry, RestoreTrap, SwitchTask, AnswerFrame, AnswerUser, Parked, FrameHolds, Load, SameUser,
      StackBase, StackTop, FrameBase, PtrAddr, KeepsTask, UserView, ContextOf;
    StepIsFaithful(pl, n, sys, sh, e);
    if e.SwitchTo? {
      NextPointerStays(pl, n, sys, sh, e.next);
    } else {
      PointerStays(pl, n, sys, sh, e);
    }
  }

  lemma SelfSwitchReady(pl: Place, n: nat, sys: Sys, sh: Shadow)
    requires OutInv(pl, n, sys, sh) && LegalAct(pl, n, sys, Self)
    ensures SwitchReady(sys.cpu) && sys.cpu.x[A1] + CONTEXT_BYTES == sh.kern[sys.cur].sp
  {
    hide Parked, FrameHolds, Load;
    StackRoom(pl, n, sys.cur);
  }

  lemma PushedIsOut(pl: Place, mem: Mem, t: nat, sp: nat)
    requires StackBase(pl, t) + CONTEXT_BYTES <= sp <= FrameBase(pl, t)
    requires Load(mem, PtrAddr(pl, t)) == sp - CONTEXT_BYTES
    ensures PointsTo(pl, mem, t, sp)
  {
  }

  /** The machine after the switch: what it continues with, and what it wrote. */
  lemma SelfEffect(pl: Place, n: nat, sys: Sys, sh: Shadow)
    requires OutInv(pl, n, sys, sh) && LegalAct(pl, n, sys, Self)
    ensures var cpu, cpu' := sys.cpu, NextAct(pl, sys, Self).cpu;
            && cpu'.x[SP] == sh.kern[sys.cur].sp
            && (ContextOf(cpu'.x) == ContextOf(cpu.x) <==> cpu.x[SP] == sh.kern[sys.cur].sp)
            && Load(cpu'.mem, PtrAddr(pl, sys.cur)) == cpu.x[SP] - CONTEXT_BYTES
            && (forall a: nat :: a != PtrAddr(pl, sys.cur) && !(cpu.x[SP] - CONTEXT_BYTES <= a < cpu.x[SP]) ==>
                  Load(cpu'.mem, a) == Load(cpu.mem, a))
  {
    hide Exec, SwitchTask, Parked, Load, FrameHolds, ContextHolds, StackBase, StackTop, FrameBase, PtrAddr,
      SwitchReady, Inv, PointsTo, ContextOf;
    SelfSwitchReady(pl, n, sys, sh);
    SwitchEffect(sys.cpu);
    SelfSwitchResumesIff(sys.cpu);
    LoadedSp(Exec(sys.cpu, SwitchTask()).mem, sys.cpu.x[A1], Exec(sys.cpu, SwitchTask()).x);
  }

  lemma SelfStep(pl: Place, n: nat, sys: Sys, sh: Shadow)
    requires OutInv(pl, n, sys, sh) && LegalAct(pl, n, sys, Self)
    ensures OutInv(pl, n, NextAct(pl, sys, Self), ShadowAct(sys, sh, Self)) && FaithfulAct(pl, n, sys, sh, Self)
  {
    hide Exec, SwitchTask, Parked, Load, FrameHolds, ContextHolds, StackBase, StackTop, FrameBase, PtrAddr,
      SwitchReady;
    var cpu, cur := sys.cpu, sys.cur;
    SelfEffect(pl, n, sys, sh);
    var cpu' := Exec(cpu, SwitchTask());
    FrameInStack(pl, cur);
    FrameEndsAtTop(pl, cur);
    ParkedAfter(pl, n, sys, sh, cpu'.mem);
    StackRoom(pl, n, cur);
    FrameIsLocal(cpu.mem, cpu'.mem, FrameBase(pl, cur), sh.user[cur]);
    PushedIsOut(pl, cpu'.mem, cur, cpu.x[SP]);
  }

  lemma LoadedSp(mem: Mem, b: nat, x: Regs)
    requires ContextHolds(mem, b, ContextOf(x))
    ensures x[SP] == b + CONTEXT_BYTES
  {
  }

  lemma ActIsFaithful(pl: Place, n: nat, sys: Sys, sh: Shadow, act: Act)
    requires OutInv(pl, n, sys, sh) && LegalAct(pl, n, sys, act)
    ensures OutInv(pl, n, NextAct(pl, sys, act), ShadowAct(sys, sh, act)) && FaithfulAct(pl, n, sys, sh, act)
  {
    hide Exec, SwitchTask, Parked, FrameHolds, PointsTo, StackTop, FrameBase, Legal, Next, NextShadow, Faithful;
    match act
    case Other(e) => OtherStep(pl, n, sys, sh, e);
    case Self => SelfStep(pl, n, sys, sh);
  }

  // ----- whole runs -----

  ghost predicate LegalActs(pl: Place, n: nat, sys: Sys, acts: seq<Act>)
    decreases |acts|
  {
    acts == [] || (LegalAct(pl, n, sys, acts[0]) && LegalActs(pl, n, NextAct(pl, sys, acts[0]), acts[1..]))
  }

  ghost predicate FaithfulActs(pl: Place, n: nat, sys: Sys, sh: Shadow, acts: seq<Act>)
    decreases |acts|
  {
    && |sh.kern| == n && |sh.user| == n && sys.cur < n
    && (acts != [] ==>
          && FaithfulAct(pl, n, sys, sh, acts[0])
          && FaithfulActs(pl, n, NextAct(pl, sys, acts[0]), ShadowAct(sys, sh, acts[0]), acts[1..]))
  }

  /** Over any run, switches of a task to itself included, every task finds its user
      registers again, and every switch-in is at the stack pointer of the task's last
      switch-out: a task switched to itself comes back as it left if and only if it
      left from the same depth of its stack as the time before. */
  lemma {:induction false} ActsAreFaithful(pl: Place, n: nat, sys: Sys, sh: Shadow, acts: seq<Act>)
    requires OutInv(pl, n, sys, sh) && LegalActs(pl, n, sys, acts)
    ensures FaithfulActs(pl, n, sys, sh, acts)
    decreases |acts|
  {
    hide FaithfulAct, LegalAct, NextAct, ShadowAct, Parked, FrameHolds, StackTop, FrameBase, PointsTo;
    if acts != [] {
      ActIsFaithful(pl, n, sys, sh, acts[0]);
      ActsAreFaithful(pl, n, NextAct(pl, sys, acts[0]), ShadowAct(sys, sh, acts[0]), acts[1..]);
    }
  }

  /** The state after boot qualifies; the loader's context counts as a switch-out with
      the stack pointer at the trap frame. */
  lemma BootedActsAreFaithful(pl: Place, n: nat, s: Cpu, mem: Mem, sstatus: nat, acts: seq<Act>)
    requires ValidPlace(pl) && 0 < n <= MAX_APP_NUM
    requires s.mem == InitApps(pl, mem, n, sstatus) && BootReady(pl, n, s)
    requires LegalActs(pl, n, Booted(s), acts)
    ensures OutInv(pl, n, Booted(s), InitialShadow(pl, n, sstatus))
    ensures FaithfulActs(pl, n, Booted(s), InitialShadow(pl, n, sstatus), acts)
  {
    hide Exec, SwitchTask, InitApps, BootReady, LegalActs, FaithfulActs, Load, Parked, FrameHolds;
    BootStartsTaskZero(pl, n, s, mem, sstatus);
    ActsAreFaithful(pl, n, Booted(s), InitialShadow(pl, n, sstatus), acts);
  }

  // ----- a task that yields alone -----

  function SysAfterActs(pl: Place, sys: Sys, acts: seq<Act>): Sys
    decreases |acts|
  {
    if acts == [] then sys else SysAfterActs(pl, NextAct(pl, sys, acts[0]), acts[1..])
  }

  ghost predicate NoSwitch(acts: seq<Act>) {
    forall a :: a in acts ==> a.Other? && !a.e.SwitchTo?
  }

  /** Between two switches the running task and its last switch-out stay the same. */
  lemma {:induction false} LastOutStays(pl: Place, n: nat, sys: Sys, sh: Shadow, acts: seq<Act>) returns (sh': Shadow)
    requires OutInv(pl, n, sys, sh) && LegalActs(pl, n, sys, acts) && NoSwitch(acts)
    ensures OutInv(pl, n, SysAfterActs(pl, sys, acts), sh')
    ensures SysAfterActs(pl, sys, acts).cur == sys.cur && sh'.kern == sh.kern
    decreases |acts|
  {
    sh' := sh;
    hide LegalAct, Exec, SwitchTask, Parked, FrameHolds, StackTop, FrameBase, PointsTo, TrapEntry, RestoreTrap,
      AnswerFrame, AnswerUser, UserView, ContextOf;
    if acts != [] {
      assert acts[0] in acts;
      ActIsFaithful(pl, n, sys, sh, acts[0]);
      sh' := LastOutStays(pl, n, NextAct(pl, sys, acts[0]), ShadowAct(sys, sh, acts[0]), acts[1..]);
    }
  }

  /** The first yield of a lone task after boot never comes back to where it was: it
      continues with the stack pointer at its trap frame. */
  lemma FirstLoneYieldLosesItsPlace(pl: Place, n: nat, s: Cpu, mem: Mem, sstatus: nat, acts: seq<Act>, sys: Sys)
    requires ValidPlace(pl) && 0 < n <= MAX_APP_NUM
    requires s.mem == InitApps(pl, mem, n, sstatus) && BootReady(pl, n, s)
    requires LegalActs(pl, n, Booted(s), acts) && NoSwitch(acts) && sys == SysAfterActs(pl, Booted(s), acts)
    requires LegalAct(pl, n, sys, Self) && sys.cpu.x[SP] < FrameBase(pl, 0)
    ensures ContextOf(NextAct(pl, sys, Self).cpu.x) != ContextOf(sys.cpu.x)
    ensures NextAct(pl, sys, Self).cpu.x[SP] == FrameBase(pl, 0)
  {
    hide Exec, SwitchTask, InitApps, BootReady, LegalActs, FaithfulActs, SysAfterActs, NoSwitch, Load, Parked,
      FrameHolds, LegalAct, ContextOf, PointsTo;
    BootedActsAreFaithful(pl, n, s, mem, sstatus, acts);
    var sh := LastOutStays(pl, n, Booted(s), InitialShadow(pl, n, sstatus), acts);
    SelfStep(pl, n, sys, sh);
  }

  /** From then on a lone task that yields comes back as it left if and only if it
      yields from the same stack pointer as the time before, as the code of an ecall
      executed again does. */
  lemma LaterLoneYieldReturnsIff(pl: Place, n: nat, sys: Sys, sh: Shadow, acts: seq<Act>, sys2: Sys)
    requires OutInv(pl, n, sys, sh) && LegalAct(pl, n, sys, Self)
    requires LegalActs(pl, n, NextAct(pl, sys, Self), acts) && NoSwitch(acts)
    requires sys2 == SysAfterActs(pl, NextAct(pl, sys, Self), acts) && LegalAct(pl, n, sys2, Self)
    ensures ContextOf(NextAct(pl, sys2, Self).cpu.x) == ContextOf(sys2.cpu.x) <==> sys2.cpu.x[SP] == sys.cpu.x[SP]
  {
    hide Exec, SwitchTask, LegalActs, SysAfterActs, NoSwitch, Load, Parked, FrameHolds, LegalAct, PointsTo;
    SelfStep(pl, n, sys, sh);
    var sh2 := LastOutStays(pl, n, NextAct(pl, sys, Self), ShadowAct(sys, sh, Self), acts);
    SelfStep(pl, n, sys2, sh2);
  }
}
