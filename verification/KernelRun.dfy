/** The cooperative kernel of 02-multi-program-kern/kernel/src as one state
    machine: user code, traps, kernel code and task switches over one memory
    that holds all kernel stacks and the saved context pointers. A shadow keeps,
    for every task, the registers it is entitled to find again; every run of the
    real machine gives each task exactly those. */
module KernelRun {
  import opened Words
  import opened Machine
  import opened Trap
  import opened TaskSwitch

  const KERNEL_STACK_SIZE := 8192
  const USER_STACK_SIZE := 8192
  const MAX_APP_NUM := 16
  const APP_BASE_ADDRESS := 0x80400000
  const APP_SIZE_LIMIT := 0x20000
  const TCB_BYTES := 16

  /** Where the linker put the stacks, the task control blocks and `restore_trap`. */
  datatype Place = Place(kstack: nat, ustack: nat, tcb: nat, restore: nat)

  predicate ValidPlace(pl: Place) {
    && pl.kstack + MAX_APP_NUM * KERNEL_STACK_SIZE < WORD
    && pl.tcb + MAX_APP_NUM * TCB_BYTES < WORD
    && (pl.tcb + MAX_APP_NUM * TCB_BYTES <= pl.kstack || pl.kstack + MAX_APP_NUM * KERNEL_STACK_SIZE <= pl.tcb)
  }

  function StackBase(pl: Place, t: nat): nat {
    pl.kstack + t * KERNEL_STACK_SIZE
  }

  /** `KernelStack::get_sp` of task `t`. */
  function StackTop(pl: Place, t: nat): nat {
    pl.kstack + t * KERNEL_STACK_SIZE + KERNEL_STACK_SIZE
  }

  function UserStackTop(pl: Place, t: nat): nat {
    pl.ustack + t * USER_STACK_SIZE + USER_STACK_SIZE
  }

  /** Address of `tasks[t].task_cx_ptr`. */
  function PtrAddr(pl: Place, t: nat): nat {
    pl.tcb + t * TCB_BYTES
  }

  function FrameBase(pl: Place, t: nat): nat {
    StackTop(pl, t) - FRAME_BYTES
  }

  /** `get_base_i` */
  function AppBase(t: nat): nat {
    APP_BASE_ADDRESS + t * APP_SIZE_LIMIT
  }

  // ----- who may write what -----

  ghost predicate KeepsTask(pl: Place, mem: Mem, mem': Mem, t: nat) {
    && (forall a: nat :: StackBase(pl, t) <= a < StackTop(pl, t) ==> Load(mem', a) == Load(mem, a))
    && Load(mem', PtrAddr(pl, t)) == Load(mem, PtrAddr(pl, t))
  }

  /** A task that is not running: its context lies on its own kernel stack below
      its trap frame, and its control block points to it. */
  ghost predicate Parked(pl: Place, mem: Mem, t: nat, c: Context, u: UserRegs) {
    var p := Load(mem, PtrAddr(pl, t));
    && StackBase(pl, t) <= p && p + CONTEXT_BYTES <= FrameBase(pl, t)
    && ContextHolds(mem, p, c)
    && FrameHolds(mem, FrameBase(pl, t), u)
  }

  lemma ParkedIsLocal(pl: Place, mem: Mem, mem': Mem, t: nat, c: Context, u: UserRegs)
    requires Parked(pl, mem, t, c, u) && KeepsTask(pl, mem, mem', t)
    ensures Parked(pl, mem', t, c, u)
  {
  }

  // ----- the machine and its shadow -----

  datatype Sys = Sys(cpu: Cpu, cur: nat, inUser: bool)

  /** Per task: the context at its last switch-out and the user registers at its
      last trap, as edited by the answer; before the first run, the initial ones. */
  datatype Shadow = Shadow(kern: seq<Context>, user: seq<UserRegs>)

  datatype Event =
    | UserRun(cpu: Cpu)         // user code, up to the moment of a trap
    | TrapIn                    // trap_entry up to the handler call
    | KernelCode(cpu: Cpu)      // any kernel code of the current task
    | Answer(code: nat, extra: nat)
    | TrapOut                   // restore_trap, or trap_entry after the handler
    | SwitchTo(next: nat)       // switch_task called by run_next_task

  ghost predicate Legal(pl: Place, n: nat, sys: Sys, e: Event) {
    var mem := sys.cpu.mem;
    match e
    case UserRun(cpu) =>
      sys.inUser && cpu.sscratch == sys.cpu.sscratch && forall t :: 0 <= t < n ==> KeepsTask(pl, mem, cpu.mem, t)
    case TrapIn => sys.inUser
    case KernelCode(cpu) =>
      && !sys.inUser
      && (forall t :: 0 <= t < n && t != sys.cur ==> KeepsTask(pl, mem, cpu.mem, t))
      && (forall a: nat :: FrameBase(pl, sys.cur) <= a < StackTop(pl, sys.cur) ==> Load(cpu.mem, a) == Load(mem, a))
    case Answer(code, extra) => !sys.inUser
    case TrapOut => !sys.inUser && sys.cpu.x[SP] == FrameBase(pl, sys.cur)
    case SwitchTo(next) =>
      && !sys.inUser && next < n && next != sys.cur
      && sys.cpu.x[A0] == PtrAddr(pl, sys.cur) && sys.cpu.x[A1] == Load(mem, PtrAddr(pl, next))
      && StackBase(pl, sys.cur) + CONTEXT_BYTES <= sys.cpu.x[SP] <= FrameBase(pl, sys.cur)
  }

  function Next(pl: Place, sys: Sys, e: Event): Sys {
    match e
    case UserRun(cpu) => sys.(cpu := cpu)
    case TrapIn => Sys(Exec(sys.cpu, TrapEntry()), sys.cur, false)
    case KernelCode(cpu) => sys.(cpu := cpu)
    case Answer(code, extra) =>
      sys.(cpu := sys.cpu.(mem := AnswerFrame(sys.cpu.mem, FrameBase(pl, sys.cur), code, extra)))
    case TrapOut => Sys(Exec(sys.cpu, RestoreTrap()), sys.cur, true)
    case SwitchTo(next) => Sys(Exec(sys.cpu, SwitchTask()), next, false)
  }

  /** The shadow never looks at memory. */
  function NextShadow(sys: Sys, sh: Shadow, e: Event): Shadow
    requires sys.cur < |sh.kern| && sys.cur < |sh.user|
  {
    match e
    case TrapIn => sh.(user := sh.user[sys.cur := UserView(sys.cpu)])
    case Answer(code, extra) => sh.(user := sh.user[sys.cur := AnswerUser(sh.user[sys.cur], code, extra)])
    case SwitchTo(next) => sh.(kern := sh.kern[sys.cur := ContextOf(sys.cpu.x)])
    case _ => sh
  }

  ghost predicate Inv(pl: Place, n: nat, sys: Sys, sh: Shadow) {
    && ValidPlace(pl) && sys.cur < n <= MAX_APP_NUM
    && |sh.kern| == n && |sh.user| == n
    && (forall t :: 0 <= t < n && t != sys.cur ==> Parked(pl, sys.cpu.mem, t, sh.kern[t], sh.user[t]))
    && (if sys.inUser then sys.cpu.sscratch == StackTop(pl, sys.cur)
        else FrameHolds(sys.cpu.mem, FrameBase(pl, sys.cur), sh.user[sys.cur]))
  }

  /** What the tasks can observe: back in user code the current task has its
      user registers and sscratch is its own stack top; switched back in, it has
      its own context. */
  ghost predicate Faithful(pl: Place, n: nat, sys: Sys, sh: Shadow, e: Event)
    requires |sh.kern| == n && |sh.user| == n && sys.cur < n
  {
    var sys' := Next(pl, sys, e);
    && (sys'.inUser ==> sys'.cpu.sscratch == StackTop(pl, sys'.cur))
    && (e.TrapOut? ==> SameUser(UserView(sys'.cpu), sh.user[sys.cur]))
    && (e.SwitchTo? && e.next < n ==> ContextOf(sys'.cpu.x) == sh.kern[e.next])
  }

  // ----- each step -----

  /** Writes inside one task's stack or pointer word leave every other task alone. */
  lemma OtherTasksKept(pl: Place, n: nat, mem: Mem, mem': Mem, cur: nat, t: nat)
    requires ValidPlace(pl) && cur < n <= MAX_APP_NUM && t < n && t != cur
    requires forall a: nat :: !(StackBase(pl, cur) <= a < StackTop(pl, cur)) && a != PtrAddr(pl, cur) ==>
               Load(mem', a) == Load(mem, a)
    ensures KeepsTask(pl, mem, mem', t)
  {
  }

  lemma StackRoom(pl: Place, n: nat, t: nat)
    requires ValidPlace(pl) && t < n <= MAX_APP_NUM
    ensures StackBase(pl, t) + FRAME_BYTES <= StackTop(pl, t) < WORD && PtrAddr(pl, t) < WORD
    ensures forall u :: 0 <= u < n ==> !(StackBase(pl, t) <= PtrAddr(pl, u) < StackTop(pl, t))
  {
  }

  lemma ParkedAfter(pl: Place, n: nat, sys: Sys, sh: Shadow, mem': Mem)
    requires Inv(pl, n, sys, sh)
    requires forall a: nat :: !(StackBase(pl, sys.cur) <= a < StackTop(pl, sys.cur)) && a != PtrAddr(pl, sys.cur) ==>
               Load(mem', a) == Load(sys.cpu.mem, a)
    ensures forall t :: 0 <= t < n && t != sys.cur ==> Parked(pl, mem', t, sh.kern[t], sh.user[t])
  {
    hide Parked, KeepsTask, Load, FrameHolds, StackBase, StackTop, PtrAddr;
    forall t | 0 <= t < n && t != sys.cur
      ensures Parked(pl, mem', t, sh.kern[t], sh.user[t])
    {
      OtherTasksKept(pl, n, sys.cpu.mem, mem', sys.cur, t);
      ParkedIsLocal(pl, sys.cpu.mem, mem', t, sh.kern[t], sh.user[t]);
    }
  }

  lemma TrapInStep(pl: Place, n: nat, sys: Sys, sh: Shadow)
    requires Inv(pl, n, sys, sh) && Legal(pl, n, sys, TrapIn)
    ensures Inv(pl, n, Next(pl, sys, TrapIn), NextShadow(sys, sh, TrapIn))
  {
    hide Exec, TrapEntry, RestoreTrap, SwitchTask, AnswerFrame, AnswerUser, Parked, Load, FrameHolds, ContextHolds,
      ContextOf, SameUser;
    StackRoom(pl, n, sys.cur);
    EntrySavesUser(sys.cpu);
    var s' := Exec(sys.cpu, TrapEntry());
    assert SameOutside(sys.cpu.mem, s'.mem, FrameBase(pl, sys.cur), StackTop(pl, sys.cur));
    ParkedAfter(pl, n, sys, sh, s'.mem);
  }

  lemma AnswerStep(pl: Place, n: nat, sys: Sys, sh: Shadow, code: nat, extra: nat)
    requires Inv(pl, n, sys, sh) && Legal(pl, n, sys, Answer(code, extra))
    ensures Inv(pl, n, Next(pl, sys, Answer(code, extra)), NextShadow(sys, sh, Answer(code, extra)))
  {
    hide Exec, TrapEntry, RestoreTrap, SwitchTask, AnswerFrame, AnswerUser, Parked, Load, FrameHolds, ContextHolds,
      ContextOf, UserView, SameUser, StackBase, StackTop, FrameBase, PtrAddr;
    FrameInStack(pl, sys.cur);
    FrameEndsAtTop(pl, sys.cur);
    AnswerEditsFrame(sys.cpu.mem, FrameBase(pl, sys.cur), sh.user[sys.cur], code, extra);
    ParkedAfter(pl, n, sys, sh, AnswerFrame(sys.cpu.mem, FrameBase(pl, sys.cur), code, extra));
  }

  lemma TrapOutStep(pl: Place, n: nat, sys: Sys, sh: Shadow)
    requires Inv(pl, n, sys, sh) && Legal(pl, n, sys, TrapOut)
    ensures Inv(pl, n, Next(pl, sys, TrapOut), NextShadow(sys, sh, TrapOut)) && Faithful(pl, n, sys, sh, TrapOut)
  {
    hide Exec, TrapEntry, RestoreTrap, SwitchTask, AnswerFrame, AnswerUser, Parked, Load, FrameHolds, ContextHolds,
      ContextOf, SameUser;
    StackRoom(pl, n, sys.cur);
    ExitRestoresUser(sys.cpu, sh.user[sys.cur]);
  }

  lemma UserStep(pl: Place, n: nat, sys: Sys, sh: Shadow, cpu: Cpu)
    requires Inv(pl, n, sys, sh) && Legal(pl, n, sys, UserRun(cpu))
    ensures Inv(pl, n, Next(pl, sys, UserRun(cpu)), NextShadow(sys, sh, UserRun(cpu)))
    ensures Faithful(pl, n, sys, sh, UserRun(cpu))
  {
    hide Exec, TrapEntry, RestoreTrap, SwitchTask, AnswerFrame, AnswerUser, Parked, Load, FrameHolds, ContextHolds,
      ContextOf, UserView, SameUser, StackBase, StackTop, FrameBase, PtrAddr, KeepsTask;
    forall t | 0 <= t < n && t != sys.cur
      ensures Parked(pl, cpu.mem, t, sh.kern[t], sh.user[t])
    {
      ParkedIsLocal(pl, sys.cpu.mem, cpu.mem, t, sh.kern[t], sh.user[t]);
    }
  }

  lemma KernelStep(pl: Place, n: nat, sys: Sys, sh: Shadow, cpu: Cpu)
    requires Inv(pl, n, sys, sh) && Legal(pl, n, sys, KernelCode(cpu))
    ensures Inv(pl, n, Next(pl, sys, KernelCode(cpu)), NextShadow(sys, sh, KernelCode(cpu)))
    ensures Faithful(pl, n, sys, sh, KernelCode(cpu))
  {
    hide Exec, TrapEntry, RestoreTrap, SwitchTask, AnswerFrame, AnswerUser, Parked, Load, FrameHolds, ContextHolds,
      ContextOf, UserView, SameUser, StackBase, StackTop, FrameBase, PtrAddr, KeepsTask;
    forall t | 0 <= t < n && t != sys.cur
      ensures Parked(pl, cpu.mem, t, sh.kern[t], sh.user[t])
    {
      ParkedIsLocal(pl, sys.cpu.mem, cpu.mem, t, sh.kern[t], sh.user[t]);
    }
    FrameEndsAtTop(pl, sys.cur);
    FrameIsLocal(sys.cpu.mem, cpu.mem, FrameBase(pl, sys.cur), sh.user[sys.cur]);
  }

  lemma FrameEndsAtTop(pl: Place, t: nat)
    ensures FrameBase(pl, t) + FRAME_BYTES == StackTop(pl, t)
  {
  }

  /** The memory effect of a switch, and the context it continues with. */
  lemma SwitchRegisters(pl: Place, n: nat, sys: Sys, c: Context, u: UserRegs, next: nat)
    requires ValidPlace(pl) && sys.cur < n <= MAX_APP_NUM && Legal(pl, n, sys, SwitchTo(next))
    requires Parked(pl, sys.cpu.mem, next, c, u)
    ensures var b := sys.cpu.x[SP] - CONTEXT_BYTES;
            var s' := Exec(sys.cpu, SwitchTask());
            && ContextOf(s'.x) == c
            && Load(s'.mem, PtrAddr(pl, sys.cur)) == b
            && ContextHolds(s'.mem, b, ContextOf(sys.cpu.x))
            && (forall a: nat :: a != PtrAddr(pl, sys.cur) && !(b <= a < b + CONTEXT_BYTES) ==>
                  Load(s'.mem, a) == Load(sys.cpu.mem, a))
  {
    hide Exec, SwitchTask, Parked, Load, FrameHolds, ContextHolds, ContextOf, StackBase, StackTop, PtrAddr;
    var s := sys.cpu;
    StackRoom(pl, n, sys.cur);
    SwitchFitsStacks(pl, n, s.mem, sys.cur, next, c, u, s.x[SP] - CONTEXT_BYTES);
    SwitchEffect(s);
    SwitchResumes(s, c);
  }

  /** The switch parks the current task and resumes the next one where it parked. */
  lemma SwitchStep(pl: Place, n: nat, sys: Sys, sh: Shadow, next: nat)
    requires Inv(pl, n, sys, sh) && Legal(pl, n, sys, SwitchTo(next))
    ensures Inv(pl, n, Next(pl, sys, SwitchTo(next)), NextShadow(sys, sh, SwitchTo(next)))
    ensures Faithful(pl, n, sys, sh, SwitchTo(next))
  {
    hide Exec, TrapEntry, RestoreTrap, SwitchTask, AnswerFrame, AnswerUser, Parked, Load, FrameHolds, ContextHolds,
      ContextOf, UserView, SameUser, StackBase, StackTop, FrameBase, PtrAddr;
    var cur, b := sys.cur, sys.cpu.x[SP] - CONTEXT_BYTES;
    StackRoom(pl, n, cur);
    SwitchRegisters(pl, n, sys, sh.kern[next], sh.user[next], next);
    var mem' := Exec(sys.cpu, SwitchTask()).mem;
    FrameInStack(pl, cur);
    ParkedAfter(pl, n, sys, sh, mem');
    SwitchParks(pl, n, sys.cpu.mem, mem', cur, ContextOf(sys.cpu.x), sh.user[cur], b);
    ParkedHasFrame(pl, mem', next, sh.kern[next], sh.user[next]);
  }

  lemma FrameInStack(pl: Place, t: nat)
    ensures StackBase(pl, t) <= FrameBase(pl, t) <= StackTop(pl, t)
  {
  }

  lemma ParkedHasFrame(pl: Place, mem: Mem, t: nat, c: Context, u: UserRegs)
    requires Parked(pl, mem, t, c, u)
    ensures FrameHolds(mem, FrameBase(pl, t), u)
  {
  }

  lemma SwitchFitsStacks(pl: Place, n: nat, mem: Mem, cur: nat, next: nat, c: Context, u: UserRegs, b: nat)
    requires ValidPlace(pl) && cur < n <= MAX_APP_NUM && next < n && next != cur
    requires Parked(pl, mem, next, c, u)
    requires StackBase(pl, cur) <= b && b + CONTEXT_BYTES <= FrameBase(pl, cur)
    ensures var p := Load(mem, PtrAddr(pl, next));
            && ContextHolds(mem, p, c) && p + CONTEXT_BYTES < WORD
            && !(p <= PtrAddr(pl, cur) < p + CONTEXT_BYTES)
            && (p + CONTEXT_BYTES <= b || b + CONTEXT_BYTES <= p)
  {
  }

  lemma SwitchParks(pl: Place, n: nat, mem: Mem, mem': Mem, cur: nat, c: Context, u: UserRegs, b: nat)
    requires ValidPlace(pl) && cur < n <= MAX_APP_NUM
    requires FrameHolds(mem, FrameBase(pl, cur), u)
    requires StackBase(pl, cur) <= b && b + CONTEXT_BYTES <= FrameBase(pl, cur)
    requires Load(mem', PtrAddr(pl, cur)) == b && ContextHolds(mem', b, c)
    requires forall a: nat :: a != PtrAddr(pl, cur) && !(b <= a < b + CONTEXT_BYTES) ==> Load(mem', a) == Load(mem, a)
    ensures Parked(pl, mem', cur, c, u)
  {
  }

  lemma StepIsFaithful(pl: Place, n: nat, sys: Sys, sh: Shadow, e: Event)
    requires Inv(pl, n, sys, sh) && Legal(pl, n, sys, e)
    ensures Inv(pl, n, Next(pl, sys, e), NextShadow(sys, sh, e)) && Faithful(pl, n, sys, sh, e)
  {
    hide Exec, TrapEntry, RestoreTrap, SwitchTask, AnswerFrame, AnswerUser, Parked, FrameHolds, Load, SameUser,
      StackBase, StackTop, PtrAddr, KeepsTask;
    match e
    case TrapIn => TrapInStep(pl, n, sys, sh);
    case Answer(code, extra) => AnswerStep(pl, n, sys, sh, code, extra);
    case TrapOut => TrapOutStep(pl, n, sys, sh);
    case SwitchTo(next) => SwitchStep(pl, n, sys, sh, next);
    case UserRun(cpu) => UserStep(pl, n, sys, sh, cpu);
    case KernelCode(cpu) => KernelStep(pl, n, sys, sh, cpu);
  }

  // ----- whole runs -----

  ghost predicate LegalRun(pl: Place, n: nat, sys: Sys, es: seq<Event>)
    decreases |es|
  {
    es == [] || (Legal(pl, n, sys, es[0]) && LegalRun(pl, n, Next(pl, sys, es[0]), es[1..]))
  }

  ghost predicate FaithfulRun(pl: Place, n: nat, sys: Sys, sh: Shadow, es: seq<Event>)
    decreases |es|
  {
    && |sh.kern| == n && |sh.user| == n && sys.cur < n
    && (es != [] ==>
          && Faithful(pl, n, sys, sh, es[0])
          && FaithfulRun(pl, n, Next(pl, sys, es[0]), NextShadow(sys, sh, es[0]), es[1..]))
  }

  /** Over any run of traps, answers and switches between different tasks, every
      task finds its own registers again. */
  lemma {:induction false} RunIsFaithful(pl: Place, n: nat, sys: Sys, sh: Shadow, es: seq<Event>)
    requires Inv(pl, n, sys, sh) && LegalRun(pl, n, sys, es)
    ensures FaithfulRun(pl, n, sys, sh, es)
    decreases |es|
  {
    hide Faithful, Legal, Next, NextShadow, Parked, FrameHolds, StackTop, FrameBase;
    if es != [] {
      StepIsFaithful(pl, n, sys, sh, es[0]);
      RunIsFaithful(pl, n, Next(pl, sys, es[0]), NextShadow(sys, sh, es[0]), es[1..]);
    }
  }

  /** The machine and the shadow at the end of a run. */
  function SysAfter(pl: Place, sys: Sys, es: seq<Event>): Sys
    decreases |es|
  {
    if es == [] then sys else SysAfter(pl, Next(pl, sys, es[0]), es[1..])
  }

  function ShadowAfter(pl: Place, sys: Sys, sh: Shadow, es: seq<Event>): Shadow
    decreases |es|
  {
    if es == [] || sys.cur >= |sh.kern| || sys.cur >= |sh.user| then sh
    else ShadowAfter(pl, Next(pl, sys, es[0]), NextShadow(sys, sh, es[0]), es[1..])
  }

  /** The invariant holds at the end of every legal run. */
  lemma {:induction false} RunKeepsInv(pl: Place, n: nat, sys: Sys, sh: Shadow, es: seq<Event>)
    requires Inv(pl, n, sys, sh) && LegalRun(pl, n, sys, es)
    ensures Inv(pl, n, SysAfter(pl, sys, es), ShadowAfter(pl, sys, sh, es))
    decreases |es|
  {
    hide Faithful, Legal, Next, NextShadow, Parked, FrameHolds, StackTop, FrameBase;
    if es != [] {
      StepIsFaithful(pl, n, sys, sh, es[0]);
      RunKeepsInv(pl, n, Next(pl, sys, es[0]), NextShadow(sys, sh, es[0]), es[1..]);
    }
  }

  /** The shadow of a task that is not running does not change. */
  lemma {:induction false} ParkedShadowIsStable(pl: Place, sys: Sys, sh: Shadow, es: seq<Event>, t: nat)
    requires sys.cur < |sh.kern| && sys.cur < |sh.user| && t < |sh.kern| && t < |sh.user| && t != sys.cur
    requires forall e :: e in es && e.SwitchTo? ==> e.next != t
    ensures SysAfter(pl, sys, es).cur != t
    ensures var sh' := ShadowAfter(pl, sys, sh, es);
            && |sh'.kern| == |sh.kern| && |sh'.user| == |sh.user|
            && sh'.kern[t] == sh.kern[t] && sh'.user[t] == sh.user[t]
    decreases |es|
  {
    hide Exec, TrapEntry, RestoreTrap, SwitchTask, AnswerFrame, AnswerUser, FrameBase, UserView, ContextOf;
    if es != [] {
      assert es[0] in es;
      var sys1, sh1 := Next(pl, sys, es[0]), NextShadow(sys, sh, es[0]);
      assert sys1.cur != t;
      assert |sh1.kern| == |sh.kern| && |sh1.user| == |sh.user|;
      assert sh1.kern[t] == sh.kern[t] && sh1.user[t] == sh.user[t];
      if sys1.cur < |sh1.kern| && sys1.cur < |sh1.user| {
        ParkedShadowIsStable(pl, sys1, sh1, es[1..], t);
      } else {
        NeverRuns(pl, sys1, es[1..], t);
      }
    }
  }

  lemma {:induction false} NeverRuns(pl: Place, sys: Sys, es: seq<Event>, t: nat)
    requires sys.cur != t && forall e :: e in es && e.SwitchTo? ==> e.next != t
    ensures SysAfter(pl, sys, es).cur != t
    decreases |es|
  {
    hide Exec, TrapEntry, RestoreTrap, SwitchTask, AnswerFrame, FrameBase;
    if es != [] {
      assert es[0] in es;
      NeverRuns(pl, Next(pl, sys, es[0]), es[1..], t);
    }
  }

  /** A task that is not switched to stays parked in memory with the context and
      the user registers it was parked with, whatever the others do. */
  lemma ParkedTaskStays(pl: Place, n: nat, sys: Sys, sh: Shadow, es: seq<Event>, t: nat)
    requires Inv(pl, n, sys, sh) && LegalRun(pl, n, sys, es) && t < n && t != sys.cur
    requires forall e :: e in es && e.SwitchTo? ==> e.next != t
    ensures SysAfter(pl, sys, es).cur != t
    ensures Parked(pl, SysAfter(pl, sys, es).cpu.mem, t, sh.kern[t], sh.user[t])
    ensures Inv(pl, n, SysAfter(pl, sys, es), ShadowAfter(pl, sys, sh, es))
    ensures ShadowAfter(pl, sys, sh, es).kern[t] == sh.kern[t] && ShadowAfter(pl, sys, sh, es).user[t] == sh.user[t]
  {
    hide SysAfter, ShadowAfter, LegalRun, Parked, FrameHolds, StackTop, FrameBase;
    RunKeepsInv(pl, n, sys, sh, es);
    ParkedShadowIsStable(pl, sys, sh, es, t);
  }

  /** Task `t` neither traps nor is answered during the run. */
  ghost predicate Unanswered(pl: Place, sys: Sys, es: seq<Event>, t: nat)
    decreases |es|
  {
    es == [] ||
    (!(sys.cur == t && (es[0].Answer? || es[0].TrapIn?)) && Unanswered(pl, Next(pl, sys, es[0]), es[1..], t))
  }

  lemma {:induction false} UnansweredShadow(pl: Place, sys: Sys, sh: Shadow, es: seq<Event>, t: nat)
    requires sys.cur < |sh.kern| && sys.cur < |sh.user| && t < |sh.user|
    requires Unanswered(pl, sys, es, t)
    ensures t < |ShadowAfter(pl, sys, sh, es).user|
    ensures ShadowAfter(pl, sys, sh, es).user[t] == sh.user[t]
    decreases |es|
  {
    hide Exec, TrapEntry, RestoreTrap, SwitchTask, AnswerFrame, AnswerUser, FrameBase, UserView, ContextOf;
    if es != [] {
      var sys1, sh1 := Next(pl, sys, es[0]), NextShadow(sys, sh, es[0]);
      assert t < |sh1.user| && sh1.user[t] == sh.user[t];
      if sys1.cur < |sh1.kern| && sys1.cur < |sh1.user| {
        UnansweredShadow(pl, sys1, sh1, es[1..], t);
      }
    }
  }

  /** The Yield arm leaves the saved pc alone: when a task that trapped and was not
      answered gets back to user code, whatever the others did in between, it has
      the registers and the pc of the trap. It executes the same ecall again. */
  lemma YieldReturnsToEcall(pl: Place, n: nat, sys: Sys, sh: Shadow, es: seq<Event>)
    requires Inv(pl, n, sys, sh) && Legal(pl, n, sys, TrapIn)
    requires var sys1 := Next(pl, sys, TrapIn);
             LegalRun(pl, n, sys1, es) && Unanswered(pl, sys1, es, sys.cur)
    requires var sys2 := SysAfter(pl, Next(pl, sys, TrapIn), es);
             sys2.cur == sys.cur && Legal(pl, n, sys2, TrapOut)
    ensures var sys2 := SysAfter(pl, Next(pl, sys, TrapIn), es);
            var back := Next(pl, sys2, TrapOut);
            back.inUser && back.cur == sys.cur && SameUser(UserView(back.cpu), UserView(sys.cpu))
  {
    hide Exec, TrapEntry, RestoreTrap, SwitchTask, SysAfter, ShadowAfter, LegalRun, Unanswered, Parked, FrameHolds,
      StackTop, FrameBase, SameUser, Legal, UserView;
    var sys1, sh1 := Next(pl, sys, TrapIn), NextShadow(sys, sh, TrapIn);
    TrapInStep(pl, n, sys, sh);
    RunKeepsInv(pl, n, sys1, sh1, es);
    UnansweredShadow(pl, sys1, sh1, es, sys.cur);
    TrapOutStep(pl, n, SysAfter(pl, sys1, es), ShadowAfter(pl, sys1, sh1, es));
  }
}
