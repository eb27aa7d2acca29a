/** The initial frames of 02-multi-program-kern/kernel/src/loader.rs and the first
    dispatch of every task: `push_context`, `init_app_ctx`, the start-up loop of
    `TASK_MANAGER`, and `run_first_task`. */
module Loader {
  import opened Words
  import opened Machine
  import opened Trap
  import opened TaskSwitch
  import opened KernelRun

  /** `TrapContext::app_init_context`: all zero but sp, status and pc. */
  function TrapWords(entry: nat, sp: nat, sstatus: nat): (ws: seq<nat>)
    ensures |ws| == 33
  {
    seq(33, k => if k == SLOT_SP then sp else if k == SLOT_SSTATUS then sstatus
                 else if k == SLOT_SEPC then entry else 0)
  }

  /** `TaskContext::goto_restore`: all zero but ra. */
  function TaskWords(restore: nat): (ws: seq<nat>)
    ensures |ws| == 13
  {
    seq(13, k => if k == 0 then restore else 0)
  }

  function WriteWords(mem: Mem, b: nat, ws: seq<nat>): Mem
    decreases |ws|
  {
    if ws == [] then mem else WriteWords(mem[b := ws[0]], b + 8, ws[1..])
  }

  lemma {:induction false} WriteWordsEffect(mem: Mem, b: nat, ws: seq<nat>)
    ensures var mem' := WriteWords(mem, b, ws);
            && (forall k: nat :: k < |ws| ==> Load(mem', b + 8 * k) == ws[k])
            && SameOutside(mem, mem', b, b + 8 * |ws|)
    decreases |ws|
  {
    if ws != [] {
      WriteWordsEffect(mem[b := ws[0]], b + 8, ws[1..]);
      var mem' := WriteWords(mem, b, ws);
      forall k: nat | k < |ws|
        ensures Load(mem', b + 8 * k) == ws[k]
      {
        if k > 0 {
          assert Load(mem', b + 8 + 8 * (k - 1)) == ws[1..][k - 1];
        }
      }
    }
  }

  /** Both contexts are written below `top`; the result is the address of the lower one. */
  function PushContext(mem: Mem, top: nat, trapCx: seq<nat>, taskCx: seq<nat>): (Mem, nat)
    requires FRAME_BYTES + CONTEXT_BYTES <= top
  {
    (WriteWords(WriteWords(mem, top - FRAME_BYTES, trapCx), top - FRAME_BYTES - CONTEXT_BYTES, taskCx),
     top - FRAME_BYTES - CONTEXT_BYTES)
  }

  /** `tasks[t].task_cx_ptr = init_app_ctx(t)` */
  function InitApp(pl: Place, mem: Mem, t: nat, sstatus: nat): Mem {
    var (mem', p) := PushContext(mem, StackTop(pl, t), TrapWords(AppBase(t), UserStackTop(pl, t), sstatus),
                                 TaskWords(pl.restore));
    mem'[PtrAddr(pl, t) := p]
  }

  function InitApps(pl: Place, mem: Mem, n: nat, sstatus: nat): Mem {
    if n == 0 then mem else InitApp(pl, InitApps(pl, mem, n - 1, sstatus), n - 1, sstatus)
  }

  /** The registers a task is entitled to before it has ever run. */
  function InitialUser(pl: Place, t: nat, sstatus: nat): UserRegs {
    UserRegs(SetReg(seq(32, i => 0), SP, UserStackTop(pl, t)), AppBase(t), sstatus)
  }

  function InitialContext(pl: Place, t: nat): Context {
    Context(FrameBase(pl, t), TaskWords(pl.restore))
  }

  function InitialShadow(pl: Place, n: nat, sstatus: nat): Shadow {
    Shadow(seq(n, (t: nat) => InitialContext(pl, t)), seq(n, (t: nat) => InitialUser(pl, t, sstatus)))
  }

  lemma TrapWordsAreFrame(mem: Mem, b: nat, entry: nat, sp: nat, sstatus: nat, x: Regs)
    requires forall k: nat :: k < 33 ==> Load(mem, b + 8 * k) == TrapWords(entry, sp, sstatus)[k]
    requires x == SetReg(seq(32, i => 0), SP, sp)
    ensures FrameHolds(mem, b, UserRegs(x, entry, sstatus))
  {
    hide Load;
    forall r: nat | 1 <= r < 32
      ensures Load(mem, b + 8 * (r - 1)) == x[r]
    {
      assert Load(mem, b + 8 * (r - 1)) == TrapWords(entry, sp, sstatus)[r - 1];
    }
    assert Load(mem, b + 8 * SLOT_SSTATUS) == TrapWords(entry, sp, sstatus)[SLOT_SSTATUS];
    assert Load(mem, b + 8 * SLOT_SEPC) == TrapWords(entry, sp, sstatus)[SLOT_SEPC];
  }

  /** The words the loader leaves for task `t`, the stacks and control blocks being
      8192 and 16 bytes apart: the control block points to 13 words, `restore_trap` and
      twelve zeros, below the 33 words of the trap frame at the end of the kernel stack,
      which are zero but for the user stack pointer, the status and the entry. */
  ghost predicate InitialWords(pl: Place, mem: Mem, t: nat, sstatus: nat) {
    var b := pl.kstack + (t + 1) * 8192 - 264;
    var p := b - 104;
    && Load(mem, pl.tcb + t * 16) == p
    && (forall k: nat :: k < 13 ==> Load(mem, p + 8 * k) == if k == 0 then pl.restore else 0)
    && (forall k: nat :: k < 33 ==>
          Load(mem, b + 8 * k) ==
          if k == 1 then pl.ustack + (t + 1) * 8192
          else if k == 31 then sstatus
          else if k == 32 then 0x8040_0000 + t * 0x2_0000
          else 0)
  }

  lemma ParkedInitially(pl: Place, mem: Mem, t: nat, sstatus: nat)
    requires Parked(pl, mem, t, InitialContext(pl, t), InitialUser(pl, t, sstatus))
    ensures InitialWords(pl, mem, t, sstatus)
  {
    hide Load;
    var b := FrameBase(pl, t);
    var p := b - 104;
    assert Load(mem, PtrAddr(pl, t)) == p;
    forall k: nat | k < 13
      ensures Load(mem, p + 8 * k) == if k == 0 then pl.restore else 0
    {
      assert InitialContext(pl, t).regs[k] == if k == 0 then pl.restore else 0;
    }
    var u := InitialUser(pl, t, sstatus);
    forall k: nat | k < 31
      ensures Load(mem, b + 8 * k) == if k == 1 then pl.ustack + (t + 1) * 8192 else 0
    {
      assert u.x[k + 1] == if k == 1 then UserStackTop(pl, t) else 0;
      assert Load(mem, b + 8 * (k + 1 - 1)) == u.x[k + 1];
    }
  }

  /** After `push_context` the task is parked with its initial registers. */
  lemma InitAppParks(pl: Place, n: nat, mem: Mem, t: nat, sstatus: nat)
    requires ValidPlace(pl) && t < n <= MAX_APP_NUM
    ensures Parked(pl, InitApp(pl, mem, t, sstatus), t, InitialContext(pl, t), InitialUser(pl, t, sstatus))
    ensures InitialWords(pl, InitApp(pl, mem, t, sstatus), t, sstatus)
    ensures forall a: nat :: !(StackBase(pl, t) <= a < StackTop(pl, t)) && a != PtrAddr(pl, t) ==>
              Load(InitApp(pl, mem, t, sstatus), a) == Load(mem, a)
  {
    hide WriteWords, TrapWords, TaskWords, InitialUser, FrameHolds, UserStackTop, AppBase;
    StackRoom(pl, n, t);
    var trapCx, taskCx := TrapWords(AppBase(t), UserStackTop(pl, t), sstatus), TaskWords(pl.restore);
    var top := StackTop(pl, t);
    var b := top - FRAME_BYTES;
    var p := b - CONTEXT_BYTES;
    var mem1 := WriteWords(mem, b, trapCx);
    WriteWordsEffect(mem, b, trapCx);
    var mem2 := WriteWords(mem1, p, taskCx);
    WriteWordsEffect(mem1, p, taskCx);
    var mem3 := InitApp(pl, mem, t, sstatus);
    assert mem3 == mem2[PtrAddr(pl, t) := p];
    PushedWordsStay(mem1, mem2, mem3, b, p, PtrAddr(pl, t), trapCx, taskCx);
    InitialUserIs(pl, t, sstatus);
    TrapWordsAreFrame(mem3, b, AppBase(t), UserStackTop(pl, t), sstatus, InitialUser(pl, t, sstatus).x);
    hide InitialWords;
    ParkedInitially(pl, mem3, t, sstatus);
  }

  lemma InitialUserIs(pl: Place, t: nat, sstatus: nat)
    ensures InitialUser(pl, t, sstatus).x == SetReg(seq(32, i => 0), SP, UserStackTop(pl, t))
    ensures InitialUser(pl, t, sstatus).x[SP] == UserStackTop(pl, t)
    ensures InitialUser(pl, t, sstatus).sepc == AppBase(t) && InitialUser(pl, t, sstatus).sstatus == sstatus
  {
  }

  lemma PushedWordsStay(mem1: Mem, mem2: Mem, mem3: Mem, b: nat, p: nat, q: nat, trapCx: seq<nat>, taskCx: seq<nat>)
    requires |trapCx| == 33 && |taskCx| == 13 && b == p + CONTEXT_BYTES
    requires !(p <= q < b + FRAME_BYTES) && mem3 == mem2[q := p]
    requires forall k: nat :: k < 33 ==> Load(mem1, b + 8 * k) == trapCx[k]
    requires forall k: nat :: k < 13 ==> Load(mem2, p + 8 * k) == taskCx[k]
    requires SameOutside(mem1, mem2, p, p + CONTEXT_BYTES)
    ensures forall k: nat :: k < 33 ==> Load(mem3, b + 8 * k) == trapCx[k]
    ensures forall k: nat :: k < 13 ==> Load(mem3, p + 8 * k) == taskCx[k]
    ensures Load(mem3, q) == p
  {
  }

  /** The start-up loop parks all tasks. */
  lemma {:induction false} InitAppsPark(pl: Place, n: nat, mem: Mem, k: nat, sstatus: nat)
    requires ValidPlace(pl) && k <= n <= MAX_APP_NUM
    ensures forall t :: 0 <= t < k ==>
              Parked(pl, InitApps(pl, mem, k, sstatus), t, InitialContext(pl, t), InitialUser(pl, t, sstatus))
  {
    hide InitApp, InitialContext, InitialUser, Parked, KeepsTask, StackBase, StackTop, PtrAddr, Load;
    if k > 0 {
      InitAppsPark(pl, n, mem, k - 1, sstatus);
      var before := InitApps(pl, mem, k - 1, sstatus);
      var mem' := InitApp(pl, before, k - 1, sstatus);
      InitAppParks(pl, n, before, k - 1, sstatus);
      forall t | 0 <= t < k - 1
        ensures Parked(pl, mem', t, InitialContext(pl, t), InitialUser(pl, t, sstatus))
      {
        OtherTasksKept(pl, n, before, mem', k - 1, t);
        ParkedIsLocal(pl, before, mem', t, InitialContext(pl, t), InitialUser(pl, t, sstatus));
      }
    }
  }

  // ----- the first dispatch -----

  /** The words that `run_first_task` writes: the dummy pointer and the boot context. */
  ghost predicate BootArea(s: Cpu, a: nat) {
    a == s.x[A0] || s.x[SP] - CONTEXT_BYTES <= a < s.x[SP]
  }

  ghost predicate OutsideKernel(pl: Place, n: nat, a: nat) {
    forall t :: 0 <= t < n ==> !(StackBase(pl, t) <= a < StackTop(pl, t)) && a != PtrAddr(pl, t)
  }

  /** A boot-time register file about to run `switch_task` from `run_first_task`:
      its stack and the dummy pointer word lie outside the kernel's own areas. */
  ghost predicate BootReady(pl: Place, n: nat, s: Cpu) {
    && SwitchReady(s) && s.x[A1] == Load(s.mem, PtrAddr(pl, 0))
    && forall a: nat :: BootArea(s, a) ==> OutsideKernel(pl, n, a)
  }

  /** Booted state: the machine after the switch of `run_first_task`. */
  function Booted(s: Cpu): Sys {
    Sys(Exec(s, SwitchTask()), 0, false)
  }

  /** `run_first_task` starts task 0 and establishes the invariant of all runs. */
  lemma BootStartsTaskZero(pl: Place, n: nat, s: Cpu, mem: Mem, sstatus: nat)
    requires ValidPlace(pl) && 0 < n <= MAX_APP_NUM
    requires s.mem == InitApps(pl, mem, n, sstatus) && BootReady(pl, n, s)
    ensures var sys := Booted(s);
            && Inv(pl, n, sys, InitialShadow(pl, n, sstatus))
            && ContextOf(sys.cpu.x) == InitialContext(pl, 0)
            && Load(sys.cpu.mem, PtrAddr(pl, 0)) == FrameBase(pl, 0) - CONTEXT_BYTES
  {
    hide Exec, SwitchTask, InitApps, InitialContext, InitialUser, Parked, KeepsTask, Load, ContextOf, ContextHolds,
      FrameHolds, StackBase, StackTop, FrameBase, PtrAddr;
    InitAppsPark(pl, n, mem, n, sstatus);
    SwitchEffect(s);
    var mem' := Exec(s, SwitchTask()).mem;
    forall t | 0 <= t < n
      ensures Parked(pl, mem', t, InitialContext(pl, t), InitialUser(pl, t, sstatus))
    {
      BootKeepsTask(pl, n, s, mem', t);
      ParkedIsLocal(pl, s.mem, mem', t, InitialContext(pl, t), InitialUser(pl, t, sstatus));
    }
    BootKeepsTask(pl, n, s, mem', 0);
    KeepsTaskMeans(pl, s.mem, mem', 0);
    ParkedHasFrame(pl, mem', 0, InitialContext(pl, 0), InitialUser(pl, 0, sstatus));
    PointerOfParked(pl, mem', 0, InitialUser(pl, 0, sstatus));
    FirstContextLoads(pl, s, mem', InitialContext(pl, 0), InitialUser(pl, 0, sstatus),
                      ContextOf(Exec(s, SwitchTask()).x));
  }

  /** From boot on, over every legal run, every task finds its own registers:
      its initial ones the first time, afterwards those it left with. */
  lemma BootedRunIsFaithful(pl: Place, n: nat, s: Cpu, mem: Mem, sstatus: nat, es: seq<Event>)
    requires ValidPlace(pl) && 0 < n <= MAX_APP_NUM
    requires s.mem == InitApps(pl, mem, n, sstatus) && BootReady(pl, n, s)
    requires LegalRun(pl, n, Booted(s), es)
    ensures FaithfulRun(pl, n, Booted(s), InitialShadow(pl, n, sstatus), es)
  {
    hide Exec, SwitchTask, InitApps, InitialShadow, Inv, LegalRun, FaithfulRun, BootReady;
    BootStartsTaskZero(pl, n, s, mem, sstatus);
    RunIsFaithful(pl, n, Booted(s), InitialShadow(pl, n, sstatus), es);
  }

  lemma BootKeepsTask(pl: Place, n: nat, s: Cpu, mem': Mem, t: nat)
    requires t < n && BootReady(pl, n, s)
    requires forall a: nat :: a != s.x[A0] && !(s.x[SP] - CONTEXT_BYTES <= a < s.x[SP]) ==>
               Load(mem', a) == Load(s.mem, a)
    ensures KeepsTask(pl, s.mem, mem', t)
  {
    hide Load, StackBase, StackTop, PtrAddr;
    forall a: nat | StackBase(pl, t) <= a < StackTop(pl, t) || a == PtrAddr(pl, t)
      ensures Load(mem', a) == Load(s.mem, a)
    {
      assert !OutsideKernel(pl, n, a);
      assert !BootArea(s, a);
    }
  }

  lemma KeepsTaskMeans(pl: Place, mem: Mem, mem': Mem, t: nat)
    requires KeepsTask(pl, mem, mem', t)
    ensures Load(mem', PtrAddr(pl, t)) == Load(mem, PtrAddr(pl, t))
  {
  }

  lemma FirstContextLoads(pl: Place, s: Cpu, mem': Mem, c: Context, u: UserRegs, d: Context)
    requires Parked(pl, mem', 0, c, u) && Load(mem', PtrAddr(pl, 0)) == s.x[A1]
    requires ContextHolds(mem', s.x[A1], d)
    ensures d == c
  {
  }

  lemma PointerOfParked(pl: Place, mem: Mem, t: nat, u: UserRegs)
    requires Parked(pl, mem, t, InitialContext(pl, t), u)
    ensures Load(mem, PtrAddr(pl, t)) == FrameBase(pl, t) - CONTEXT_BYTES
  {
  }

  // ----- first entries -----

  /** User code of task `t` about to start: applications are 0x20000 bytes apart from
      0x80400000 on, user and kernel stacks 8192 bytes from the bases the linker gave
      them; every other register is zero. */
  ghost predicate FreshUser(pl: Place, t: nat, sstatus: nat, cpu: Cpu) {
    && cpu.sepc == 0x8040_0000 + t * 0x2_0000 && cpu.sstatus == sstatus
    && cpu.sscratch == pl.kstack + (t + 1) * 8192
    && forall r: nat :: 1 <= r < 32 ==> cpu.x[r] == if r == 2 then pl.ustack + (t + 1) * 8192 else 0
  }

  /** About to return to `restore_trap`: its address in ra, sp at the 33 words of the
      trap frame at the end of the task's kernel stack, s0..s11 zero. */
  ghost predicate AtRestore(pl: Place, t: nat, x: Regs) {
    && x[1] == pl.restore && x[2] == pl.kstack + (t + 1) * 8192 - 33 * 8
    && forall r: nat :: r == 8 || r == 9 || 18 <= r < 28 ==> x[r] == 0
  }

  lemma InitialIsAtRestore(pl: Place, t: nat, x: Regs)
    requires ContextOf(x) == InitialContext(pl, t)
    ensures AtRestore(pl, t, x)
  {
    forall k: nat | k < 13
      ensures x[SavedReg(k)] == if k == 0 then pl.restore else 0
    {
      assert ContextOf(x).regs[k] == TaskWords(pl.restore)[k];
    }
    assert SavedReg(0) == 1;
    forall r: nat | r == 8 || r == 9 || 18 <= r < 28
      ensures x[r] == 0
    {
      assert SavedReg(if r <= 9 then r - 7 else r - 15) == r;
    }
  }

  lemma InitialIsFresh(pl: Place, t: nat, sstatus: nat, cpu: Cpu)
    requires SameUser(UserView(cpu), InitialUser(pl, t, sstatus)) && cpu.sscratch == StackTop(pl, t)
    ensures FreshUser(pl, t, sstatus, cpu)
  {
  }

  /** Programs, user stacks and kernel stacks of different tasks lie apart. */
  lemma FreshTasksApart(pl: Place, t: nat, u: nat, sstatus: nat, a: Cpu, b: Cpu)
    requires t < u && FreshUser(pl, t, sstatus, a) && FreshUser(pl, u, sstatus, b)
    ensures 0x8040_0000 <= a.sepc && a.sepc + 0x2_0000 <= b.sepc
    ensures pl.ustack <= a.x[2] - 8192 && a.x[2] <= b.x[2] - 8192
    ensures pl.kstack <= a.sscratch - 8192 && a.sscratch <= b.sscratch - 8192
    ensures u == t + 1 ==> b.sepc == a.sepc + 0x2_0000 && b.x[2] == a.x[2] + 8192
    ensures t == 0 ==> a.sepc == 0x8040_0000 && a.x[2] == pl.ustack + 8192
  {
  }

  /** A task resumed with its initial context goes to `restore_trap` with sp at its
      trap frame; with its initial registers it enters user code fresh. */
  lemma InitialTrapOut(pl: Place, n: nat, sys: Sys, sh: Shadow, sstatus: nat)
    requires Inv(pl, n, sys, sh) && !sys.inUser
    requires ContextOf(sys.cpu.x) == InitialContext(pl, sys.cur)
    requires sh.user[sys.cur] == InitialUser(pl, sys.cur, sstatus)
    ensures AtRestore(pl, sys.cur, sys.cpu.x)
    ensures Legal(pl, n, sys, TrapOut) && FreshUser(pl, sys.cur, sstatus, Next(pl, sys, TrapOut).cpu)
  {
    hide Exec, TrapEntry, RestoreTrap, SwitchTask, AnswerFrame, AnswerUser, Parked, Load, FrameHolds, ContextHolds,
      StackBase, StackTop, FrameBase, PtrAddr, InitialUser, ContextOf, AtRestore, FreshUser, SameUser, UserView;
    ContextHasSp(sys.cpu.x, InitialContext(pl, sys.cur));
    InitialIsAtRestore(pl, sys.cur, sys.cpu.x);
    TrapOutStep(pl, n, sys, sh);
    InitialIsFresh(pl, sys.cur, sstatus, Next(pl, sys, TrapOut).cpu);
  }

  /** The switch to `t` continues at `restore_trap` with sp at the task's trap frame,
      and the exit that follows enters its user code fresh. */
  ghost predicate StartsFresh(pl: Place, n: nat, sys: Sys, t: nat, sstatus: nat) {
    var sys' := Next(pl, sys, SwitchTo(t));
    && AtRestore(pl, t, sys'.cpu.x)
    && Legal(pl, n, sys', TrapOut)
    && FreshUser(pl, t, sstatus, Next(pl, sys', TrapOut).cpu)
  }

  lemma SwitchResumesInitial(pl: Place, n: nat, sys: Sys, sh: Shadow, t: nat, sstatus: nat) returns (sh': Shadow)
    requires t < |sh.kern| && sh.kern[t] == InitialContext(pl, t)
    requires t < |sh.user| && sh.user[t] == InitialUser(pl, t, sstatus)
    requires Inv(pl, n, sys, sh) && Legal(pl, n, sys, SwitchTo(t))
    ensures var sys' := Next(pl, sys, SwitchTo(t));
            && Inv(pl, n, sys', sh') && !sys'.inUser && sys'.cur == t
            && ContextOf(sys'.cpu.x) == InitialContext(pl, t) && sh'.user[t] == InitialUser(pl, t, sstatus)
  {
    hide Exec, SwitchTask, Parked, FrameHolds, StackTop, FrameBase, ContextOf, InitialContext, InitialUser, StackBase,
      PtrAddr, Load, SameUser, RestoreTrap, TrapEntry, AnswerFrame, AnswerUser, UserView, KeepsTask;
    SwitchStep(pl, n, sys, sh, t);
    UserAfterSwitch(sys, sh, t);
    sh' := NextShadow(sys, sh, SwitchTo(t));
  }

  lemma SwitchStartsFresh(pl: Place, n: nat, sys: Sys, sh: Shadow, t: nat, sstatus: nat)
    requires t < |sh.kern| && sh.kern[t] == InitialContext(pl, t)
    requires t < |sh.user| && sh.user[t] == InitialUser(pl, t, sstatus)
    requires Inv(pl, n, sys, sh) && Legal(pl, n, sys, SwitchTo(t))
    ensures StartsFresh(pl, n, sys, t, sstatus)
  {
    hide Exec, SwitchTask, Parked, FrameHolds, StackTop, FrameBase, ContextOf, FreshUser, AtRestore, InitialContext,
      InitialUser, StackBase, PtrAddr, Load, SameUser, RestoreTrap, UserView, Legal, Next;
    var sh' := SwitchResumesInitial(pl, n, sys, sh, t, sstatus);
    InitialTrapOut(pl, n, Next(pl, sys, SwitchTo(t)), sh', sstatus);
  }

  /** Whatever legal run has gone before since boot, the first switch to a task
      starts it fresh. */
  lemma FirstDispatch(pl: Place, n: nat, s: Cpu, mem: Mem, sstatus: nat, es: seq<Event>, t: nat)
    requires ValidPlace(pl) && 0 < t < n <= MAX_APP_NUM
    requires s.mem == InitApps(pl, mem, n, sstatus) && BootReady(pl, n, s)
    requires LegalRun(pl, n, Booted(s), es) && forall e :: e in es && e.SwitchTo? ==> e.next != t
    requires Legal(pl, n, SysAfter(pl, Booted(s), es), SwitchTo(t))
    ensures StartsFresh(pl, n, SysAfter(pl, Booted(s), es), t, sstatus)
  {
    hide Exec, SwitchTask, InitApps, BootReady, Legal, LegalRun, SysAfter, ShadowAfter, Parked, FrameHolds, StackTop,
      FrameBase, ContextOf, StartsFresh, InitialContext, InitialUser, Load;
    BootStartsTaskZero(pl, n, s, mem, sstatus);
    var sh := InitialShadow(pl, n, sstatus);
    ParkedTaskStays(pl, n, Booted(s), sh, es, t);
    SwitchStartsFresh(pl, n, SysAfter(pl, Booted(s), es), ShadowAfter(pl, Booted(s), sh, es), t, sstatus);
  }

  lemma UserAfterSwitch(sys: Sys, sh: Shadow, t: nat)
    requires sys.cur < |sh.kern| && sys.cur < |sh.user| && t < |sh.user|
    ensures NextShadow(sys, sh, SwitchTo(t)).user == sh.user
  {
    hide UserView, ContextOf, AnswerUser;
  }

  /** Task 0 is entered fresh straight after boot. */
  lemma FirstEntryOfTaskZero(pl: Place, n: nat, s: Cpu, mem: Mem, sstatus: nat)
    requires ValidPlace(pl) && 0 < n <= MAX_APP_NUM
    requires s.mem == InitApps(pl, mem, n, sstatus) && BootReady(pl, n, s)
    ensures AtRestore(pl, 0, Booted(s).cpu.x) && Legal(pl, n, Booted(s), TrapOut)
    ensures FreshUser(pl, 0, sstatus, Next(pl, Booted(s), TrapOut).cpu)
  {
    hide Exec, SwitchTask, InitApps, BootReady, Legal, Parked, FrameHolds, StackTop, FrameBase, ContextOf, FreshUser,
      AtRestore, InitialContext, InitialUser, Load;
    BootStartsTaskZero(pl, n, s, mem, sstatus);
    InitialTrapOut(pl, n, Booted(s), InitialShadow(pl, n, sstatus), sstatus);
  }

  lemma ContextHasSp(x: Regs, c: Context)
    requires ContextOf(x) == c
    ensures c.sp == x[SP]
  {
  }

  // ----- in place -----

  lemma PushedContexts(mem: Mem, top: nat, trapCx: seq<nat>, taskCx: seq<nat>)
    requires FRAME_BYTES + CONTEXT_BYTES <= top && |trapCx| == 33 && |taskCx| == 13
    ensures var (mem', p) := PushContext(mem, top, trapCx, taskCx);
            && p + CONTEXT_BYTES + FRAME_BYTES == top
            && (forall k: nat :: k < 33 ==> Load(mem', p + CONTEXT_BYTES + 8 * k) == trapCx[k])
            && (forall k: nat :: k < 13 ==> Load(mem', p + 8 * k) == taskCx[k])
            && SameOutside(mem, mem', p, top)
  {
    hide WriteWords, Load;
    WriteWordsEffect(mem, top - FRAME_BYTES, trapCx);
    WriteWordsEffect(WriteWords(mem, top - FRAME_BYTES, trapCx), top - FRAME_BYTES - CONTEXT_BYTES, taskCx);
  }

  /** `KernelStack::push_context` on the machine's memory: the 33 words of the trap
      context end at `top`, the 13 of the task context lie directly below, at the
      returned address, and nothing else is written. */
  method PushContextInPlace(hart: Hart, top: nat, trapCx: seq<nat>, taskCx: seq<nat>) returns (p: nat)
    requires FRAME_BYTES + CONTEXT_BYTES <= top && |trapCx| == 33 && |taskCx| == 13
    modifies hart
    ensures p + CONTEXT_BYTES + FRAME_BYTES == top
    ensures forall k: nat :: k < 33 ==> Load(hart.cpu.mem, p + CONTEXT_BYTES + 8 * k) == trapCx[k]
    ensures forall k: nat :: k < 13 ==> Load(hart.cpu.mem, p + 8 * k) == taskCx[k]
    ensures SameOutside(old(hart.cpu.mem), hart.cpu.mem, p, top)
    ensures hart.cpu == old(hart.cpu).(mem := PushContext(old(hart.cpu.mem), top, trapCx, taskCx).0)
  {
    hide WriteWords, Load;
    PushedContexts(hart.cpu.mem, top, trapCx, taskCx);
    var trapPtr := top - FRAME_BYTES;
    hart.cpu := hart.cpu.(mem := WriteWords(hart.cpu.mem, trapPtr, trapCx));
    p := trapPtr - CONTEXT_BYTES;
    hart.cpu := hart.cpu.(mem := WriteWords(hart.cpu.mem, p, taskCx));
  }

  /** The loop that fills the context pointers of `TASK_MANAGER`. */
  method InitAppsInPlace(hart: Hart, pl: Place, n: nat, sstatus: nat)
    modifies hart
    ensures hart.cpu == old(hart.cpu).(mem := InitApps(pl, old(hart.cpu.mem), n, sstatus))
  {
    for t := 0 to n
      invariant hart.cpu == old(hart.cpu).(mem := InitApps(pl, old(hart.cpu.mem), t, sstatus))
    {
      var p := PushContextInPlace(hart, StackTop(pl, t), TrapWords(AppBase(t), UserStackTop(pl, t), sstatus),
                                  TaskWords(pl.restore));
      hart.cpu := hart.cpu.(mem := hart.cpu.mem[PtrAddr(pl, t) := p]);
    }
  }
}
