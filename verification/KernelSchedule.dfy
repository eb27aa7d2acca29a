/** The scheduler and the kernel machine as one: the machine switches where the task
    manager says. A task that yields is back at its ecall after a bounded number of
    calls, with the registers it trapped with. */
module KernelSchedule {
  import opened Words
  import opened Machine
  import opened Trap
  import opened TaskSwitch
  import opened KernelRun
  import opened Loader
  import opened SelfSwitch
  import S = Scheduler

  datatype Kernel = Kernel(tasks: S.Tasks, sys: Sys)

  /** Steps of the machine, and the two calls that end in `run_next_task`. */
  datatype KernelEvent = Step(e: Event) | Call(c: S.Event)

  /** A run ends where no task is left to go on with: the machine shuts down. */
  ghost predicate LegalEvent(pl: Place, n: nat, k: Kernel, ev: KernelEvent)
    requires S.Sized(k.tasks)
  {
    match ev
    case Step(e) => !e.SwitchTo? && LegalAct(pl, n, k.sys, Other(e))
    case Call(c) =>
      && !k.sys.inUser && S.Turn(k.tasks, c).1.Some?
      && StackBase(pl, k.sys.cur) + CONTEXT_BYTES <= k.sys.cpu.x[SP] <= FrameBase(pl, k.sys.cur)
  }

  function NextKernel(pl: Place, k: Kernel, ev: KernelEvent): (k': Kernel)
    requires S.Sized(k.tasks)
    ensures S.Sized(k'.tasks)
  {
    match ev
    case Step(e) => k.(sys := Next(pl, k.sys, e))
    case Call(c) =>
      var (tasks', r) := S.Turn(k.tasks, c);
      if r.None? then k
      else Kernel(tasks', Sys(S.SwitchCall(pl, k.sys.cpu, k.sys.cur, r.value), r.value, false))
  }

  ghost predicate KernelInv(pl: Place, n: nat, k: Kernel, sh: Shadow) {
    S.SchedInv(k.tasks) && k.tasks.numApp == n && k.tasks.current == k.sys.cur && OutInv(pl, n, k.sys, sh)
  }

  /** Task `t` has yielded: it is ready and another task runs. */
  predicate Waits(k: Kernel, t: nat) {
    S.Sized(k.tasks) && t < k.tasks.numApp && t != k.tasks.current && k.tasks.status[t] == S.Ready
  }

  // ----- one call -----

  /** The machine with the arguments of `switch_task` set. */
  function WithArgs(pl: Place, sys: Sys, next: nat): Sys {
    sys.(cpu := S.CallArgs(sys.cpu, PtrAddr(pl, sys.cur), Load(sys.cpu.mem, PtrAddr(pl, next))))
  }

  lemma ArgsKeepInv(pl: Place, n: nat, sys: Sys, sh: Shadow, next: nat)
    requires OutInv(pl, n, sys, sh) && !sys.inUser
    ensures OutInv(pl, n, WithArgs(pl, sys, next), sh)
    ensures ContextOf(WithArgs(pl, sys, next).cpu.x) == ContextOf(sys.cpu.x)
  {
    hide Parked, FrameHolds, Load, PtrAddr, FrameBase, StackTop, StackBase, ContextOf;
    S.ArgsKeepContext(sys.cpu, PtrAddr(pl, sys.cur), Load(sys.cpu.mem, PtrAddr(pl, next)));
  }

  /** While another task is ready, a call dispatches one where it was switched out, and
      the caller is parked. */
  lemma CallStep(pl: Place, n: nat, k: Kernel, sh: Shadow, c: S.Event) returns (sh': Shadow)
    requires KernelInv(pl, n, k, sh) && LegalEvent(pl, n, k, Call(c))
    requires exists t :: Waits(k, t)
    ensures S.Turn(k.tasks, c).1.Some?
    ensures var next := S.Turn(k.tasks, c).1.value;
            var k' := NextKernel(pl, k, Call(c));
            && next < n && next != k.sys.cur && k'.sys.cur == next && !k'.sys.inUser
            && k'.tasks == S.Turn(k.tasks, c).0
            && KernelInv(pl, n, k', sh')
            && sh' == sh.(kern := sh.kern[k.sys.cur := ContextOf(k.sys.cpu.x)])
            && ContextOf(k'.sys.cpu.x) == sh.kern[next]
  {
    hide Exec, SwitchTask, Parked, FrameHolds, Load, PtrAddr, StackBase, StackTop, FrameBase, ContextOf,
      S.CountFinished, S.Turn, S.CallArgs, S.SwitchCall, Legal, TrapEntry, RestoreTrap, UserView, AnswerFrame,
      AnswerUser, SameUser, PointsTo;
    var t :| Waits(k, t);
    S.SwitchCallIsLegal(pl, n, k.tasks, c, k.sys);
    S.DispatchesAnother(k.tasks, c);
    S.StepMovesCloser(k.tasks, c, t);
    var next := S.Turn(k.tasks, c).1.value;
    ArgsKeepInv(pl, n, k.sys, sh, next);
    OtherStep(pl, n, WithArgs(pl, k.sys, next), sh, SwitchTo(next));
    sh' := sh.(kern := sh.kern[k.sys.cur := ContextOf(k.sys.cpu.x)]);
    assert sh' == NextShadow(WithArgs(pl, k.sys, next), sh, SwitchTo(next));
  }

  /** A task that yields alone is switched to itself, which is a step of the machine like
      any other: its context is pushed and published, and it goes on at the address its
      control block held before, where it was last switched out. */
  lemma SelfCallStep(pl: Place, n: nat, k: Kernel, sh: Shadow, c: S.Event) returns (sh': Shadow)
    requires KernelInv(pl, n, k, sh) && LegalEvent(pl, n, k, Call(c))
    requires S.Turn(k.tasks, c).1 == Some(k.sys.cur)
    ensures c == S.Yield
    ensures LegalAct(pl, n, WithArgs(pl, k.sys, k.sys.cur), Self)
    ensures var k' := NextKernel(pl, k, Call(c));
            && k'.sys == NextAct(pl, WithArgs(pl, k.sys, k.sys.cur), Self)
            && KernelInv(pl, n, k', sh')
            && sh' == sh.(kern := sh.kern[k.sys.cur := ContextOf(k.sys.cpu.x)])
            && k'.sys.cpu.x[SP] == Load(k.sys.cpu.mem, PtrAddr(pl, k.sys.cur)) + 104 == sh.kern[k.sys.cur].sp
            && Load(k'.sys.cpu.mem, PtrAddr(pl, k.sys.cur)) == k.sys.cpu.x[SP] - 104
            && (ContextOf(k'.sys.cpu.x) == ContextOf(k.sys.cpu.x) <==> k.sys.cpu.x[SP] == sh.kern[k.sys.cur].sp)
  {
    hide Exec, SwitchTask, Parked, FrameHolds, Load, PtrAddr, StackBase, StackTop, FrameBase, ContextOf,
      S.CountFinished, S.Turn, S.CallArgs;
    S.SelfSwitchIff(k.tasks, c);
    S.StepIsSafe(k.tasks, c);
    ArgsKeepInv(pl, n, k.sys, sh, k.sys.cur);
    S.ArgsAreSet(k.sys.cpu, PtrAddr(pl, k.sys.cur), Load(k.sys.cpu.mem, PtrAddr(pl, k.sys.cur)));
    SelfEffect(pl, n, WithArgs(pl, k.sys, k.sys.cur), sh);
    SelfStep(pl, n, WithArgs(pl, k.sys, k.sys.cur), sh);
    sh' := sh.(kern := sh.kern[k.sys.cur := ContextOf(k.sys.cpu.x)]);
    assert sh' == ShadowAct(WithArgs(pl, k.sys, k.sys.cur), sh, Self);
  }

  // ----- whole runs -----

  ghost predicate LegalEvents(pl: Place, n: nat, k: Kernel, evs: seq<KernelEvent>)
    requires S.Sized(k.tasks)
    decreases |evs|
  {
    evs == [] || (LegalEvent(pl, n, k, evs[0]) && LegalEvents(pl, n, NextKernel(pl, k, evs[0]), evs[1..]))
  }

  function AfterEvents(pl: Place, k: Kernel, evs: seq<KernelEvent>): (k': Kernel)
    requires S.Sized(k.tasks)
    ensures S.Sized(k'.tasks)
    decreases |evs|
  {
    if evs == [] then k else AfterEvents(pl, NextKernel(pl, k, evs[0]), evs[1..])
  }

  function Calls(evs: seq<KernelEvent>): nat {
    if evs == [] then 0 else (if evs[0].Call? then 1 else 0) + Calls(evs[1..])
  }

  lemma StepKeepsKernel(pl: Place, n: nat, k: Kernel, sh: Shadow, e: Event, t: nat) returns (sh': Shadow)
    requires KernelInv(pl, n, k, sh) && LegalEvent(pl, n, k, Step(e)) && t < n && t != k.sys.cur
    ensures KernelInv(pl, n, NextKernel(pl, k, Step(e)), sh') && NextKernel(pl, k, Step(e)).tasks == k.tasks
    ensures NextKernel(pl, k, Step(e)).sys.cur == k.sys.cur
    ensures sh'.kern[t] == sh.kern[t] && sh'.user[t] == sh.user[t]
  {
    hide Exec, SwitchTask, Parked, FrameHolds, Load, PtrAddr, StackBase, StackTop, FrameBase, ContextOf, TrapEntry,
      RestoreTrap, UserView, AnswerFrame, AnswerUser, SameUser, Legal, PointsTo;
    OtherStep(pl, n, k.sys, sh, e);
    sh' := NextShadow(k.sys, sh, e);
  }

  /** A waiting task is dispatched within its cyclic distance of calls, whatever traps,
      answers, yields and exits of the others happen in between: exactly where it was
      switched out, and with the trap frame it left. */
  lemma {:induction false} DispatchedWithinDistance(pl: Place, n: nat, k: Kernel, sh: Shadow,
                                                    evs: seq<KernelEvent>, t: nat)
    returns (j: nat, sh': Shadow)
    requires KernelInv(pl, n, k, sh) && LegalEvents(pl, n, k, evs) && Waits(k, t)
    requires S.Distance(k.sys.cur, t, n) <= Calls(evs)
    ensures j <= |evs| && Calls(evs[..j]) <= S.Distance(k.sys.cur, t, n)
    ensures var k' := AfterEvents(pl, k, evs[..j]);
            && KernelInv(pl, n, k', sh') && k'.sys.cur == t && !k'.sys.inUser
            && ContextOf(k'.sys.cpu.x) == sh.kern[t] && sh'.user[t] == sh.user[t]
    decreases |evs|
  {
    hide Exec, SwitchTask, Parked, FrameHolds, ContextOf, S.CountFinished, S.Turn, LegalEvent, NextKernel, StackTop,
      FrameBase;
    assert evs != [];
    var ev, k1 := evs[0], NextKernel(pl, k, evs[0]);
    if ev.Step? {
      var sh1 := StepKeepsKernel(pl, n, k, sh, ev.e, t);
      j, sh' := DispatchedWithinDistance(pl, n, k1, sh1, evs[1..], t);
    } else {
      var sh1 := CallStep(pl, n, k, sh, ev.c);
      S.StepMovesCloser(k.tasks, ev.c, t);
      if k1.sys.cur == t {
        j, sh' := 0, sh1;
      } else {
        j, sh' := DispatchedWithinDistance(pl, n, k1, sh1, evs[1..], t);
      }
    }
    j := j + 1;
    assert evs[..j][0] == ev && evs[..j][1..] == evs[1..][..j - 1];
  }

  // ----- every run -----

  /** What the tasks are entitled to after an event. */
  function ShadowEvent(k: Kernel, sh: Shadow, ev: KernelEvent): Shadow
    requires k.sys.cur < |sh.kern| && k.sys.cur < |sh.user|
  {
    match ev
    case Step(e) => NextShadow(k.sys, sh, e)
    case Call(c) => sh.(kern := sh.kern[k.sys.cur := ContextOf(k.sys.cpu.x)])
  }

  /** What the tasks observe. A task dispatched by a call has the context of its last
      switch-out; one dispatched to itself has its stack pointer, and the whole of its
      present context exactly if it left from the same depth. */
  ghost predicate FaithfulEvent(pl: Place, n: nat, k: Kernel, sh: Shadow, ev: KernelEvent)
    requires S.Sized(k.tasks) && |sh.kern| == n && |sh.user| == n && k.sys.cur < n
  {
    var k' := NextKernel(pl, k, ev);
    match ev
    case Step(e) => Faithful(pl, n, k.sys, sh, e)
    case Call(c) =>
      && k'.sys.cur < n && k'.sys.cpu.x[SP] == sh.kern[k'.sys.cur].sp
      && (k'.sys.cur != k.sys.cur ==> ContextOf(k'.sys.cpu.x) == sh.kern[k'.sys.cur])
      && (k'.sys.cur == k.sys.cur ==>
            (ContextOf(k'.sys.cpu.x) == ContextOf(k.sys.cpu.x) <==> k.sys.cpu.x[SP] == sh.kern[k.sys.cur].sp))
  }

  lemma DispatchedWasReady(s: S.Tasks, c: S.Event)
    requires S.SchedInv(s) && S.Turn(s, c).1.Some? && S.Turn(s, c).1.value != s.current
    ensures S.Turn(s, c).1.value < s.numApp && s.status[S.Turn(s, c).1.value] == S.Ready
  {
    hide S.FindNext;
    S.FindNextIsNearest(S.Mark(s, if c == S.Yield then S.Ready else S.Finished));
  }

  lemma EventIsFaithful(pl: Place, n: nat, k: Kernel, sh: Shadow, ev: KernelEvent)
    requires KernelInv(pl, n, k, sh) && LegalEvent(pl, n, k, ev)
    ensures KernelInv(pl, n, NextKernel(pl, k, ev), ShadowEvent(k, sh, ev)) && FaithfulEvent(pl, n, k, sh, ev)
  {
    hide Exec, SwitchTask, Parked, FrameHolds, Load, PtrAddr, StackBase, StackTop, FrameBase, ContextOf, TrapEntry,
      RestoreTrap, UserView, AnswerFrame, AnswerUser, SameUser, Legal, PointsTo, S.Turn, S.CountFinished, S.SwitchCall;
    match ev
    case Step(e) =>
      OtherStep(pl, n, k.sys, sh, e);
    case Call(c) =>
      if S.Turn(k.tasks, c).1.value == k.sys.cur {
        var sh' := SelfCallStep(pl, n, k, sh, c);
      } else {
        DispatchedWasReady(k.tasks, c);
        assert Waits(k, S.Turn(k.tasks, c).1.value);
        var sh' := CallStep(pl, n, k, sh, c);
        ContextSp(NextKernel(pl, k, Call(c)).sys.cpu.x);
      }
  }

  lemma ContextSp(x: Regs)
    ensures ContextOf(x).sp == x[SP]
  {
  }

  ghost predicate FaithfulEvents(pl: Place, n: nat, k: Kernel, sh: Shadow, evs: seq<KernelEvent>)
    requires S.Sized(k.tasks)
    decreases |evs|
  {
    && |sh.kern| == n && |sh.user| == n && k.sys.cur < n
    && (evs != [] ==>
          && FaithfulEvent(pl, n, k, sh, evs[0])
          && FaithfulEvents(pl, n, NextKernel(pl, k, evs[0]), ShadowEvent(k, sh, evs[0]), evs[1..]))
  }

  /** Over every run of scheduler and machine, tasks that yield alone included, every
      task finds its user registers, and its context where it was last switched out. */
  lemma {:induction false} KernelIsFaithful(pl: Place, n: nat, k: Kernel, sh: Shadow, evs: seq<KernelEvent>)
    requires KernelInv(pl, n, k, sh) && LegalEvents(pl, n, k, evs)
    ensures FaithfulEvents(pl, n, k, sh, evs)
    decreases |evs|
  {
    hide FaithfulEvent, LegalEvent, NextKernel, ShadowEvent, Parked, FrameHolds, StackTop, FrameBase, PointsTo;
    if evs != [] {
      EventIsFaithful(pl, n, k, sh, evs[0]);
      KernelIsFaithful(pl, n, NextKernel(pl, k, evs[0]), ShadowEvent(k, sh, evs[0]), evs[1..]);
    }
  }

  // ----- a yield -----

  lemma YieldedIsReady(s: S.Tasks)
    requires S.SchedInv(s) && S.Turn(s, S.Yield).1.Some? && S.Turn(s, S.Yield).1.value != s.current
    ensures S.Turn(s, S.Yield).0.status[s.current] == S.Ready
  {
    hide S.FindNext;
  }

  ghost predicate KernelCodeOnly(evs: seq<KernelEvent>) {
    forall ev :: ev in evs ==> ev.Step? && ev.e.KernelCode?
  }

  /** Code of the handler changes neither the shadow nor the task that runs. */
  lemma {:induction false} HandlerKeepsKernel(pl: Place, n: nat, k: Kernel, sh: Shadow, evs: seq<KernelEvent>)
    requires KernelInv(pl, n, k, sh) && !k.sys.inUser && LegalEvents(pl, n, k, evs) && KernelCodeOnly(evs)
    ensures var k' := AfterEvents(pl, k, evs);
            KernelInv(pl, n, k', sh) && !k'.sys.inUser && k'.sys.cur == k.sys.cur && k'.tasks == k.tasks
    decreases |evs|
  {
    hide Exec, SwitchTask, Parked, FrameHolds, TrapEntry, RestoreTrap, AnswerFrame, AnswerUser, StackTop, FrameBase,
      ContextOf, UserView, SameUser;
    if evs != [] {
      assert evs[0] in evs;
      OtherStep(pl, n, k.sys, sh, evs[0].e);
      HandlerKeepsKernel(pl, n, NextKernel(pl, k, evs[0]), sh, evs[1..]);
    }
  }

  /** The machine when a task that trapped calls for a yield, and after that call. */
  function Yielding(pl: Place, k: Kernel, handler: seq<KernelEvent>): (k': Kernel)
    requires S.Sized(k.tasks)
    ensures S.Sized(k'.tasks)
  {
    AfterEvents(pl, NextKernel(pl, k, Step(TrapIn)), handler)
  }

  ghost predicate LegalYield(pl: Place, n: nat, k: Kernel, handler: seq<KernelEvent>)
    requires S.Sized(k.tasks)
  {
    && k.sys.inUser && KernelCodeOnly(handler)
    && LegalEvents(pl, n, NextKernel(pl, k, Step(TrapIn)), handler)
    && LegalEvent(pl, n, Yielding(pl, k, handler), Call(S.Yield))
    && exists t :: Waits(k, t)
  }

  /** Up to the first switch of a yield: the caller waits, parked with the registers of
      its trap. */
  lemma YieldParks(pl: Place, n: nat, k: Kernel, sh: Shadow, handler: seq<KernelEvent>) returns (sh': Shadow)
    requires KernelInv(pl, n, k, sh) && LegalYield(pl, n, k, handler)
    ensures var k2 := Yielding(pl, k, handler);
            var k3 := NextKernel(pl, k2, Call(S.Yield));
            && KernelInv(pl, n, k3, sh') && Waits(k3, k.sys.cur)
            && sh'.kern[k.sys.cur] == ContextOf(k2.sys.cpu.x) && sh'.user[k.sys.cur] == UserView(k.sys.cpu)
  {
    hide Exec, SwitchTask, Parked, FrameHolds, Load, PtrAddr, StackBase, StackTop, FrameBase, ContextOf, TrapEntry,
      RestoreTrap, UserView, AnswerFrame, AnswerUser, SameUser, S.CountFinished, S.Turn, LegalEvents, AfterEvents,
      KernelCodeOnly;
    var k1, sh1 := NextKernel(pl, k, Step(TrapIn)), NextShadow(k.sys, sh, TrapIn);
    OtherStep(pl, n, k.sys, sh, TrapIn);
    HandlerKeepsKernel(pl, n, k1, sh1, handler);
    var k2 := Yielding(pl, k, handler);
    var t :| Waits(k, t);
    assert Waits(k2, t);
    sh' := CallStep(pl, n, k2, sh1, S.Yield);
    YieldedIsReady(k2.tasks);
  }

  /** A task that yields while another one is ready is dispatched again within as many
      calls as its cyclic distance from the task that runs after the yield: in the
      handler, where it called, with the registers of its trap in its frame. */
  lemma YieldComesBack(pl: Place, n: nat, k: Kernel, sh: Shadow, handler: seq<KernelEvent>, k2: Kernel, k3: Kernel,
                       evs: seq<KernelEvent>)
    returns (j: nat, sh': Shadow)
    requires KernelInv(pl, n, k, sh) && LegalYield(pl, n, k, handler)
    requires k2 == Yielding(pl, k, handler) && k3 == NextKernel(pl, k2, Call(S.Yield))
    requires LegalEvents(pl, n, k3, evs) && k3.sys.cur < n && S.Distance(k3.sys.cur, k.sys.cur, n) <= Calls(evs)
    ensures j <= |evs| && Calls(evs[..j]) <= S.Distance(k3.sys.cur, k.sys.cur, n)
    ensures var k' := AfterEvents(pl, k3, evs[..j]);
            && KernelInv(pl, n, k', sh') && k'.sys.cur == k.sys.cur && !k'.sys.inUser
            && ContextOf(k'.sys.cpu.x) == ContextOf(k2.sys.cpu.x)
            && sh'.user[k.sys.cur] == UserView(k.sys.cpu)
  {
    hide LegalYield, LegalEvents, Yielding, NextKernel, AfterEvents, Calls, ContextOf, UserView, Parked, FrameHolds,
      StackTop, FrameBase;
    var sh3 := YieldParks(pl, n, k, sh, handler);
    j, sh' := DispatchedWithinDistance(pl, n, k3, sh3, evs, k.sys.cur);
  }

  /** From there, through the rest of the handler, it leaves the kernel with the
      registers it is entitled to: after a yield those of the trap, at the same ecall. */
  lemma BackAtEcall(pl: Place, n: nat, k: Kernel, sh: Shadow, handler: seq<KernelEvent>)
    requires KernelInv(pl, n, k, sh) && !k.sys.inUser && LegalEvents(pl, n, k, handler) && KernelCodeOnly(handler)
    requires LegalEvent(pl, n, AfterEvents(pl, k, handler), Step(TrapOut))
    ensures var k' := NextKernel(pl, AfterEvents(pl, k, handler), Step(TrapOut));
            k'.sys.inUser && k'.sys.cur == k.sys.cur && SameUser(UserView(k'.sys.cpu), sh.user[k.sys.cur])
  {
    hide Exec, TrapEntry, RestoreTrap, SwitchTask, LegalEvents, AfterEvents, KernelCodeOnly, Parked, FrameHolds,
      StackTop, FrameBase, SameUser, Legal, UserView;
    HandlerKeepsKernel(pl, n, k, sh, handler);
    TrapOutStep(pl, n, AfterEvents(pl, k, handler).sys, sh);
  }

  /** After boot the invariant of these runs holds, with task 0 running. */
  lemma BootedKernel(pl: Place, n: nat, s: Cpu, mem: Mem, sstatus: nat)
    requires ValidPlace(pl) && 0 < n <= MAX_APP_NUM
    requires s.mem == InitApps(pl, mem, n, sstatus) && BootReady(pl, n, s)
    ensures KernelInv(pl, n, Kernel(S.Initial(n), Booted(s)), InitialShadow(pl, n, sstatus))
    ensures forall t :: 0 < t < n ==> Waits(Kernel(S.Initial(n), Booted(s)), t)
  {
    hide Exec, SwitchTask, InitApps, BootReady, Load, Inv, PointsTo, S.CountFinished, LegalAct, FaithfulActs,
      InitialContext, InitialUser, ValidPlace, OutInv, FaithfulAct, NextAct, S.FindFrom;
    BootedActsAreFaithful(pl, n, s, mem, sstatus, []);
    S.InitialInv(n);
  }
}
