/** The round-robin task manager of 02-multi-program-kern/kernel/src/task.rs. */
module Scheduler {
  import opened Words
  import opened Machine
  import KR = KernelRun
  import TS = TaskSwitch

  datatype TaskStatus = Uninitialized | Ready | Running | Finished

  datatype Tasks = Tasks(status: seq<TaskStatus>, current: nat, numApp: nat)

  predicate Sized(s: Tasks) {
    |s.status| == KR.MAX_APP_NUM && s.numApp <= KR.MAX_APP_NUM && s.current < KR.MAX_APP_NUM
  }

  /** The search of `find_next_task` over current+k, current+k+1, .., current+num_app,
      each taken modulo num_app. */
  function FindFrom(s: Tasks, k: nat): (r: Option<nat>)
    requires Sized(s)
    decreases s.numApp - k
  {
    if k > s.numApp || s.numApp == 0 then None
    else
      var id := (s.current + k) % s.numApp;
      if s.status[id] == Ready then Some(id) else FindFrom(s, k + 1)
  }

  function FindNext(s: Tasks): Option<nat>
    requires Sized(s)
  {
    FindFrom(s, 1)
  }

  function Mark(s: Tasks, st: TaskStatus): Tasks
    requires Sized(s)
  {
    s.(status := s.status[s.current := st])
  }

  /** `None`: all applications completed, the machine shuts down. */
  function RunNext(s: Tasks): (Tasks, Option<nat>)
    requires Sized(s)
  {
    match FindNext(s)
    case None => (s, None)
    case Some(next) =>
      FindNextInRange(s, 1);
      (Tasks(s.status[next := Running], next, s.numApp), Some(next))
  }

  datatype Event = Yield | Exit

  function Turn(s: Tasks, e: Event): (r: (Tasks, Option<nat>))
    requires Sized(s)
    ensures Sized(r.0)
  {
    FindNextInRange(Mark(s, if e == Yield then Ready else Finished), 1);
    RunNext(Mark(s, if e == Yield then Ready else Finished))
  }

  lemma {:induction false} FindNextInRange(s: Tasks, k: nat)
    requires Sized(s)
    ensures FindFrom(s, k).Some? ==> FindFrom(s, k).value < s.numApp
    decreases s.numApp - k
  {
    if k <= s.numApp && s.numApp != 0 {
      FindNextInRange(s, k + 1);
    }
  }

  /** `num_app` ready tasks, of which `run_first_task` starts the first. */
  function Initial(n: nat): Tasks
    requires 1 <= n <= KR.MAX_APP_NUM
  {
    Tasks(seq(KR.MAX_APP_NUM, t => if t == 0 then Running else if t < n then Ready else Uninitialized), 0, n)
  }

  // ----- the cyclic order -----

  /** Steps from `c` forward to `t` on the circle of `n` tasks, between 1 and n. */
  function Distance(c: nat, t: nat, n: nat): nat
    requires c < n && t < n
  {
    if t > c then t - c else t + n - c
  }

  lemma CyclicId(c: nat, k: nat, n: nat)
    requires c < n && 1 <= k <= n
    ensures (c + k) % n == if c + k < n then c + k else c + k - n
  {
  }

  lemma IdAtDistance(c: nat, k: nat, n: nat)
    requires c < n && 1 <= k <= n
    ensures (c + k) % n < n && Distance(c, (c + k) % n, n) == k
  {
  }

  /** The search returns the ready task nearest in cyclic order, if there is one. */
  lemma {:induction false} FindFromIsNearest(s: Tasks, k: nat)
    requires Sized(s) && s.current < s.numApp && 1 <= k
    ensures match FindFrom(s, k)
            case Some(t) =>
              && t < s.numApp && s.status[t] == Ready && k <= Distance(s.current, t, s.numApp)
              && forall u :: 0 <= u < s.numApp && s.status[u] == Ready && k <= Distance(s.current, u, s.numApp) ==>
                   Distance(s.current, t, s.numApp) <= Distance(s.current, u, s.numApp)
            case None =>
              forall u :: 0 <= u < s.numApp && k <= Distance(s.current, u, s.numApp) ==> s.status[u] != Ready
    decreases s.numApp + 1 - k
  {
    if k <= s.numApp {
      IdAtDistance(s.current, k, s.numApp);
      FindFromIsNearest(s, k + 1);
      forall u | 0 <= u < s.numApp && Distance(s.current, u, s.numApp) == k
        ensures u == (s.current + k) % s.numApp
      {
        CyclicId(s.current, k, s.numApp);
      }
    }
  }

  lemma FindNextIsNearest(s: Tasks)
    requires Sized(s) && s.current < s.numApp
    ensures match FindNext(s)
            case Some(t) =>
              && t < s.numApp && s.status[t] == Ready
              && forall u :: 0 <= u < s.numApp && s.status[u] == Ready ==>
                   Distance(s.current, t, s.numApp) <= Distance(s.current, u, s.numApp)
            case None =>
              forall u :: 0 <= u < s.numApp ==> s.status[u] != Ready
  {
    FindFromIsNearest(s, 1);
  }

  // ----- safety -----

  /** Exactly one task runs, the current one; slots past the loaded applications
      are never touched. */
  ghost predicate SchedInv(s: Tasks) {
    && Sized(s) && s.current < s.numApp
    && s.status[s.current] == Running
    && (forall t :: 0 <= t < s.numApp && t != s.current ==> s.status[t] == Ready || s.status[t] == Finished)
    && (forall t :: s.numApp <= t < KR.MAX_APP_NUM ==> s.status[t] == Uninitialized)
  }

  function CountFinished(st: seq<TaskStatus>): nat {
    if st == [] then 0 else (if st[0] == Finished then 1 else 0) + CountFinished(st[1..])
  }

  lemma {:induction false} CountUpdate(st: seq<TaskStatus>, i: nat, v: TaskStatus)
    requires i < |st|
    ensures CountFinished(st[i := v]) + (if st[i] == Finished then 1 else 0)
         == CountFinished(st) + (if v == Finished then 1 else 0)
  {
    if i == 0 {
      assert st[0 := v][1..] == st[1..];
    } else {
      assert st[i := v][1..] == st[1..][i - 1 := v];
      CountUpdate(st[1..], i - 1, v);
    }
  }

  lemma {:induction false} CountBounds(st: seq<TaskStatus>)
    ensures CountFinished(st) <= |st|
    ensures CountFinished(st) == |st| <==> forall i :: 0 <= i < |st| ==> st[i] == Finished
  {
    if st != [] {
      CountBounds(st[1..]);
      assert forall i :: 0 < i < |st| ==> st[i] == st[1..][i - 1];
    }
  }

  lemma {:induction false} CountPrefix(st: seq<TaskStatus>, n: nat)
    requires n <= |st| && forall i :: n <= i < |st| ==> st[i] != Finished
    ensures CountFinished(st) == CountFinished(st[..n])
  {
    if st != [] {
      if n == 0 {
        CountPrefix(st[1..], 0);
        assert st[1..][..0] == st[..0];
      } else {
        CountPrefix(st[1..], n - 1);
        assert st[1..][..n - 1] == st[..n][1..];
      }
    }
  }

  /** All applications have exited exactly when the count reaches num_app. */
  lemma AllFinishedIff(s: Tasks)
    requires Sized(s) && forall t :: s.numApp <= t < KR.MAX_APP_NUM ==> s.status[t] == Uninitialized
    ensures CountFinished(s.status) <= s.numApp
    ensures CountFinished(s.status) == s.numApp <==> forall t :: 0 <= t < s.numApp ==> s.status[t] == Finished
  {
    CountPrefix(s.status, s.numApp);
    CountBounds(s.status[..s.numApp]);
    var pre := s.status[..s.numApp];
    assert forall t :: 0 <= t < s.numApp ==> pre[t] == s.status[t];
  }

  /** One yield or exit: the machine shuts down exactly on the exit that makes
      the number of exits num_app, and otherwise the invariant is kept, nobody
      leaves Finished, and the number of finished tasks counts the exits. */
  lemma StepIsSafe(s: Tasks, e: Event)
    requires SchedInv(s)
    ensures var (s', r) := Turn(s, e);
            && (r.None? <==> e == Exit && CountFinished(s.status) + 1 == s.numApp)
            && (r.Some? ==> SchedInv(s') && s'.current == r.value)
            && s'.numApp == s.numApp
            && CountFinished(s'.status) == CountFinished(s.status) + (if e == Exit then 1 else 0)
            && (forall t :: 0 <= t < KR.MAX_APP_NUM && s.status[t] == Finished ==> s'.status[t] == Finished)
  {
    hide CountFinished, FindNext;
    var m := Mark(s, if e == Yield then Ready else Finished);
    CountUpdate(s.status, s.current, m.status[s.current]);
    FindNextIsNearest(m);
    assert e == Yield ==> m.status[s.current] == Ready;
    AllFinishedIff(m);
    var (s', r) := Turn(s, e);
    if r.Some? {
      CountUpdate(m.status, r.value, Running);
      assert m.status[r.value] == Ready;
    } else {
      assert forall t :: 0 <= t < m.numApp ==> m.status[t] != Ready;
    }
  }

  lemma InitialInv(n: nat)
    requires 1 <= n <= KR.MAX_APP_NUM
    ensures SchedInv(Initial(n)) && CountFinished(Initial(n).status) == 0
  {
    NoneFinished(Initial(n).status);
  }

  lemma {:induction false} NoneFinished(st: seq<TaskStatus>)
    requires forall i :: 0 <= i < |st| ==> st[i] != Finished
    ensures CountFinished(st) == 0
  {
    if st != [] {
      NoneFinished(st[1..]);
    }
  }

  function Exits(es: seq<Event>): nat {
    if es == [] then 0 else (if es[0] == Exit then 1 else 0) + Exits(es[1..])
  }

  /** State after a run of events, or `None` once the machine has shut down. */
  function Run(s: Tasks, es: seq<Event>): Option<Tasks>
    requires Sized(s)
    decreases |es|
  {
    if es == [] then Some(s)
    else
      var (s1, r) := Turn(s, es[0]);
      if r.None? then None else Run(s1, es[1..])
  }

  /** Over every run, the machine is up exactly while fewer than num_app exits
      have happened, whatever the number of yields, and the invariant holds. */
  lemma {:induction false} RunIsSafe(s: Tasks, es: seq<Event>)
    requires SchedInv(s)
    ensures Run(s, es).Some? <==> CountFinished(s.status) + Exits(es) < s.numApp
    ensures Run(s, es).Some? ==>
              var s' := Run(s, es).value;
              && SchedInv(s') && s'.numApp == s.numApp
              && CountFinished(s'.status) == CountFinished(s.status) + Exits(es)
              && forall t :: 0 <= t < KR.MAX_APP_NUM && s.status[t] == Finished ==> s'.status[t] == Finished
    decreases |es|
  {
    hide CountFinished, Turn;
    if es != [] {
      StepIsSafe(s, es[0]);
      var (s1, r) := Turn(s, es[0]);
      if r.Some? {
        RunIsSafe(s1, es[1..]);
      }
    } else {
      AllFinishedIff(s);
      assert s.status[s.current] == Running;
    }
  }

  // ----- bounded waiting -----

  /** Within the first `d` events of the run, task `t` is dispatched. */
  ghost predicate DispatchedWithin(s: Tasks, t: nat, es: seq<Event>, d: nat)
    requires Sized(s)
    decreases d
  {
    d > 0 && es != [] &&
    var (s1, r) := Turn(s, es[0]);
    r.Some? && (r.value == t || DispatchedWithin(s1, t, es[1..], d - 1))
  }

  lemma StepMovesCloser(s: Tasks, e: Event, t: nat)
    requires SchedInv(s) && t < s.numApp && s.status[t] == Ready
    ensures var (s', r) := Turn(s, e);
            && r.Some? && SchedInv(s') && s'.numApp == s.numApp && s'.current == r.value
            && (r.value != t ==> s'.status[t] == Ready
                                 && Distance(s'.current, t, s.numApp) < Distance(s.current, t, s.numApp))
  {
    hide FindNext, CountFinished;
    var m := Mark(s, if e == Yield then Ready else Finished);
    FindNextIsNearest(m);
    assert m.status[t] == Ready;
    StepIsSafe(s, e);
  }

  /** A ready task is dispatched within as many calls of `run_next_task` as its
      cyclic distance from the current task, whatever mix of yields and exits
      the other tasks perform. */
  lemma {:induction false} BoundedWaiting(s: Tasks, t: nat, es: seq<Event>, d: nat)
    requires SchedInv(s) && t < s.numApp && s.status[t] == Ready
    requires Distance(s.current, t, s.numApp) <= d <= |es|
    ensures DispatchedWithin(s, t, es, d)
    decreases d
  {
    hide Turn;
    StepMovesCloser(s, es[0], t);
    var (s1, r) := Turn(s, es[0]);
    if r.value != t {
      BoundedWaiting(s1, t, es[1..], d - 1);
    }
  }

  /** A task switches to itself exactly when it yields while no other task is ready. */
  lemma SelfSwitchIff(s: Tasks, e: Event)
    requires SchedInv(s)
    ensures Turn(s, e).1 == Some(s.current) <==>
            e == Yield && forall t :: 0 <= t < s.numApp && t != s.current ==> s.status[t] != Ready
  {
    hide FindNext;
    var m := Mark(s, if e == Yield then Ready else Finished);
    FindNextIsNearest(m);
    assert m.status[s.current] == if e == Yield then Ready else Finished;
    forall t | 0 <= t < s.numApp && t != s.current
      ensures m.status[t] == s.status[t]
      ensures Distance(s.current, t, s.numApp) < Distance(s.current, s.current, s.numApp)
    {
    }
  }

  // ----- in place -----

  class TaskManager {
    const numApp: nat
    const tasks: array<TaskStatus>
    var currentTask: nat

    function Value(): Tasks
      reads this, tasks
    {
      Tasks(tasks[..], currentTask, numApp)
    }

    constructor (n: nat)
      requires n <= KR.MAX_APP_NUM
      ensures fresh(tasks)
      ensures tasks.Length == KR.MAX_APP_NUM && currentTask == 0 && numApp == n
      ensures forall t :: 0 <= t < KR.MAX_APP_NUM ==> tasks[t] == if t < n then Ready else Uninitialized
    {
      numApp, currentTask := n, 0;
      tasks := new TaskStatus[KR.MAX_APP_NUM](i => Uninitialized);
      new;
      for i := 0 to n
        invariant currentTask == 0
        invariant forall t :: 0 <= t < KR.MAX_APP_NUM ==> tasks[t] == if t < i then Ready else Uninitialized
      {
        tasks[i] := Ready;
      }
    }

    /** `run_first_task`; `unused` is the address of the dummy word on the boot stack. */
    method RunFirstTask(hart: Hart, pl: KR.Place, unused: nat)
      requires 1 <= numApp <= KR.MAX_APP_NUM == tasks.Length && currentTask == 0
      requires forall t :: 0 <= t < KR.MAX_APP_NUM ==> tasks[t] == if t < numApp then Ready else Uninitialized
      modifies tasks, hart
      ensures Value() == Initial(numApp)
      ensures hart.cpu == Exec(CallArgs(old(hart.cpu), unused, Load(old(hart.cpu.mem), KR.PtrAddr(pl, 0))),
                               TS.SwitchTask())
    {
      hide Exec, SetReg, Load, TS.SwitchTask, KR.PtrAddr;
      tasks[0] := Running;
      assert Value().status == Initial(numApp).status;
      hart.cpu := CallArgs(hart.cpu, unused, Load(hart.cpu.mem, KR.PtrAddr(pl, 0)));
      hart.Execute(TS.SwitchTask());
    }

    method FindNextTask() returns (r: Option<nat>)
      requires Sized(Value())
      ensures r == FindNext(Value())
    {
      var k := 1;
      while numApp > 0 && k <= numApp
        invariant 1 <= k && FindFrom(Value(), k) == FindNext(Value())
        decreases numApp + 1 - k
      {
        var id := (currentTask + k) % numApp;
        if tasks[id] == Ready {
          return Some(id);
        }
        k := k + 1;
      }
      r := None;
    }

    /** `run_next_task`: statuses first, then the pointers are read, then the
        switch; `None` is the shutdown branch. */
    method RunNextTask(hart: Hart, pl: KR.Place) returns (r: Option<nat>)
      requires Sized(Value())
      modifies this, tasks, hart
      ensures (Value(), r) == RunNext(old(Value()))
      ensures hart.cpu == if r.None? then old(hart.cpu)
                          else SwitchCall(pl, old(hart.cpu), old(currentTask), r.value)
    {
      hide Exec, SetReg, Load, TS.SwitchTask, KR.PtrAddr;
      r := FindNextTask();
      if r.Some? {
        FindNextInRange(Value(), 1);
        var next, current := r.value, currentTask;
        tasks[next] := Running;
        currentTask := next;
        var nextCtx := Load(hart.cpu.mem, KR.PtrAddr(pl, next));
        hart.cpu := CallArgs(hart.cpu, KR.PtrAddr(pl, current), nextCtx);
        hart.Execute(TS.SwitchTask());
      }
    }

    method SuspendCurrentAndRunNext(hart: Hart, pl: KR.Place) returns (r: Option<nat>)
      requires Sized(Value())
      modifies this, tasks, hart
      ensures (Value(), r) == Turn(old(Value()), Yield)
      ensures hart.cpu == if r.None? then old(hart.cpu)
                          else SwitchCall(pl, old(hart.cpu), old(currentTask), r.value)
    {
      tasks[currentTask] := Ready;
      assert Value() == Mark(old(Value()), Ready);
      r := RunNextTask(hart, pl);
    }

    method ExitCurrentAndRunNext(hart: Hart, pl: KR.Place) returns (r: Option<nat>)
      requires Sized(Value())
      modifies this, tasks, hart
      ensures (Value(), r) == Turn(old(Value()), Exit)
      ensures hart.cpu == if r.None? then old(hart.cpu)
                          else SwitchCall(pl, old(hart.cpu), old(currentTask), r.value)
    {
      tasks[currentTask] := Finished;
      assert Value() == Mark(old(Value()), Finished);
      r := RunNextTask(hart, pl);
    }
  }

  function CallArgs(s: Cpu, a0: nat, a1: nat): Cpu {
    s.(x := SetReg(SetReg(s.x, A0, a0), A1, a1))
  }

  /** The machine after `switch_task(&tasks[cur].task_cx_ptr, tasks[next].task_cx_ptr)`. */
  function SwitchCall(pl: KR.Place, s: Cpu, cur: nat, next: nat): Cpu {
    Exec(CallArgs(s, KR.PtrAddr(pl, cur), Load(s.mem, KR.PtrAddr(pl, next))), TS.SwitchTask())
  }

  /** Stack and pointer word of the calling task fit a switch to the context whose
      address `next` has in its control block. */
  ghost predicate CallReady(pl: KR.Place, s: Cpu, cur: nat, next: nat) {
    && TS.CONTEXT_BYTES <= s.x[SP] < WORD && KR.PtrAddr(pl, cur) < WORD
    && !(s.x[SP] - TS.CONTEXT_BYTES <= KR.PtrAddr(pl, cur) < s.x[SP])
    && Load(s.mem, KR.PtrAddr(pl, next)) + TS.CONTEXT_BYTES < WORD
  }

  /** What `run_next_task` does to the machine, also when a task is switched to itself:
      the caller's context is pushed and its address stored in the caller's control
      block, and the machine goes on with the context at the address that the next
      task's control block held before. */
  lemma SwitchCallEffect(pl: KR.Place, s: Cpu, cur: nat, next: nat)
    requires CallReady(pl, s, cur, next)
    ensures var s' := SwitchCall(pl, s, cur, next);
            var b := s.x[SP] - 104;
            && Load(s'.mem, KR.PtrAddr(pl, cur)) == b
            && TS.ContextHolds(s'.mem, b, TS.ContextOf(s.x))
            && s'.x[SP] == Load(s.mem, KR.PtrAddr(pl, next)) + 104
            && TS.ContextHolds(s'.mem, Load(s.mem, KR.PtrAddr(pl, next)), TS.ContextOf(s'.x))
            && (forall a: nat :: a != KR.PtrAddr(pl, cur) && !(b <= a < s.x[SP]) ==> Load(s'.mem, a) == Load(s.mem, a))
            && s'.sscratch == s.sscratch
  {
    hide Exec, TS.SwitchTask, Load, KR.PtrAddr, CallArgs, TS.ContextHolds, TS.ContextOf;
    var args := CallArgs(s, KR.PtrAddr(pl, cur), Load(s.mem, KR.PtrAddr(pl, next)));
    ArgsAreSet(s, KR.PtrAddr(pl, cur), Load(s.mem, KR.PtrAddr(pl, next)));
    ArgsKeepContext(s, KR.PtrAddr(pl, cur), Load(s.mem, KR.PtrAddr(pl, next)));
    TS.SwitchEffect(args);
    HeldSp(Exec(args, TS.SwitchTask()).mem, args.x[A1], Exec(args, TS.SwitchTask()).x);
  }

  lemma HeldSp(mem: Mem, b: nat, x: Regs)
    requires TS.ContextHolds(mem, b, TS.ContextOf(x))
    ensures x[SP] == b + 104
  {
  }

  lemma ArgsKeepContext(s: Cpu, a0: nat, a1: nat)
    ensures TS.ContextOf(CallArgs(s, a0, a1).x) == TS.ContextOf(s.x) && CallArgs(s, a0, a1).sscratch == s.sscratch
  {
    assert forall i: nat :: i < 13 ==> TS.SavedReg(i) != A0 && TS.SavedReg(i) != A1;
  }

  /** While another task is ready, a turn of a running task dispatches another one. */
  lemma DispatchesAnother(s: Tasks, e: Event)
    requires SchedInv(s) && exists t :: 0 <= t < s.numApp && t != s.current && s.status[t] == Ready
    ensures Turn(s, e).1.Some?
    ensures Turn(s, e).1.value < s.numApp && Turn(s, e).1.value != s.current
  {
    hide Turn, CountFinished;
    SelfSwitchIff(s, e);
    var t :| 0 <= t < s.numApp && t != s.current && s.status[t] == Ready;
    StepMovesCloser(s, e, t);
  }

  lemma SwitchIsLegal(pl: KR.Place, n: nat, sys: KR.Sys, next: nat)
    requires !sys.inUser && next < n && next != sys.cur
    requires KR.StackBase(pl, sys.cur) + TS.CONTEXT_BYTES <= sys.cpu.x[SP] <= KR.FrameBase(pl, sys.cur)
    ensures var args := CallArgs(sys.cpu, KR.PtrAddr(pl, sys.cur), Load(sys.cpu.mem, KR.PtrAddr(pl, next)));
            && KR.Legal(pl, n, sys.(cpu := args), KR.SwitchTo(next))
            && KR.Next(pl, sys.(cpu := args), KR.SwitchTo(next)).cpu == SwitchCall(pl, sys.cpu, sys.cur, next)
  {
    hide Exec, TS.SwitchTask, Load, KR.PtrAddr, KR.StackBase, KR.FrameBase, CallArgs;
    ArgsAreSet(sys.cpu, KR.PtrAddr(pl, sys.cur), Load(sys.cpu.mem, KR.PtrAddr(pl, next)));
  }

  /** The scheduler's switches are the legal ones of the kernel machine as long as
      another task is ready and the stack pointer is inside the task's stack. */
  lemma SwitchCallIsLegal(pl: KR.Place, n: nat, s: Tasks, e: Event, sys: KR.Sys)
    requires SchedInv(s) && s.numApp == n && sys.cur == s.current && !sys.inUser
    requires exists t :: 0 <= t < n && t != s.current && s.status[t] == Ready
    requires KR.StackBase(pl, s.current) + TS.CONTEXT_BYTES <= sys.cpu.x[SP] <= KR.FrameBase(pl, s.current)
    ensures Turn(s, e).1.Some?
    ensures var next := Turn(s, e).1.value;
            var args := CallArgs(sys.cpu, KR.PtrAddr(pl, s.current), Load(sys.cpu.mem, KR.PtrAddr(pl, next)));
            && KR.Legal(pl, n, sys.(cpu := args), KR.SwitchTo(next))
            && KR.Next(pl, sys.(cpu := args), KR.SwitchTo(next)).cpu == SwitchCall(pl, sys.cpu, s.current, next)
  {
    hide Exec, TS.SwitchTask, Load, KR.PtrAddr, KR.StackBase, KR.FrameBase, KR.Legal, KR.Next, Turn, CountFinished,
      CallArgs, SwitchCall;
    DispatchesAnother(s, e);
    SwitchIsLegal(pl, n, sys, Turn(s, e).1.value);
  }

  lemma ArgsAreSet(s: Cpu, a0: nat, a1: nat)
    ensures var s' := CallArgs(s, a0, a1);
            s'.x[A0] == a0 && s'.x[A1] == a1 && s'.x[SP] == s.x[SP] && s'.mem == s.mem
  {
  }
}
