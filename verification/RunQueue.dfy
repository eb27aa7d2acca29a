/** The user-space async executor of 02a-complex-ctx-kern/user/src: a round-robin
    queue of tasks with a sleeping flag, and the loop that drives the main future. */
module RunQueue {
  import opened Words

  // ----- the queue as a value -----

  datatype Entry = Entry(id: nat, sleeping: bool)

  /** What one turn of the loop in `pop_task` does with the queue. */
  datatype Turn = Done(result: Option<Entry>, rest: seq<Entry>) | Again(queue: seq<Entry>)

  function LoopTurn(q: seq<Entry>): Turn {
    if q == [] then Done(None, [])
    else if q[0].sleeping then Again(q[1..] + [q[0]])
    else Done(Some(q[0]), q[1..])
  }

  /** Outcome of at most `k` turns. */
  function Turns(q: seq<Entry>, k: nat): Turn
    decreases k
  {
    if k == 0 then Again(q)
    else
      match LoopTurn(q)
      case Done(r, rest) => Done(r, rest)
      case Again(q') => Turns(q', k - 1)
  }

  ghost predicate FirstAwakeAt(q: seq<Entry>, i: nat) {
    i < |q| && !q[i].sleeping && forall j :: 0 <= j < i ==> q[j].sleeping
  }

  /** The loop ends after the first awake task, having moved those before it to
      the back: the remaining cyclic order is unchanged. */
  lemma {:induction false} FindsFirstAwake(q: seq<Entry>, i: nat)
    requires FirstAwakeAt(q, i)
    ensures Turns(q, i + 1) == Done(Some(q[i]), q[i + 1..] + q[..i])
    decreases i
  {
    if i == 0 {
      assert q[1..] + q[..0] == q[1..];
    } else {
      var q' := q[1..] + [q[0]];
      assert FirstAwakeAt(q', i - 1);
      FindsFirstAwake(q', i - 1);
      assert q'[i..] + q'[..i - 1] == q[i + 1..] + q[..i];
    }
  }

  /** `pop_task` comes to an end exactly when the queue is empty or holds an awake
      task; with only sleeping tasks it turns the queue forever. */
  lemma PopEndsIff(q: seq<Entry>)
    ensures (exists k: nat :: Turns(q, k).Done?) <==> q == [] || exists e :: e in q && !e.sleeping
  {
    if q == [] {
      assert Turns(q, 1).Done?;
    } else if exists e :: e in q && !e.sleeping {
      var e :| e in q && !e.sleeping;
      var m :| 0 <= m < |q| && q[m] == e;
      var i := FirstAwake(q, m);
      FindsFirstAwake(q, i);
      assert Turns(q, i + 1).Done?;
    } else {
      forall k: nat
        ensures !Turns(q, k).Done?
      {
        SleepersSpin(q, k);
      }
    }
  }

  lemma {:induction false} FirstAwake(q: seq<Entry>, m: nat) returns (i: nat)
    requires m < |q| && !q[m].sleeping
    ensures FirstAwakeAt(q, i)
    decreases m
  {
    if j :| 0 <= j < m && !q[j].sleeping {
      i := FirstAwake(q, j);
    } else {
      i := m;
    }
  }

  lemma {:induction false} SleepersSpin(q: seq<Entry>, k: nat)
    requires q != [] && forall e :: e in q ==> e.sleeping
    ensures Turns(q, k).Again?
    decreases k
  {
    if k > 0 {
      SleepersSpin(q[1..] + [q[0]], k - 1);
    }
  }

  // ----- in place -----

  /** A future that answers Pending `remaining` times and then completes. */
  class MainFuture {
    var remaining: nat
    const output: int

    constructor (remaining: nat, output: int)
      ensures this.remaining == remaining && this.output == output
    {
      this.remaining, this.output := remaining, output;
    }
  }

  class ExitCode {
    var value: int

    constructor ()
      ensures value == 0
    {
      value := 0;
    }
  }

  datatype Poll = Pending | Ready

  class UserTask {
    const id: nat
    const main: MainFuture
    const exitCode: ExitCode
    var sleeping: bool

    constructor (id: nat, main: MainFuture, exitCode: ExitCode)
      ensures this.id == id && this.main == main && this.exitCode == exitCode && !sleeping
    {
      this.id, this.main, this.exitCode := id, main, exitCode;
      sleeping := false;
    }

    function View(): Entry
      reads this
    {
      Entry(id, sleeping)
    }

    method MarkReady()
      modifies this
      ensures !sleeping
    {
      sleeping := false;
    }

    method MarkSleeping()
      modifies this
      ensures sleeping
    {
      sleeping := true;
    }

    /** Polls `async move { *exit_code = main.await }`; the waker may run meanwhile,
        which is all that can wake the task. */
    method PollFuture() returns (r: Poll, ghost woken: bool)
      modifies this, main, exitCode
      ensures sleeping <==> old(sleeping) && !woken
      ensures old(main.remaining) == 0 ==> r == Ready && exitCode.value == main.output && main.remaining == 0
      ensures old(main.remaining) > 0 ==>
                r == Pending && main.remaining == old(main.remaining) - 1 && exitCode.value == old(exitCode.value)
    {
      woken := false;
      if * {
        MarkReady();
        woken := true;
      }
      if main.remaining == 0 {
        exitCode.value := main.output;
        r := Ready;
      } else {
        main.remaining := main.remaining - 1;
        r := Pending;
      }
    }
  }

  class RoundRobinScheduler {
    var tasks: seq<UserTask>

    constructor ()
      ensures tasks == []
    {
      tasks := [];
    }

    method PushTask(task: UserTask)
      modifies this
      ensures tasks == old(tasks) + [task]
    {
      tasks := tasks + [task];
    }

    /** Called where it ends, see `PopEndsIff`: the first awake task is taken out
        and those before it go to the back. */
    method PopTask() returns (r: Option<UserTask>)
      requires tasks == [] || exists m :: 0 <= m < |tasks| && !tasks[m].sleeping
      modifies this
      ensures old(tasks) == [] ==> r == None && tasks == []
      ensures old(tasks) != [] ==>
                exists i :: FirstAwakeIn(old(tasks), i)
                            && r == Some(old(tasks)[i]) && tasks == old(tasks)[i + 1..] + old(tasks)[..i]
    {
      hide Turned;
      ghost var q, n := tasks, 0;
      ghost var m := 0;
      if tasks != [] {
        m :| 0 <= m < |tasks| && !tasks[m].sleeping;
        StartsTurned(q);
      }
      while tasks != []
        invariant q == [] <==> tasks == []
        invariant q != [] ==> 0 <= n <= m < |q| && !q[m].sleeping && Turned(q, n, tasks)
        invariant q != [] ==> forall j :: 0 <= j < n ==> q[j].sleeping
        decreases m - n
      {
        TurnOnce(q, n, tasks);
        var task := tasks[0];
        tasks := tasks[1..];
        if task.sleeping {
          tasks := tasks + [task];
          n := n + 1;
        } else {
          assert FirstAwakeIn(q, n);
          return Some(task);
        }
      }
      r := None;
    }
  }

  ghost predicate FirstAwakeIn(ts: seq<UserTask>, i: int)
    reads ts
  {
    0 <= i < |ts| && !ts[i].sleeping && forall j :: 0 <= j < i ==> ts[j].sleeping
  }

  /** The tasks' flags as a queue value: the same task is first in both readings. */
  lemma SameFirstAwake(ts: seq<UserTask>, q: seq<Entry>, i: nat)
    requires |q| == |ts| && forall j :: 0 <= j < |ts| ==> q[j] == ts[j].View()
    ensures FirstAwakeIn(ts, i) <==> FirstAwakeAt(q, i)
  {
  }

  /** `ts` is `q` turned by `n` places. */
  ghost predicate Turned(q: seq<UserTask>, n: int, ts: seq<UserTask>) {
    0 <= n < |q| && ts == q[n..] + q[..n]
  }

  lemma StartsTurned(q: seq<UserTask>)
    requires q != []
    ensures Turned(q, 0, q)
  {
  }

  lemma TurnOnce(q: seq<UserTask>, n: int, ts: seq<UserTask>)
    requires Turned(q, n, ts)
    ensures |ts| > 0 && ts[0] == q[n] && ts[1..] == q[n + 1..] + q[..n]
    ensures n + 1 < |q| ==> Turned(q, n + 1, ts[1..] + [ts[0]])
  {
  }

  /** The loop ends: main is polled once for every time it is pending and once more,
      each call of `pop_task` finds an awake task or the empty queue, and main's
      output is returned. Main is asleep while it is polled: after the last poll its
      task sleeps, unless the waker ran. */
  method ExecuteMain(main: MainFuture)
    returns (ans: int, polls: nat, ghost mainTask: UserTask, ghost woken: bool)
    modifies main
    ensures ans == main.output
    ensures mainTask.main == main && (mainTask.sleeping <==> !woken)
    ensures main.remaining == 0 && polls == old(main.remaining) + 1
  {
    var exitCode := new ExitCode();
    var newTask := new UserTask(0, main, exitCode);
    mainTask := newTask;
    woken := false;
    var scheduler := new RoundRobinScheduler();
    scheduler.PushTask(newTask);
    polls := 0;
    var running := true;
    while running
      invariant fresh(scheduler) && fresh(mainTask) && fresh(exitCode)
      invariant mainTask.main == main && mainTask.exitCode == exitCode
      invariant running ==> scheduler.tasks == [mainTask] || scheduler.tasks == []
      invariant running && scheduler.tasks == [mainTask] ==>
                  !mainTask.sleeping && polls + main.remaining == old(main.remaining)
      invariant scheduler.tasks == [] ==>
                  exitCode.value == main.output && main.remaining == 0 && polls == old(main.remaining) + 1
      invariant !running ==> scheduler.tasks == []
      invariant scheduler.tasks == [] ==> (mainTask.sleeping <==> !woken)
      decreases running, main.remaining + |scheduler.tasks|
    {
      assert scheduler.tasks != [] ==> !scheduler.tasks[0].sleeping;
      var popped := scheduler.PopTask();
      if popped.Some? {
        var task := popped.value;
        assert task == mainTask && scheduler.tasks == [];
        task.MarkSleeping();
        var ret: Poll;
        ret, woken := task.PollFuture();
        polls := polls + 1;
        if ret == Pending {
          task.MarkReady();
          scheduler.PushTask(task);
        }
      } else {
        running := false;
      }
    }
    ans := exitCode.value;
  }
}
