/** `fork` and `switch_task`: a growing round-robin queue of tasks with saved contexts. */
module Tasks {
  import opened Machine

  const MAX_PID := 0x8000_0000

  /** What the code at a saved instruction pointer goes on to do: nothing was saved yet, return from
      `switch_task`, or carry on in the `fork` that task `parent` called. */
  datatype Site = Unset | InSwitch | InFork(parent: nat)

  datatype Context = Context(eip: u32, esp: u32, ebp: u32)

  datatype TaskState = TaskState(id: int, saved: Context, site: Site, directory: nat)

  /** The ready list, the position of the running task, and `next_pid`. */
  datatype Sched = Sched(tasks: seq<TaskState>, cur: nat, nextPid: u32)

  /** What `read_eip` seems to return in a call of `switch_task` that has just been resumed. */
  const RESUMED: u32 := 0x12345

  datatype Op = Fork(regs: Context, directory: nat) | Switch(regs: Context)

  ghost predicate Running(s: Sched) {
    s.cur < |s.tasks|
  }

  /** A call of `switch_task` that goes on to switch. */
  predicate Switching(op: Op) {
    op.Switch? && op.regs.eip != RESUMED
  }

  function Next(s: Sched): nat {
    if s.cur + 1 < |s.tasks| then s.cur + 1 else 0
  }

  /** One call, with the registers it reads. */
  function Step(s: Sched, op: Op): (t: Sched)
    requires s.cur < |s.tasks|
    ensures t.cur < |t.tasks| && |t.tasks| == |s.tasks| + (if op.Fork? then 1 else 0)
  {
    match op
    case Fork(regs, directory) =>
      var child := TaskState(Signed(s.nextPid), regs, InFork(s.cur), directory);
      Sched(s.tasks + [child], s.cur, (s.nextPid + 1) % WORD_LIMIT)
    case Switch(regs) =>
      if regs.eip == RESUMED then s else
      s.(tasks := s.tasks[s.cur := s.tasks[s.cur].(saved := regs, site := InSwitch)], cur := Next(s))
  }

  function Run(s: Sched, ops: seq<Op>): (t: Sched)
    requires s.cur < |s.tasks|
    ensures t.cur < |t.tasks| && |t.tasks| >= |s.tasks|
    decreases |ops|
  {
    if ops == [] then s else Run(Step(s, ops[0]), ops[1..])
  }

  lemma {:induction false} RunAppend(s: Sched, a: seq<Op>, b: seq<Op>)
    requires Running(s)
    ensures Run(s, a + b) == Run(Run(s, a), b)
    decreases |a|
  {
    if a == [] {
      assert a + b == b;
    } else {
      assert (a + b)[0] == a[0] && (a + b)[1..] == a[1..] + b;
      RunAppend(Step(s, a[0]), a[1..], b);
    }
  }

  lemma RunOne(s: Sched, op: Op)
    requires Running(s)
    ensures Run(s, [op]) == Step(s, op)
  {
    var t := Step(s, op);
    assert Run(t, [op][1..]) == t;
  }

  lemma LastStep(s: Sched, ops: seq<Op>)
    requires Running(s) && ops != []
    ensures Run(s, ops) == Step(Run(s, ops[..|ops| - 1]), ops[|ops| - 1])
  {
    hide Run, Step;
    var n := |ops| - 1;
    RunAppend(s, ops[..n], [ops[n]]);
    assert ops[..n] + [ops[n]] == ops;
    RunOne(Run(s, ops[..n]), ops[n]);
  }

  // ---------- contexts ----------

  /** What was last stored for task `j` along a run: by its own switch, or by its parent's fork. */
  function LastStored(s: Sched, ops: seq<Op>, j: nat): (Context, Site)
    requires s.cur < |s.tasks| && j < |Run(s, ops).tasks|
    decreases |ops|
  {
    if ops == [] then (s.tasks[j].saved, s.tasks[j].site) else
    var n := |ops| - 1;
    var before := Run(s, ops[..n]);
    LastStep(s, ops);
    match ops[n]
    case Switch(regs) => if before.cur == j && Switching(ops[n]) then (regs, InSwitch) else LastStored(s, ops[..n], j)
    case Fork(regs, _) => if |before.tasks| == j then (regs, InFork(before.cur)) else LastStored(s, ops[..n], j)
  }

  /** The pid and the page directory task `j` was given: before the run, or by the fork that made it. */
  function Given(s: Sched, ops: seq<Op>, j: nat): (int, nat)
    requires s.cur < |s.tasks| && j < |Run(s, ops).tasks|
    decreases |ops|
  {
    if ops == [] then (s.tasks[j].id, s.tasks[j].directory) else
    var n := |ops| - 1;
    var before := Run(s, ops[..n]);
    LastStep(s, ops);
    if ops[n].Fork? && |before.tasks| == j then (Signed(before.nextPid), ops[n].directory) else Given(s, ops[..n], j)
  }

  /** At every point of every run each task, forked before or during the run, holds just the context last
      stored for it, and the pid and page directory it was given. */
  lemma {:induction false} ContextsPreserved(s: Sched, ops: seq<Op>, j: nat)
    requires Running(s) && j < |Run(s, ops).tasks|
    ensures var t := Run(s, ops).tasks[j];
      (t.saved, t.site) == LastStored(s, ops, j) && (t.id, t.directory) == Given(s, ops, j)
    decreases |ops|
  {
    if ops != [] {
      hide Run;
      var n := |ops| - 1;
      LastStep(s, ops);
      if j < |Run(s, ops[..n]).tasks| {
        ContextsPreserved(s, ops[..n], j);
      }
    }
  }

  /** Every task but the running one has a context to resume, and a task saved in `fork` is not its own
      parent. */
  ghost predicate Resumable(s: Sched) {
    && Running(s)
    && (forall j | 0 <= j < |s.tasks| && j != s.cur :: s.tasks[j].site != Unset)
    && (forall j | 0 <= j < |s.tasks| && s.tasks[j].site.InFork? :: s.tasks[j].site.parent < j)
  }

  /** Holds from `initialize_tasking` on, whatever is called. */
  lemma {:induction false} AlwaysResumable(s: Sched, ops: seq<Op>)
    requires Resumable(s)
    ensures Resumable(Run(s, ops))
    decreases |ops|
  {
    if ops != [] {
      AlwaysResumable(Step(s, ops[0]), ops[1..]);
    }
  }

  /** What the code at the resumed instruction pointer returns: `fork` gives 0 unless it finds itself
      still running as the parent. None is the plain return from `switch_task`. */
  datatype Return = Plain | Pid(value: int)

  function Resumed(s: Sched): Return
    requires s.cur < |s.tasks|
  {
    match s.tasks[s.cur].site
    case InFork(parent) => if parent == s.cur then Pid(s.tasks[|s.tasks| - 1].id) else Pid(0)
    case _ => Plain
  }

  /** Every switch resumes its task with the registers last stored for it, in its own directory; a task
      that was forked returns 0 from `fork` the first time it runs, and any other resumption is a plain
      return from `switch_task`. */
  lemma SwitchResumes(s: Sched, ops: seq<Op>, regs: Context)
    requires Resumable(s) && regs.eip != RESUMED
    ensures var before := Run(s, ops); var after := Step(before, Switch(regs)); var all := ops + [Switch(regs)];
      && after == Run(s, all) && after.cur == Next(before)
      && (after.tasks[after.cur].saved, after.tasks[after.cur].site) == LastStored(s, all, after.cur)
      && (after.tasks[after.cur].id, after.tasks[after.cur].directory) == Given(s, all, after.cur)
      && after.tasks[after.cur].site != Unset
      && Resumed(after) == (if after.tasks[after.cur].site.InFork? then Pid(0) else Plain)
  {
    var all := ops + [Switch(regs)];
    RunAppend(s, ops, [Switch(regs)]);
    var before := Run(s, ops);
    assert Run(before, [Switch(regs)]) == Step(before, Switch(regs));
    AlwaysResumable(s, ops);
    AlwaysResumable(s, all);
    ContextsPreserved(s, all, Step(before, Switch(regs)).cur);
  }

  // ---------- pids ----------

  ghost predicate PidsIncrease(s: Sched) {
    (forall i, j | 0 <= i < j < |s.tasks| :: s.tasks[i].id < s.tasks[j].id)
  }

  /** From `initialize_tasking`, task number j has pid j + 1. */
  ghost predicate PidsCount(s: Sched) {
    s.nextPid == |s.tasks| + 1 && forall j | 0 <= j < |s.tasks| :: s.tasks[j].id == j + 1
  }

  function Forks(ops: seq<Op>): nat {
    if ops == [] then 0 else (if ops[0].Fork? then 1 else 0) + Forks(ops[1..])
  }

  lemma {:induction false} PidsCountUp(s: Sched, ops: seq<Op>)
    requires Running(s) && PidsCount(s) && |s.tasks| + Forks(ops) < MAX_PID
    ensures PidsCount(Run(s, ops)) && PidsIncrease(Run(s, ops)) && |Run(s, ops).tasks| == |s.tasks| + Forks(ops)
    decreases |ops|
  {
    if ops != [] {
      PidsCountUp(Step(s, ops[0]), ops[1..]);
    }
  }

  /** They increase along a run exactly as long as `next_pid` does not pass the largest `int`. */
  lemma ForkKeepsPidsIncreasingIff(s: Sched, op: Op)
    requires Running(s) && PidsCount(s) && op.Fork? && |s.tasks| <= MAX_PID - 1
    ensures PidsIncrease(Step(s, op)) <==> |s.tasks| + 1 < MAX_PID
  {
    var t, n := Step(s, op), |s.tasks|;
    if n + 1 >= MAX_PID {
      assert t.tasks[n].id < 0 < t.tasks[0].id;
    }
  }

  // ---------- round robin ----------

  function Switches(ops: seq<Op>): nat {
    if ops == [] then 0 else (if Switching(ops[0]) then 1 else 0) + Switches(ops[1..])
  }

  /** The lengths of the ready list at the switches that start it over, in order. */
  function Laps(s: Sched, ops: seq<Op>): seq<nat>
    requires s.cur < |s.tasks|
    decreases |ops|
  {
    if ops == [] then [] else
    (if Switching(ops[0]) && s.cur + 1 == |s.tasks| then [|s.tasks|] else []) + Laps(Step(s, ops[0]), ops[1..])
  }

  function Sum(a: seq<nat>): nat {
    if a == [] then 0 else a[0] + Sum(a[1..])
  }

  /** Each switch moves one place on, and each lap moves back by the length the list then has. */
  lemma {:induction false} SwitchesAddUp(s: Sched, ops: seq<Op>)
    requires Running(s)
    ensures Run(s, ops).cur + Sum(Laps(s, ops)) == s.cur + Switches(ops)
    decreases |ops|
  {
    if ops != [] {
      var d := Step(s, ops[0]);
      SwitchesAddUp(d, ops[1..]);
      var l := Laps(s, ops);
      if Switching(ops[0]) && s.cur + 1 == |s.tasks| {
        assert l[1..] == Laps(d, ops[1..]);
      } else {
        assert l == Laps(d, ops[1..]);
      }
    }
  }

  /** So a task that runs again after one lap waited exactly as many switches as the list then had. */
  lemma OneLapIsOneTurn(s: Sched, ops: seq<Op>)
    requires Running(s) && Run(s, ops).cur == s.cur && |Laps(s, ops)| == 1
    ensures Switches(ops) == Laps(s, ops)[0]
  {
    SwitchesAddUp(s, ops);
    var l := Laps(s, ops);
    assert l[1..] == [] && Sum(l) == l[0] + Sum([]);
  }

  lemma {:induction false} LapsAppend(s: Sched, a: seq<Op>, b: seq<Op>)
    requires Running(s)
    ensures Laps(s, a + b) == Laps(s, a) + Laps(Run(s, a), b)
    ensures Switches(a + b) == Switches(a) + Switches(b) && Forks(a + b) == Forks(a) + Forks(b)
    decreases |a|
  {
    if a == [] {
      assert a + b == b;
    } else {
      assert (a + b)[0] == a[0] && (a + b)[1..] == a[1..] + b;
      LapsAppend(Step(s, a[0]), a[1..], b);
    }
  }

  /** Enough switches reach any later position of the list without starting over. */
  lemma {:induction false} ReachPosition(s: Sched, i: nat, ops: seq<Op>) returns (k: nat)
    requires Running(s) && s.cur <= i < |s.tasks| && Switches(ops) >= i - s.cur
    ensures k <= |ops| && Run(s, ops[..k]).cur == i && Laps(s, ops[..k]) == []
    ensures forall j | 0 <= j < k :: Run(s, ops[..j]).cur < i
    decreases |ops|
  {
    if s.cur == i {
      k := 0;
    } else {
      var d := Step(s, ops[0]);
      var m := ReachPosition(d, i, ops[1..]);
      k := m + 1;
      assert ops[..k][1..] == ops[1..][..m];
      forall j | 0 <= j < k ensures Run(s, ops[..j]).cur < i {
        if j > 0 {
          assert ops[..j][1..] == ops[1..][..j - 1];
        }
      }
    }
  }

  lemma {:induction false} ForksStay(s: Sched, ops: seq<Op>)
    requires Running(s) && Switches(ops) == 0
    ensures Run(s, ops).cur == s.cur
    decreases |ops|
  {
    if ops != [] {
      ForksStay(Step(s, ops[0]), ops[1..]);
    }
  }

  /** Enough switches start the list over, for the first time, at its length then. */
  lemma {:induction false} ReachLap(s: Sched, ops: seq<Op>) returns (k: nat)
    requires Running(s) && Switches(ops) >= |s.tasks| - s.cur + Forks(ops)
    ensures 0 < k <= |ops| && Run(s, ops[..k]).cur == 0 && |Run(s, ops[..k]).tasks| == |s.tasks| + Forks(ops[..k])
    ensures Laps(s, ops[..k]) == [|s.tasks| + Forks(ops[..k])]
    ensures forall j | 0 < j < k && Switches(ops[..j]) > 0 :: Run(s, ops[..j]).cur > s.cur
    decreases |ops|
  {
    var d := Step(s, ops[0]);
    if Switching(ops[0]) && s.cur + 1 == |s.tasks| {
      k := 1;
      assert ops[..1] == [ops[0]] && ops[..1][1..] == [];
    } else {
      var m := ReachLap(d, ops[1..]);
      k := m + 1;
      assert ops[..k][1..] == ops[1..][..m];
      forall j | 0 < j < k && Switches(ops[..j]) > 0 ensures Run(s, ops[..j]).cur > s.cur {
        assert ops[..j][1..] == ops[1..][..j - 1];
        if Switches(ops[1..][..j - 1]) == 0 {
          ForksStay(d, ops[1..][..j - 1]);
        }
      }
    }
  }

  /** No task starves: once there have been as many switches as tasks and forks together, the running
      task has run again, for the first time after exactly as many switches as the list was long when it
      started over. */
  lemma RunsAgain(s: Sched, ops: seq<Op>) returns (k: nat)
    requires Running(s) && Switches(ops) >= |s.tasks| + Forks(ops)
    ensures 0 < k <= |ops| && Run(s, ops[..k]).cur == s.cur && |Laps(s, ops[..k])| == 1
    ensures Switches(ops[..k]) == Laps(s, ops[..k])[0] && |s.tasks| <= Switches(ops[..k]) <= |s.tasks| + Forks(ops[..k])
    ensures forall j | 0 < j < k && Switches(ops[..j]) > 0 :: Run(s, ops[..j]).cur != s.cur
  {
    var a := ReachLap(s, ops);
    var first, rest := ops[..a], ops[a..];
    assert ops == first + rest;
    LapsAppend(s, first, rest);
    var mid := Run(s, first);
    SwitchesAddUp(s, first);
    assert Laps(s, first)[1..] == [] && Sum(Laps(s, first)) == Laps(s, first)[0];
    var b := ReachPosition(mid, s.cur, rest);
    k := a + b;
    assert ops[..k] == first + rest[..b];
    RunAppend(s, first, rest[..b]);
    LapsAppend(s, first, rest[..b]);
    OneLapIsOneTurn(s, ops[..k]);
    forall j | 0 < j < k && Switches(ops[..j]) > 0 ensures Run(s, ops[..j]).cur != s.cur {
      if j < a {
        assert first[..j] == ops[..j];
      } else {
        assert ops[..j] == first + rest[..j - a];
        RunAppend(s, first, rest[..j - a]);
      }
    }
  }

  // ---------- the code ----------

  /** `task_t`; a page directory is known by its address. */
  class Task {
    var id: int
    var esp: u32
    var ebp: u32
    var eip: u32
    var directory: nat
    var next: Task?
    ghost var site: Site

    constructor (pid: int, dir: nat)
      ensures id == pid && esp == ebp == eip == 0 && directory == dir && next == null && site == Unset
    {
      id, esp, ebp, eip, directory, next, site := pid, 0, 0, 0, dir, null, Unset;
    }

    /** The three stores by which a context is saved. */
    method Save(regs: Context, ghost s: Site)
      modifies this`esp, this`ebp, this`eip, this`site
      ensures State() == TaskState(id, regs, s, directory)
    {
      esp := regs.esp;
      ebp := regs.ebp;
      eip := regs.eip;
      site := s;
    }

    ghost function State(): TaskState
      reads this
    {
      TaskState(id, Context(eip, esp, ebp), site, directory)
    }
  }

  /** The globals of task.c. `list` is the ready list in order, `view` what its tasks hold, and `cur`
      the running task's place. */
  class Scheduler {
    var currentTask: Task
    var readyQueue: Task
    var nextPid: u32
    var currentDirectory: nat
    ghost var list: seq<Task>
    ghost var view: seq<TaskState>
    ghost var cur: nat

    ghost predicate Valid()
      reads this, list
    {
      && cur < |list| && currentTask == list[cur] && readyQueue == list[0]
      && (forall i, j | 0 <= i < j < |list| :: list[i] != list[j])
      && (forall i | 0 <= i < |list| - 1 :: list[i].next != null && list[i].next == list[i + 1])
      && list[|list| - 1].next == null
      && |view| == |list| && (forall i | 0 <= i < |list| :: view[i] == list[i].State())
      && currentDirectory == currentTask.directory
    }

    ghost function State(): Sched
      reads this
    {
      Sched(view, cur, nextPid)
    }

    /** `initialize_tasking`, after the stack has been moved. */
    constructor (directory: nat)
      ensures Valid() && fresh(list) && PidsCount(State()) && Resumable(State())
      ensures State().tasks == [TaskState(1, Context(0, 0, 0), Unset, directory)] && nextPid == 2
    {
      var first := new Task(1, directory);
      currentTask, readyQueue, nextPid, currentDirectory := first, first, 2, directory;
      list, view, cur := [first], [first.State()], 0;
    }

    /** The walk in `fork` to the end of the ready list, where the new task is linked. */
    method Append(newTask: Task)
      requires Valid() && newTask !in list && newTask.next == null
      modifies this`list, this`view, list
      ensures Valid() && list == old(list) + [newTask] && view == old(view) + [newTask.State()]
    {
      var tmpTask := readyQueue;
      ghost var k := 0;
      while tmpTask.next != null
        invariant k < |list| && tmpTask == list[k]
        decreases |list| - k
      {
        tmpTask := tmpTask.next;
        k := k + 1;
      }
      assert k == |list| - 1;
      tmpTask.next := newTask;
      list := list + [newTask];
      view := view + [newTask.State()];
    }

    /** The parent's part of `fork`: set up the context its child will start from. */
    method SetUpChild(newTask: Task, regs: Context)
      requires Valid() && cur < |list| - 1 && newTask == list[|list| - 1]
      modifies newTask, this`view
      ensures Valid() && view == old(view)[|list| - 1 := old(view)[|list| - 1].(saved := regs, site := InFork(cur))]
    {
      newTask.Save(regs, InFork(cur));
      view := view[|view| - 1 := newTask.State()];
    }

    /** The first part of `fork`: a new task at the end of the list, with nothing saved in it. */
    method AddTask(directory: nat) returns (newTask: Task)
      requires Valid()
      modifies this`list, this`view, this`nextPid, list
      ensures Valid() && fresh(newTask) && list == old(list) + [newTask] && nextPid == (old(nextPid) + 1) % WORD_LIMIT
      ensures view == old(view) + [TaskState(Signed(old(nextPid)), Context(0, 0, 0), Unset, directory)]
    {
      newTask := new Task(Signed(nextPid), directory);
      nextPid := (nextPid + 1) % WORD_LIMIT;
      Append(newTask);
    }

    /** `fork` as its caller sees it: `directory` is the clone of the current one, `regs` what the code
        reads between linking the child and returning. */
    method Fork(regs: Context, directory: nat) returns (pid: int)
      requires Valid()
      modifies this, list
      ensures Valid() && State() == Step(old(State()), Op.Fork(regs, directory))
      ensures pid == view[|view| - 1].id && fresh(list[|list| - 1])
    {
      var parentTask := currentTask;
      var newTask := AddTask(directory);
      assert currentTask == parentTask;
      SetUpChild(newTask, regs);
      pid := newTask.id;
    }

    /** `switch_task` up to the jump, with the registers it reads: it hands back what is loaded. The
        marker in `eip` means that this call has itself just been resumed. */
    method SwitchTask(regs: Context) returns (loaded: Context, resumed: bool)
      requires Valid()
      modifies this, list
      ensures resumed <==> regs.eip == RESUMED
      ensures resumed ==> unchanged(this) && unchanged(list)
      ensures Valid() && list == old(list) && State() == Step(old(State()), Switch(regs))
      ensures !resumed ==> loaded == view[cur].saved && currentDirectory == view[cur].directory
    {
      loaded := regs;
      resumed := regs.eip == RESUMED;
      if resumed {
        return;
      }
      SaveCurrent(regs);
      loaded := LoadNext();
    }

    /** The registers are saved in the running task. */
    method SaveCurrent(regs: Context)
      requires Valid()
      modifies currentTask, this`view
      ensures Valid() && view == old(view)[cur := old(view[cur]).(saved := regs, site := InSwitch)]
    {
      currentTask.Save(regs, InSwitch);
      view := view[cur := currentTask.State()];
    }

    /** The next task to run: the one behind, or the first when the walk fell off the end. */
    method LoadNext() returns (loaded: Context)
      requires Valid()
      modifies this`currentTask, this`cur, this`currentDirectory
      ensures Valid() && cur == Next(old(State()))
      ensures loaded == view[cur].saved && currentDirectory == view[cur].directory
    {
      if currentTask.next == null {
        currentTask := readyQueue;
        cur := 0;
      } else {
        currentTask := currentTask.next;
        cur := cur + 1;
      }
      loaded := Context(currentTask.eip, currentTask.esp, currentTask.ebp);
      currentDirectory := currentTask.directory;
    }
  }
}
