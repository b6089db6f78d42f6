/** The multi-CPU scheduler, on its own queues and task objects. */
module Scheduler {
  import opened SchedulerModel
  import opened SchedulerTick
  import opened SchedulerFix
  import opened SchedulerUpdate
  import opened SchedulerRuns

  /** The tree of CPUs; only its leaves are CPUs. */
  datatype CpuTree = Leaf | Node(children: seq<CpuTree>)
  {
    function Count(): nat {
      match this
      case Leaf => 1
      case Node(children) => CountAll(children)
    }
  }

  function CountAll(trees: seq<CpuTree>): nat {
    if trees == [] then 0 else trees[0].Count() + CountAll(trees[1..])
  }

  class MultiCpuScheduler {
    const cpuTree: CpuTree
    const totalCycles: nat
    var taskQueues: seq<seq<Task>>
    /** The dictionary from CPUs to running tasks, in insertion order. */
    var cpuRunned: seq<Slot>
    var currentCycle: nat
    /** The fields of every task, as values. */
    ghost var recs: Records

    ghost function Now(): State
      reads this
    {
      State(taskQueues, cpuRunned, recs)
    }

    ghost predicate Agree()
      reads this, recs.Keys
    {
      forall t :: t in recs ==> t.Fields() == recs[t]
    }

    /** The number of CPUs: a tree that is a single leaf has no children to count. */
    function CpuCount(): nat {
      if cpuTree.Leaf? then 0 else CountAll(cpuTree.children)
    }

    ghost predicate Valid()
      reads this, recs.Keys
    {
      Agree() && Good(Now(), CpuCount())
    }

    constructor (cpuTree: CpuTree, totalCycles: nat)
      ensures Valid() && Now() == State(seq(QUEUES, i => []), [], map[])
      ensures this.cpuTree == cpuTree && this.totalCycles == totalCycles && currentCycle == 0
    {
      this.cpuTree := cpuTree;
      this.totalCycles := totalCycles;
      taskQueues := seq(QUEUES, i => []);
      cpuRunned, currentCycle, recs := [], 0, map[];
      new;
      NoTasks(taskQueues);
    }

    /** Adds a new task behind the others of its priority. */
    method PushTaskFirst(task: Task)
      requires Valid() && task !in recs
      requires CpuOrNone(task.cpuAffinity, CpuCount()) && CpuOrNone(task.oldCpu, CpuCount())
      modifies this
      ensures Valid()
      ensures var q := QueueId(task.Fields());
        Now() == State(
          old(taskQueues)[q := old(taskQueues)[q] + [task]], old(cpuRunned), old(recs)[task := task.Fields()])
      ensures Tasks(Now()) == old(Tasks(Now())) + multiset{task}
    {
      hide Known, SlotFits, CpusInRange, Tasks, QueueId;
      ghost var s := Now();
      var q := TaskQueueId(task);
      taskQueues := taskQueues[q := taskQueues[q] + [task]];
      recs := recs[task := task.Fields()];
      PushKeeps(s, Now(), q, task, CpuCount());
    }

    method TaskQueueId(task: Task) returns (q: nat)
      ensures q == QueueId(task.Fields()) && q < QUEUES
    {
      var d := task.Depriority() - 1;
      if d < 0 {
        d := 0;
      }
      q := if d < 127 then d else 127;
    }

    /** The first task of queue q whose affinity is unset or this CPU; an unset affinity becomes this
      * CPU. */
    method QueryShortestPathId(q: nat, cpu: nat) returns (found: Option<nat>)
      requires Agree() && AllRecorded(Now()) && q < |taskQueues|
      modifies `recs, recs.Keys
      ensures Agree() && taskQueues == old(taskQueues) && cpuRunned == old(cpuRunned)
      ensures Picked(old(Now()), recs, q, cpu, found)
    {
      assert Recorded(Now(), q);
      var queue := taskQueues[q];
      var i := 0;
      while i < |queue|
        invariant i <= |queue|
        invariant QueryFrom(queue, recs, cpu, i) == Query(queue, recs, cpu)
      {
        var task := queue[i];
        assert task in recs;
        if task.cpuAffinity == None {
          task.cpuAffinity := Some(cpu);
          recs := recs[task := recs[task].(affinity := Some(cpu))];
          return Some(i);
        }
        if task.cpuAffinity == Some(cpu) {
          return Some(i);
        }
        i := i + 1;
      }
      return None;
    }

    /** Takes a task out of its queue and runs it on a CPU. */
    method RunTaskQueued(cpu: nat, q: nat, offset: nat)
      requires Agree() && AllRecorded(Now()) && q < |taskQueues| && offset < |taskQueues[q]|
      requires taskQueues[q][offset] in recs
      modifies `taskQueues, `cpuRunned, `recs, recs.Keys
      ensures Agree() && AllRecorded(Now())
      ensures Now() == Run(old(Now()), cpu, q, offset)
    {
      RunRecorded(Now(), cpu, q, offset);
      var task := taskQueues[q][offset];
      taskQueues := taskQueues[q := taskQueues[q][..offset] + taskQueues[q][offset + 1..]];
      task.totalCycles := task.totalCycles + 1;
      task.cpuAffinity := Some(cpu);
      cpuRunned := Put(cpuRunned, cpu, task);
      recs := recs[task := recs[task].(affinity := Some(cpu), cycles := recs[task].cycles + 1)];
    }

    /** The first round over queue i: each CPU takes a task with affinity to it. */
    method PickAffine(i: nat, cpus: seq<nat>) returns (retried: seq<nat>)
      requires Agree() && AllRecorded(Now()) && i < |taskQueues|
      modifies `taskQueues, `cpuRunned, `recs, recs.Keys
      ensures Agree() && AllRecorded(Now()) && recs.Keys == old(recs.Keys)
      ensures Pass(Now(), retried) == FirstPass(old(Now()), i, cpus, [])
    {
      hide Run, Query;
      ghost var s0 := Now();
      var chosen := cpus;
      retried := [];
      while |chosen| > 0
        invariant Agree() && AllRecorded(Now()) && recs.Keys == old(recs.Keys)
        invariant |taskQueues| == |s0.queues|
        invariant FirstPass(Now(), i, chosen, retried) == FirstPass(s0, i, cpus, [])
      {
        ghost var s1 := Now();
        var n := |chosen| - 1;
        var cpu := chosen[n];
        chosen := chosen[..n];
        var found := QueryShortestPathId(i, cpu);
        if found.Some? {
          PickedRuns(s1, Now(), i, cpu, found.value);
          RunTaskQueued(cpu, i, found.value);
        } else {
          retried := retried + [cpu];
        }
      }
    }

    /** The second round over queue i: the remaining CPUs take what is left, in order. */
    method PickAny(i: nat, cpus: seq<nat>) returns (left: seq<nat>)
      requires Agree() && AllRecorded(Now()) && i < |taskQueues|
      modifies `taskQueues, `cpuRunned, `recs, recs.Keys
      ensures Agree() && AllRecorded(Now()) && recs.Keys == old(recs.Keys)
      ensures Pass(Now(), left) == SecondPass(old(Now()), i, cpus)
    {
      hide Run;
      ghost var s0 := Now();
      left := cpus;
      while |taskQueues[i]| > 0 && |left| > 0
        invariant Agree() && AllRecorded(Now()) && recs.Keys == old(recs.Keys)
        invariant |taskQueues| == |s0.queues|
        invariant SecondPass(Now(), i, left) == SecondPass(s0, i, cpus)
        decreases |left|
      {
        var n := |left| - 1;
        var cpu := left[n];
        left := left[..n];
        assert Recorded(Now(), i);
        RunTaskQueued(cpu, i, 0);
      }
    }

    method TickAll()
      requires Valid() && cpuRunned == []
      modifies `taskQueues, `cpuRunned, `recs, recs.Keys
      ensures Valid() && AllRecorded(old(Now())) && recs.Keys == old(recs.Keys)
      ensures Now() == Tick(old(Now()), CpuCount())
    {
      ghost var s, cpus := Now(), CpuCount();
      TickPlaces(s, cpus);
      hide Good, Tasks, FirstPass, SecondPass;
      var chosen: seq<nat> := seq(CpuCount(), i requires 0 <= i => i);
      var i := 0;
      while i < |taskQueues|
        invariant Agree() && AllRecorded(Now()) && recs.Keys == old(recs.Keys)
        invariant i <= |taskQueues| && TickFrom(Now(), i, chosen) == Tick(s, cpus)
      {
        var retried := PickAffine(i, chosen);
        retried := PickAny(i, retried);
        if |retried| == 0 {
          break;
        }
        chosen := retried;
        i := i + 1;
      }
    }

    /** Binds a task to a CPU. */
    method Bind(task: Task, cpu: nat)
      requires Agree() && task in recs
      modifies `recs, task`cpuAffinity
      ensures Agree() && recs == old(recs)[task := old(recs)[task].(affinity := Some(cpu))]
    {
      task.cpuAffinity := Some(cpu);
      recs := recs[task := recs[task].(affinity := Some(cpu))];
    }

    /** Two running tasks change places, and each gets affinity to its new CPU. */
    method Exchange(cpu: nat, task: Task, home: nat, stealer: Task)
      requires Agree() && RanRecorded(Now()) && Displaced(Now(), cpu) && task in recs && stealer in recs
      requires task == TaskOn(Now(), cpu) && recs[task].oldCpu == Some(home) && stealer == TaskOn(Now(), home)
      modifies `cpuRunned, `recs, recs.Keys
      ensures Agree() && recs.Keys == old(recs.Keys)
      ensures Now() == Swap(old(Now()), cpu)
    {
      hide Put, Displaced, RanRecorded;
      Bind(stealer, cpu);
      cpuRunned := Put(cpuRunned, cpu, stealer);
      Bind(task, home);
      cpuRunned := Put(cpuRunned, home, task);
    }

    /** Gives the task on `cpu` back the CPU it last ran on, if another task is there now that is not
      * bound to `cpu` or is of worse priority. Says which CPU to look at next. */
    method Steal(cpu: nat) returns (home: Option<nat>)
      requires Valid() && RanRecorded(Now()) && Runs(Now(), cpu)
      modifies `cpuRunned, `recs, recs.Keys
      ensures Valid() && RanRecorded(Now()) && recs.Keys == old(recs.Keys)
      ensures old(Displaced(Now(), cpu)) ==> Now() == Swap(old(Now()), cpu) && home == old(RecOn(Now(), cpu).oldCpu)
      ensures !old(Displaced(Now(), cpu)) ==> Now() == old(Now()) && home == None
    {
      hide Good, Swap;
      ghost var s := Now();
      var task := cpuRunned[Find(cpuRunned, cpu)].task;
      assert task in recs && task.Fields() == RecOn(s, cpu);
      var oldCpu := task.oldCpu;
      if oldCpu.Some? && cpu != oldCpu.value {
        var k := Find(cpuRunned, oldCpu.value);
        if k < |cpuRunned| {
          var stealer := cpuRunned[k].task;
          assert stealer in recs && stealer.Fields() == RecOn(s, oldCpu.value);
          if stealer.cpuAffinity != Some(cpu) || task.Depriority() < stealer.Depriority() {
            assert Displaced(s, cpu);
            SwapKeepsGood(s, cpu, CpuCount());
            Exchange(cpu, task, oldCpu.value, stealer);
            return oldCpu;
          }
        }
      }
      return None;
    }

    /** Deals with the CPU on top of the stack. */
    method FixTop(stack: seq<nat>) returns (toFix: seq<nat>, ghost swaps: nat)
      requires Agree() && Fixable(Now(), stack, CpuCount()) && |stack| > 0
      modifies `cpuRunned, `recs, recs.Keys
      ensures Agree() && Fixable(Now(), toFix, CpuCount()) && recs.Keys == old(recs.Keys)
      ensures Turn(old(Now()), stack, Now(), toFix, CpuCount(), swaps)
    {
      hide Good, Displaced, Swap, FixFrom, StackOk, RanRecorded, AllRun, Unsettled;
      var cpu := stack[|stack| - 1];
      toFix := stack[..|stack| - 1];
      swaps := 0;
      FixFromStep(Now(), stack, CpuCount());
      var home := Steal(cpu);
      if home.Some? {
        toFix := toFix + [home.value];
        swaps := 1;
      }
    }

    /** Swaps running tasks back to the CPUs they last ran on. */
    method FixAffinity() returns (ghost pops: nat, ghost swaps: nat)
      requires Valid()
      modifies `cpuRunned, `recs, recs.Keys
      ensures Valid() && recs.Keys == old(recs.Keys)
      ensures Fixed(Now(), pops, swaps) == Fix(old(Now()), CpuCount())
    {
      hide Good, FixFrom, StackOk, RanRecorded, AllRun, Unsettled, CpusOf, Displaced, Swap, CpusInRange, Known,
        OnDistinctCpus;
      ghost var s, cpus := Now(), CpuCount();
      var toFix := CpusOf(cpuRunned);
      FixStarts(s, cpus);
      AllRunning(s);
      pops, swaps := 0, 0;
      while |toFix| > 0
        invariant Agree() && Fixable(Now(), toFix, cpus) && recs.Keys == old(recs.Keys)
        invariant AddSteps(FixFrom(Now(), toFix, cpus), pops, swaps) == Fix(s, cpus)
        decreases |toFix| + Unsettled(Now(), toFix)
      {
        ghost var swapped: nat;
        toFix, swapped := FixTop(toFix);
        pops, swaps := pops + 1, swaps + swapped;
      }
      FixFromEmpty(Now(), cpus);
    }

    /** Moves every queue down by one; the second joins the first. */
    method ShiftQueues()
      requires |taskQueues| == QUEUES
      modifies `taskQueues
      ensures taskQueues == Shift(old(taskQueues))
    {
      ghost var before := taskQueues;
      var i := 0;
      while i < |taskQueues| - 1
        invariant i <= |taskQueues| - 1 && |taskQueues| == QUEUES
        invariant forall j: nat :: j < i ==> taskQueues[j] == Shift(before)[j]
        invariant forall j: nat :: i <= j < QUEUES && j != 0 ==> taskQueues[j] == before[j]
        invariant i == 0 ==> taskQueues[0] == before[0]
      {
        if i == 0 {
          taskQueues := taskQueues[i := taskQueues[i] + taskQueues[i + 1]];
        } else {
          taskQueues := taskQueues[i := taskQueues[i + 1]];
        }
        i := i + 1;
      }
      taskQueues := taskQueues[|taskQueues| - 1 := []];
    }

    method TaskCount() returns (c: nat)
      ensures c == Count(Now())
    {
      c := 0;
      var i := 0;
      while i < |taskQueues|
        invariant i <= |taskQueues| && c + Queued(taskQueues, i) == Queued(taskQueues, 0)
      {
        c := c + |taskQueues[i]|;
        i := i + 1;
      }
      c := c + |cpuRunned|;
    }

    /** The depriorities of all waiting tasks together. */
    method TotalDepriority() returns (total: int)
      requires Agree() && AllRecorded(Now())
      ensures total == Sum(Now(), |taskQueues|)
    {
      total := 0;
      var q := 0;
      while q < |taskQueues|
        invariant q <= |taskQueues| && total == Sum(Now(), q)
      {
        var queue, k := taskQueues[q], 0;
        assert Recorded(Now(), q);
        while k < |queue|
          invariant k <= |queue| && total == Sum(Now(), q) + QueueSum(queue[..k], recs)
        {
          assert queue[..k + 1][..k] == queue[..k] && queue[k] in recs;
          total := total + queue[k].Depriority();
          k := k + 1;
        }
        assert queue[..k] == queue;
        q := q + 1;
      }
    }

    /** One waiting task's sleeping grows. */
    method SleepTask(task: Task, mean: int)
      requires Agree() && task in recs
      modifies `recs, recs.Keys
      ensures Agree() && recs == old(recs)[task := Slept(old(recs)[task], mean)]
    {
      task.sleeping := task.sleeping + mean + task.basePriority;
      recs := recs[task := Slept(recs[task], mean)];
    }

    /** The waiting tasks of one queue. */
    method SleepQueue(q: nat, total: int, c: nat, ghost s: State)
      requires Agree() && Known(s) && AllRecorded(s) && taskQueues == s.queues && q < |s.queues|
      requires c == Count(s) && total == Sum(s, |s.queues|)
      requires recs == Aged(s.recs, Before(s.queues, q, 0), Drift(s))
      modifies `recs, recs.Keys
      ensures Agree() && recs == Aged(s.recs, Before(s.queues, q + 1, 0), Drift(s))
    {
      hide Known, Sum;
      ghost var drift := Drift(s);
      var queue, k := taskQueues[q], 0;
      assert Recorded(s, q);
      while k < |queue|
        invariant k <= |queue| && Agree() && recs.Keys == s.recs.Keys
        invariant recs == Aged(s.recs, Before(s.queues, q, k), drift)
      {
        NotBefore(s, q, k);
        AgedStep(s.recs, Before(s.queues, q, k), queue[k], drift);
        BeforeStep(s.queues, q, k);
        SomeQueued(s.queues, q);
        SleepTask(queue[k], CeilDiv(total, c));
        k := k + 1;
      }
      BeforeRow(s.queues, q);
    }

    /** Every waiting task's sleeping grows by the mean depriority, rounded up, and its base priority. */
    method Sleep(total: int, c: nat)
      requires Agree() && Known(Now()) && AllRecorded(Now())
      requires c == Count(Now()) && total == Sum(Now(), |taskQueues|)
      modifies `recs, recs.Keys
      ensures Agree() && recs == Aged(old(recs), QueuedSet(taskQueues), old(Drift(Now())))
    {
      hide Known, Sum, AllRecorded;
      ghost var s := Now();
      BeforeAll(s.queues);
      var q := 0;
      while q < |taskQueues|
        invariant q <= |taskQueues| && Agree() && recs.Keys == s.recs.Keys
        invariant recs == Aged(s.recs, Before(s.queues, q, 0), Drift(s))
      {
        SleepQueue(q, total, c, s);
        q := q + 1;
      }
    }

    method AddTask(task: Task)
      requires |taskQueues| == QUEUES
      modifies `taskQueues
      ensures var q := QueueId(task.Fields()); taskQueues == old(taskQueues)[q := old(taskQueues)[q] + [task]]
    {
      var q := TaskQueueId(task);
      taskQueues := taskQueues[q := taskQueues[q] + [task]];
    }

    /** A task that ran goes back to the queues. */
    method RequeueTask(slot: Slot)
      requires Agree() && |taskQueues| == QUEUES && slot.task in recs
      modifies `taskQueues, `recs, recs.Keys
      ensures Agree() && State(taskQueues, [], recs) == Requeue(old(taskQueues), old(recs), slot)
    {
      hide QueueId;
      var task := slot.task;
      task.running := task.running + 1;
      task.oldCpu := Some(slot.cpu);
      recs := recs[task := Ran(recs[task], slot.cpu)];
      AddTask(task);
    }

    /** The tasks that ran go back to the queues. */
    method RequeueRan()
      requires Agree() && |taskQueues| == QUEUES
      requires forall k: nat :: k < |cpuRunned| ==> cpuRunned[k].task in recs
      modifies `taskQueues, `cpuRunned, `recs, recs.Keys
      ensures Agree() && Now() == RequeueAll(old(taskQueues), old(recs), old(cpuRunned))
    {
      hide Requeue;
      ghost var s := Now();
      var k := 0;
      while k < |cpuRunned|
        invariant Agree() && |taskQueues| == QUEUES && k <= |cpuRunned|
        invariant cpuRunned == s.ran && recs.Keys == s.recs.Keys
        invariant RequeueAll(taskQueues, recs, s.ran[k..]) == RequeueAll(s.queues, s.recs, s.ran)
      {
        assert s.ran[k..][0] == s.ran[k] && s.ran[k..][1..] == s.ran[k + 1..];
        RequeueTask(cpuRunned[k]);
        k := k + 1;
      }
      cpuRunned := [];
    }

    method UpdateRunnedTasks()
      requires Valid()
      modifies `taskQueues, `cpuRunned, `recs, recs.Keys
      ensures Valid() && recs.Keys == old(recs.Keys)
      ensures Now() == Update(old(Now()), CpuCount())
    {
      hide Known, SlotFits, OnDistinctCpus, CpusInRange, Tasks, Aged, QueuedSet, Shift, RequeueAll;
      ghost var s, cpus := Now(), CpuCount();
      ShiftedGood(s, cpus);
      UpdateKeepsTasks(s, cpus);
      ShiftQueues();
      var c := TaskCount();
      var total := TotalDepriority();
      Sleep(total, c);
      AgedKeys(s.recs, QueuedSet(taskQueues), Drift(Shifted(s)));
      RequeueRan();
    }

    /** One cycle: every CPU picks, tasks move home, queues age. */
    method RunCycle()
      requires Valid() && cpuRunned == []
      modifies `taskQueues, `cpuRunned, `recs, recs.Keys
      ensures Valid() && cpuRunned == [] && recs.Keys == old(recs.Keys)
      ensures Now() == Cycle(old(Now()), CpuCount())
    {
      hide Good, Tick, Fix, Update, Tasks;
      ghost var s, cpus := Now(), CpuCount();
      CycleIs(s, cpus);
      TickAll();
      ghost var pops, swaps := FixAffinity();
      UpdateRunnedTasks();
    }

    /** Runs the cycles that are left. */
    method Simulate()
      requires Valid() && cpuRunned == [] && currentCycle <= totalCycles
      modifies this, recs.Keys
      ensures Valid() && cpuRunned == [] && currentCycle == totalCycles
      ensures Now() == After(old(Now()), CpuCount(), totalCycles - old(currentCycle))
    {
      hide Good, Cycle, Tasks;
      ghost var s, cpus := Now(), CpuCount();
      while currentCycle < totalCycles
        invariant Valid() && cpuRunned == [] && currentCycle <= totalCycles && recs.Keys == old(recs.Keys)
        invariant After(Now(), cpus, totalCycles - currentCycle) == After(s, cpus, totalCycles - old(currentCycle))
      {
        currentCycle := currentCycle + 1;
        RunCycle();
      }
    }
  }

  lemma AgedKeys(recs: Records, waiting: set<Task>, drift: int)
    ensures Aged(recs, waiting, drift).Keys == recs.Keys
  {
  }

  /** A cycle as the scheduler's methods go through it. */
  lemma CycleIs(s: State, cpus: nat)
    requires Rested(s, cpus)
    ensures AllRecorded(s) && Good(Tick(s, cpus), cpus)
    ensures Good(Fix(Tick(s, cpus), cpus).state, cpus)
    ensures Cycle(s, cpus) == Update(Fix(Tick(s, cpus), cpus).state, cpus)
    ensures Cycle(s, cpus).ran == []
  {
    TickPlaces(s, cpus);
  }

  lemma {:induction false} SomeQueued(queues: seq<seq<Task>>, q: nat)
    requires q < |queues| && queues[q] != []
    ensures 0 < Queued(queues, 0)
  {
    QueuedFrom(queues, 0, q);
  }

  lemma {:induction false} QueuedFrom(queues: seq<seq<Task>>, from: nat, q: nat)
    requires from <= q < |queues|
    ensures |queues[q]| <= Queued(queues, from)
    decreases q - from
  {
    if from < q {
      QueuedFrom(queues, from + 1, q);
    }
  }

  /** A state and stack as the loop of fix_affinity keeps them. */
  ghost predicate Fixable(s: State, stack: seq<nat>, cpus: nat) {
    Good(s, cpus) && RanRecorded(s) && StackOk(s, stack) && AllRun(s, stack)
  }

  /** One turn of the loop of fix_affinity: one pop, and a swap or none, of the whole run. */
  ghost predicate Turn(s: State, stack: seq<nat>, r: State, next: seq<nat>, cpus: nat, swaps: nat)
    requires Fixable(s, stack, cpus) && Fixable(r, next, cpus)
  {
    && FixFrom(s, stack, cpus) == AddSteps(FixFrom(r, next, cpus), 1, swaps)
    && |next| + Unsettled(r, next) < |stack| + Unsettled(s, stack)
  }

  ghost predicate AllRun(s: State, stack: seq<nat>) {
    forall k: nat :: k < |stack| ==> Runs(s, stack[k])
  }

  lemma AllRunning(s: State)
    ensures AllRun(s, CpusOf(s.ran))
  {
    forall k: nat | k < |s.ran| ensures Runs(s, s.ran[k].cpu) {
    }
  }

  lemma FixFromEmpty(s: State, cpus: nat)
    requires Good(s, cpus) && RanRecorded(s)
    ensures StackOk(s, []) && FixFrom(s, [], cpus) == Fixed(s, 0, 0)
  {
  }

  /** What one turn of the loop does to the rest of the run. */
  lemma FixFromStep(s: State, stack: seq<nat>, cpus: nat)
    requires Good(s, cpus) && RanRecorded(s) && StackOk(s, stack) && stack != [] && AllRun(s, stack)
    ensures Runs(s, stack[|stack| - 1])
    ensures var cpu, rest := stack[|stack| - 1], stack[..|stack| - 1];
      if Displaced(s, cpu) then
        && RecOn(s, cpu).oldCpu.Some?
        && var r, next := Swap(s, cpu), rest + [RecOn(s, cpu).oldCpu.value];
        && Good(r, cpus) && RanRecorded(r) && StackOk(r, next) && Unsettled(r, next) + 1 <= Unsettled(s, stack)
        && AllRun(r, next) && FixFrom(s, stack, cpus) == AddSteps(FixFrom(r, next, cpus), 1, 1)
      else
        StackOk(s, rest) && AllRun(s, rest) && Unsettled(s, rest) <= Unsettled(s, stack) &&
        FixFrom(s, stack, cpus) == AddSteps(FixFrom(s, rest, cpus), 1, 0)
  {
    hide Good, StackOk, Displaced, Swap, FixFrom;
    var cpu, rest := stack[|stack| - 1], stack[..|stack| - 1];
    if Displaced(s, cpu) {
      var i, j, home := SwapSlots(s, cpu);
      SwapStep(s, stack, cpus);
      SwapKeepsRunning(s, cpu, rest);
      FixFromSwaps(s, stack, cpus, home);
    } else {
      PopStep(s, stack);
      FixFromPops(s, stack, cpus);
    }
  }

  lemma FixFromSwaps(s: State, stack: seq<nat>, cpus: nat, home: nat)
    requires Good(s, cpus) && RanRecorded(s) && StackOk(s, stack) && stack != [] && Displaced(s, stack[|stack| - 1])
    requires RecOn(s, stack[|stack| - 1]).oldCpu == Some(home)
    requires var r := Swap(s, stack[|stack| - 1]);
      Good(r, cpus) && RanRecorded(r) && StackOk(r, stack[..|stack| - 1] + [home])
    ensures FixFrom(s, stack, cpus) ==
      AddSteps(FixFrom(Swap(s, stack[|stack| - 1]), stack[..|stack| - 1] + [home], cpus), 1, 1)
  {
    hide Good, StackOk, Displaced, Swap;
  }

  lemma FixFromPops(s: State, stack: seq<nat>, cpus: nat)
    requires Good(s, cpus) && RanRecorded(s) && StackOk(s, stack) && stack != [] && !Displaced(s, stack[|stack| - 1])
    requires StackOk(s, stack[..|stack| - 1])
    ensures FixFrom(s, stack, cpus) == AddSteps(FixFrom(s, stack[..|stack| - 1], cpus), 1, 0)
  {
    hide Good, StackOk, Displaced, Swap;
  }

  lemma SwapKeepsRunning(s: State, cpu: nat, rest: seq<nat>)
    requires RanRecorded(s) && Displaced(s, cpu) && AllRun(s, rest)
    ensures AllRun(Swap(s, cpu), rest + [RecOn(s, cpu).oldCpu.value])
  {
    var i, j, home := SwapSlots(s, cpu);
    var r, next := Swap(s, cpu), rest + [home];
    forall k: nat | k < |next| ensures Runs(r, next[k]) {
      assert k < |rest| ==> Runs(s, rest[k]);
      assert Find(r.ran, next[k]) == Find(s.ran, next[k]);
    }
  }

  /** Steps already taken, added to those still to come. */
  ghost function AddSteps(f: Fixed, pops: nat, swaps: nat): Fixed {
    Fixed(f.state, f.pops + pops, f.swaps + swaps)
  }

  /** What query_shortest_path_id finds, and the affinity it may set. */
  ghost predicate Picked(s: State, recs: Records, q: nat, cpu: nat, found: Option<nat>)
    requires AllRecorded(s) && q < |s.queues|
  {
    assert Recorded(s, q);
    var k := Query(s.queues[q], s.recs, cpu);
    if k == |s.queues[q]| then found == None && recs == s.recs
    else
      var t := s.queues[q][k];
      found == Some(k) && recs == s.recs[t := s.recs[t].(affinity := Some(cpu))]
  }

  /** Setting the affinity beforehand makes no difference to running the task. */
  lemma PickedRuns(s: State, r: State, q: nat, cpu: nat, k: nat)
    requires AllRecorded(s) && q < |s.queues| && Picked(s, r.recs, q, cpu, Some(k))
    requires r.queues == s.queues && r.ran == s.ran
    ensures k < |s.queues[q]| && s.queues[q][k] in s.recs
    ensures s.queues[q][k] in r.recs && AllRecorded(r) && Run(r, cpu, q, k) == Run(s, cpu, q, k)
  {
    assert Recorded(s, q);
    forall j: nat | j < |r.queues| ensures Recorded(r, j) {
      assert Recorded(s, j);
    }
  }

  lemma {:induction false} NoTasks(queues: seq<seq<Task>>)
    requires forall q: nat :: q < |queues| ==> queues[q] == []
    ensures QueuedTasks(queues) == multiset{}
    decreases |queues|
  {
    if queues != [] {
      NoTasks(queues[..|queues| - 1]);
    }
  }

  lemma PushTasks(s: State, r: State, q: nat, task: Task)
    requires q < |s.queues| && Known(s) && task !in s.recs
    requires r.queues == s.queues[q := s.queues[q] + [task]] && r.ran == s.ran
    requires r.recs.Keys == s.recs.Keys + {task}
    ensures Known(r) && Tasks(r) == Tasks(s) + multiset{task}
  {
    AppendToQueue(s.queues, q, task);
    var a, b: multiset<Task> := QueuedTasks(s.queues), RanTasks(s.ran);
    assert (a + multiset{task}) + b == (a + b) + multiset{task};
    assert task !in Tasks(s);
  }

  lemma PushKeeps(s: State, r: State, q: nat, task: Task, cpus: nat)
    requires Good(s, cpus) && q < QUEUES && task !in s.recs
    requires r.queues == s.queues[q := s.queues[q] + [task]] && r.ran == s.ran
    requires task in r.recs && r.recs == s.recs[task := r.recs[task]]
    requires CpuOrNone(r.recs[task].affinity, cpus) && CpuOrNone(r.recs[task].oldCpu, cpus)
    ensures Good(r, cpus) && Tasks(r) == Tasks(s) + multiset{task}
  {
    hide Known, Tasks;
    PushTasks(s, r, q, task);
    forall k: nat | k < |r.ran| ensures SlotFits(r, k, cpus) {
      assert SlotFits(s, k, cpus);
    }
  }
}
