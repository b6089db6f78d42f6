/** The multi-CPU scheduler as functions on states: what one tick, one affinity pass and one update
  * of the queues make of a state. Tasks are the scheduler's own objects; a state records their
  * fields beside them. */
module SchedulerModel {
  datatype Option<T> = None | Some(value: T)

  const QUEUES: nat := 128

  /** The fields of a task. */
  datatype Rec = Rec(base: int, running: int, sleeping: int, oldCpu: Option<nat>, affinity: Option<nat>, cycles: nat)
  {
    /** Lower is better. */
    function Depriority(): int { base + running - sleeping }
  }

  class Task {
    const basePriority: int
    var running: int
    var sleeping: int
    var oldCpu: Option<nat>
    var cpuAffinity: Option<nat>
    var totalCycles: nat

    constructor (basePriority: int)
      ensures Fields() == Rec(basePriority, 0, 0, None, None, 0)
    {
      this.basePriority := basePriority;
      running, sleeping, totalCycles := 0, 0, 0;
      oldCpu, cpuAffinity := None, None;
    }

    function Fields(): Rec
      reads this
    {
      Rec(basePriority, running, sleeping, oldCpu, cpuAffinity, totalCycles)
    }

    function Depriority(): int
      reads this
    {
      basePriority + running - sleeping
    }
  }

  datatype Slot = Slot(cpu: nat, task: Task)

  type Records = map<Task, Rec>

  /** `ran` is the dictionary from CPUs to running tasks, in insertion order. */
  datatype State = State(queues: seq<seq<Task>>, ran: seq<Slot>, recs: Records)

  // ---- All tasks of a state ----

  function QueuedTasks(queues: seq<seq<Task>>): multiset<Task> {
    if queues == [] then multiset{} else QueuedTasks(queues[..|queues| - 1]) + multiset(queues[|queues| - 1])
  }

  function TasksOf(ran: seq<Slot>): seq<Task> { seq(|ran|, k requires 0 <= k < |ran| => ran[k].task) }

  function RanTasks(ran: seq<Slot>): multiset<Task> { multiset(TasksOf(ran)) }

  function Tasks(s: State): multiset<Task> { QueuedTasks(s.queues) + RanTasks(s.ran) }

  /** Every task has a record and is in one place only. */
  ghost predicate Known(s: State) {
    forall t :: t in Tasks(s) ==> t in s.recs && Tasks(s)[t] == 1
  }

  predicate CpuOrNone(c: Option<nat>, cpus: nat) { c.Some? ==> c.value < cpus }

  /** What every step keeps: 128 queues, tasks in one place, running tasks on distinct CPUs to which
    * they have affinity, and no CPU number out of range. */
  ghost predicate Good(s: State, cpus: nat) {
    && |s.queues| == QUEUES
    && Known(s)
    && OnDistinctCpus(s.ran)
    && (forall k: nat :: k < |s.ran| ==> SlotFits(s, k, cpus))
    && CpusInRange(s.recs, cpus)
  }

  ghost predicate CpusInRange(recs: Records, cpus: nat) {
    forall t :: t in recs ==> CpuOrNone(recs[t].affinity, cpus) && CpuOrNone(recs[t].oldCpu, cpus)
  }

  ghost predicate OnDistinctCpus(ran: seq<Slot>) {
    forall j: nat, k: nat :: j < k < |ran| ==> ran[j].cpu != ran[k].cpu
  }

  predicate SlotFits(s: State, k: nat, cpus: nat)
    requires k < |s.ran|
  {
    var slot := s.ran[k];
    slot.cpu < cpus && slot.task in s.recs && s.recs[slot.task].affinity == Some(slot.cpu)
  }

  ghost predicate Recorded(s: State, q: nat)
    requires q < |s.queues|
  {
    forall k: nat :: k < |s.queues[q]| ==> s.queues[q][k] in s.recs
  }

  ghost predicate AllRecorded(s: State) {
    forall q: nat :: q < |s.queues| ==> Recorded(s, q)
  }

  lemma {:induction false} QueuedIn(queues: seq<seq<Task>>, q: nat, k: nat)
    requires q < |queues| && k < |queues[q]|
    ensures queues[q][k] in QueuedTasks(queues)
    decreases |queues|
  {
    var n := |queues| - 1;
    if q < n {
      QueuedIn(queues[..n], q, k);
    }
  }

  lemma RanIn(ran: seq<Slot>, k: nat)
    requires k < |ran|
    ensures ran[k].task in RanTasks(ran)
  {
    assert TasksOf(ran)[k] == ran[k].task;
  }

  lemma KnownRecorded(s: State)
    requires Known(s)
    ensures AllRecorded(s)
  {
    forall q: nat, k: nat | q < |s.queues| && k < |s.queues[q]| ensures s.queues[q][k] in s.recs {
      QueuedIn(s.queues, q, k);
      assert s.queues[q][k] in Tasks(s);
    }
  }

  lemma Cancel(a: multiset<Task>, b: multiset<Task>, c: multiset<Task>)
    requires a + c == b + c
    ensures a == b
  {
    forall t: Task | t in a + b ensures a[t] == b[t] {
      assert (a + c)[t] == (b + c)[t];
    }
  }

  lemma Regroup(a: multiset<Task>, b: multiset<Task>, c: multiset<Task>, x: multiset<Task>, y: multiset<Task>)
    requires a + x == b + y
    ensures (a + c) + x == (b + c) + y
  {
    assert (a + c) + x == (a + x) + c;
    assert (b + c) + y == (b + y) + c;
  }

  /** Replacing one queue replaces its tasks. */
  lemma {:induction false} ReplaceQueue(queues: seq<seq<Task>>, q: nat, queue: seq<Task>)
    requires q < |queues|
    ensures QueuedTasks(queues[q := queue]) + multiset(queues[q]) == QueuedTasks(queues) + multiset(queue)
    decreases |queues|
  {
    var n := |queues| - 1;
    var r := queues[q := queue];
    if q < n {
      assert r[..n] == queues[..n][q := queue];
      ReplaceQueue(queues[..n], q, queue);
      Regroup(QueuedTasks(r[..n]), QueuedTasks(queues[..n]), multiset(queues[n]), multiset(queues[q]), multiset(queue));
    } else {
      assert r[..n] == queues[..n];
    }
  }

  lemma AppendToQueue(queues: seq<seq<Task>>, q: nat, t: Task)
    requires q < |queues|
    ensures QueuedTasks(queues[q := queues[q] + [t]]) == QueuedTasks(queues) + multiset{t}
  {
    var queue := queues[q] + [t];
    ReplaceQueue(queues, q, queue);
    var a, b, c: multiset<Task> := QueuedTasks(queues[q := queue]), QueuedTasks(queues), multiset(queues[q]);
    assert multiset(queue) == c + multiset{t};
    assert (b + multiset{t}) + c == b + (c + multiset{t});
    Cancel(a, b + multiset{t}, c);
  }

  function Without(queue: seq<Task>, k: nat): seq<Task>
    requires k < |queue|
  {
    queue[..k] + queue[k + 1..]
  }

  lemma WithoutTasks(queue: seq<Task>, k: nat)
    requires k < |queue|
    ensures multiset(Without(queue, k)) + multiset{queue[k]} == multiset(queue)
  {
    assert queue == queue[..k] + [queue[k]] + queue[k + 1..];
  }

  // ---- Picking a task for a CPU ----

  predicate Matches(r: Rec, cpu: nat) { r.affinity == None || r.affinity == Some(cpu) }

  /** The first task of a queue whose affinity is unset or this CPU; |queue| when there is none. */
  function Query(queue: seq<Task>, recs: Records, cpu: nat): (i: nat)
    requires forall k: nat :: k < |queue| ==> queue[k] in recs
    ensures i <= |queue|
    ensures i < |queue| ==> Matches(recs[queue[i]], cpu)
    ensures forall k: nat :: k < i ==> !Matches(recs[queue[k]], cpu)
  {
    QueryFrom(queue, recs, cpu, 0)
  }

  function QueryFrom(queue: seq<Task>, recs: Records, cpu: nat, from: nat): (i: nat)
    requires forall k: nat :: k < |queue| ==> queue[k] in recs
    requires from <= |queue|
    ensures from <= i <= |queue|
    ensures i < |queue| ==> Matches(recs[queue[i]], cpu)
    ensures forall k: nat :: from <= k < i ==> !Matches(recs[queue[k]], cpu)
    decreases |queue| - from
  {
    if from == |queue| || Matches(recs[queue[from]], cpu) then from else QueryFrom(queue, recs, cpu, from + 1)
  }

  /** Storing under a key of the dictionary: in place when the key is there, else at the end. */
  function Put(ran: seq<Slot>, cpu: nat, task: Task): seq<Slot> {
    var k := Find(ran, cpu);
    if k < |ran| then ran[k := Slot(cpu, task)] else ran + [Slot(cpu, task)]
  }

  function Find(ran: seq<Slot>, cpu: nat): (k: nat)
    ensures k <= |ran|
    ensures k < |ran| ==> ran[k].cpu == cpu
    ensures forall j: nat :: j < k ==> ran[j].cpu != cpu
  {
    if ran == [] then 0 else if ran[0].cpu == cpu then 0 else 1 + Find(ran[1..], cpu)
  }

  /** Task k of queue q goes to a CPU and gets affinity to it. */
  function Run(s: State, cpu: nat, q: nat, k: nat): (r: State)
    requires q < |s.queues| && k < |s.queues[q]| && s.queues[q][k] in s.recs
    ensures |r.queues| == |s.queues| && r.recs.Keys == s.recs.Keys
  {
    var t := s.queues[q][k];
    var r := s.recs[t];
    State(
      s.queues[q := Without(s.queues[q], k)],
      Put(s.ran, cpu, t),
      s.recs[t := r.(affinity := Some(cpu), cycles := r.cycles + 1)])
  }

  lemma RunRecorded(s: State, cpu: nat, q: nat, k: nat)
    requires AllRecorded(s) && q < |s.queues| && k < |s.queues[q]| && s.queues[q][k] in s.recs
    ensures AllRecorded(Run(s, cpu, q, k))
  {
    var r := Run(s, cpu, q, k);
    forall j: nat | j < |r.queues| ensures Recorded(r, j) {
      assert Recorded(s, j);
      forall i: nat | i < |r.queues[j]| ensures r.queues[j][i] in r.recs {
        assert r.queues[j][i] == s.queues[j][if j == q && k <= i then i + 1 else i];
      }
    }
  }

  /** A CPU that runs nothing yet takes a task: every task is still in one place. */
  lemma RunKeepsTasks(s: State, cpu: nat, q: nat, k: nat)
    requires q < |s.queues| && k < |s.queues[q]| && s.queues[q][k] in s.recs
    requires Find(s.ran, cpu) == |s.ran|
    ensures Tasks(Run(s, cpu, q, k)) == Tasks(s)
    ensures Run(s, cpu, q, k).ran == s.ran + [Slot(cpu, s.queues[q][k])]
  {
    var t := s.queues[q][k];
    var r := Run(s, cpu, q, k);
    ReplaceQueue(s.queues, q, Without(s.queues[q], k));
    WithoutTasks(s.queues[q], k);
    assert TasksOf(r.ran) == TasksOf(s.ran) + [t];
    var a, b, c := QueuedTasks(r.queues), QueuedTasks(s.queues), multiset(Without(s.queues[q], k));
    assert (a + multiset{t}) + c == a + (c + multiset{t}) == b + c;
    Cancel(a + multiset{t}, b, c);
    assert a + (RanTasks(s.ran) + multiset{t}) == (a + multiset{t}) + RanTasks(s.ran);
  }

  lemma RanAt(ran: seq<Slot>, t: Task) returns (k: nat)
    requires t in RanTasks(ran)
    ensures k < |ran| && ran[k].task == t
  {
    assert t in TasksOf(ran);
    k :| k < |TasksOf(ran)| && TasksOf(ran)[k] == t;
  }

  /** A queued task is not a running one. */
  lemma QueuedNotRan(s: State, q: nat, k: nat, j: nat)
    requires Known(s) && q < |s.queues| && k < |s.queues[q]| && j < |s.ran|
    ensures s.queues[q][k] != s.ran[j].task
  {
    QueuedIn(s.queues, q, k);
    RanIn(s.ran, j);
    var t := s.queues[q][k];
    assert t in Tasks(s) && Tasks(s)[t] == QueuedTasks(s.queues)[t] + RanTasks(s.ran)[t];
  }

  lemma RunKeepsGood(s: State, cpu: nat, q: nat, k: nat, cpus: nat)
    requires Good(s, cpus) && cpu < cpus && Find(s.ran, cpu) == |s.ran|
    requires q < |s.queues| && k < |s.queues[q]| && s.queues[q][k] in s.recs
    ensures Good(Run(s, cpu, q, k), cpus)
  {
    var r := Run(s, cpu, q, k);
    RunKeepsTasks(s, cpu, q, k);
    forall j: nat | j < |r.ran| ensures SlotFits(r, j, cpus) {
      if j < |s.ran| {
        assert SlotFits(s, j, cpus);
        QueuedNotRan(s, q, k, j);
      }
    }
  }
}
