/** The end of a cycle: queues age by one level, waiting tasks gain priority, and the tasks that ran
  * go back to the queues. */
module SchedulerUpdate {
  import opened SchedulerModel
  import opened SchedulerTick
  import opened SchedulerFix

  /** Every queue takes over the next one; the first takes it in behind its own tasks. */
  function Shift(queues: seq<seq<Task>>): (r: seq<seq<Task>>)
    requires 2 <= |queues|
    ensures |r| == |queues|
  {
    [queues[0] + queues[1]] + queues[2..] + [[]]
  }

  lemma {:induction false} QueuedConcat(a: seq<seq<Task>>, b: seq<seq<Task>>)
    ensures QueuedTasks(a + b) == QueuedTasks(a) + QueuedTasks(b)
    decreases |b|
  {
    if b == [] {
      assert a + b == a;
    } else {
      var n := |b| - 1;
      assert (a + b)[..|a + b| - 1] == a + b[..n];
      QueuedConcat(a, b[..n]);
    }
  }

  lemma QueuedOne(queue: seq<Task>)
    ensures QueuedTasks([queue]) == multiset(queue)
  {
    assert [queue][..0] == [];
  }

  lemma TwoQueues(a: seq<Task>, b: seq<Task>)
    ensures QueuedTasks([a] + [b]) == QueuedTasks([a + b]) == multiset(a) + multiset(b)
  {
    hide QueuedTasks;
    QueuedConcat([a], [b]);
    QueuedOne(a);
    QueuedOne(b);
    QueuedOne(a + b);
    assert multiset(a + b) == multiset(a) + multiset(b);
  }

  lemma JoinedTasks(a: seq<Task>, b: seq<Task>, rest: seq<seq<Task>>)
    ensures QueuedTasks([a] + [b] + rest) == QueuedTasks([a + b] + rest + [[]])
  {
    hide QueuedTasks;
    TwoQueues(a, b);
    QueuedConcat([a] + [b], rest);
    QueuedConcat([a + b], rest);
    QueuedConcat([a + b] + rest, [[]]);
    QueuedOne([]);
  }

  lemma FirstTwo<T>(s: seq<T>)
    requires 2 <= |s|
    ensures [s[0]] + [s[1]] + s[2..] == s
  {
  }

  lemma ShiftKeepsTasks(queues: seq<seq<Task>>)
    requires 2 <= |queues|
    ensures QueuedTasks(Shift(queues)) == QueuedTasks(queues)
  {
    hide QueuedTasks;
    FirstTwo(queues);
    JoinedTasks(queues[0], queues[1], queues[2..]);
  }

  /** The total depriority of the waiting tasks. */
  function QueueSum(queue: seq<Task>, recs: Records): int
    requires forall k: nat :: k < |queue| ==> queue[k] in recs
  {
    if queue == [] then 0
    else QueueSum(queue[..|queue| - 1], recs) + recs[queue[|queue| - 1]].Depriority()
  }

  function Sum(s: State, n: nat): int
    requires AllRecorded(s) && n <= |s.queues|
  {
    if n == 0 then 0
    else
      assert Recorded(s, n - 1);
      Sum(s, n - 1) + QueueSum(s.queues[n - 1], s.recs)
  }

  /** The quotient rounded up. */
  function CeilDiv(a: int, c: nat): int
    requires 0 < c
  {
    0 - (0 - a) / c
  }

  lemma CeilDivBounds(a: int, c: nat)
    requires 0 < c
    ensures (CeilDiv(a, c) - 1) * c < a <= CeilDiv(a, c) * c
  {
  }

  function Count(s: State): nat { Queued(s.queues, 0) + |s.ran| }

  /** What a waiting task's sleeping grows by, its base priority aside. */
  function Drift(s: State): int
    requires AllRecorded(s)
  {
    if Count(s) == 0 then 0 else CeilDiv(Sum(s, |s.queues|), Count(s))
  }

  function Slept(r: Rec, drift: int): Rec { r.(sleeping := r.sleeping + drift + r.base) }

  /** The records after the tasks of a set slept. */
  function Aged(recs: Records, waiting: set<Task>, drift: int): Records {
    map t | t in recs :: if t in waiting then Slept(recs[t], drift) else recs[t]
  }

  function QueuedSet(queues: seq<seq<Task>>): set<Task> {
    set q: nat, k: nat | q < |queues| && k < |queues[q]| :: queues[q][k]
  }

  /** The tasks before place k of queue q, queue by queue. */
  function Before(queues: seq<seq<Task>>, q: nat, k: nat): set<Task> {
    set a: nat, b: nat | a < |queues| && b < |queues[a]| && (a < q || (a == q && b < k)) :: queues[a][b]
  }

  lemma BeforeStep(queues: seq<seq<Task>>, q: nat, k: nat)
    requires q < |queues| && k < |queues[q]|
    ensures Before(queues, q, k + 1) == Before(queues, q, k) + {queues[q][k]}
  {
  }

  lemma BeforeRow(queues: seq<seq<Task>>, q: nat)
    requires q < |queues|
    ensures Before(queues, q, |queues[q]|) == Before(queues, q + 1, 0)
  {
  }

  lemma BeforeAll(queues: seq<seq<Task>>)
    ensures Before(queues, 0, 0) == {} && Before(queues, |queues|, 0) == QueuedSet(queues)
  {
  }

  /** A task waits in one place only. */
  lemma NotBefore(s: State, q: nat, k: nat)
    requires Known(s) && q < |s.queues| && k < |s.queues[q]|
    ensures s.queues[q][k] !in Before(s.queues, q, k)
  {
    var t := s.queues[q][k];
    if t in Before(s.queues, q, k) {
      var a: nat, b: nat :|
        a < |s.queues| && b < |s.queues[a]| && (a < q || (a == q && b < k)) && s.queues[a][b] == t;
      QueuedIn(s.queues, q, k);
      assert t in Tasks(s);
      if a == q {
        Twice(s.queues[q], b, k);
        QueueWithin(s.queues, q, t);
      } else {
        TwoQueuesWithin(s.queues, a, q, t);
      }
    }
  }

  lemma {:induction false} QueueWithin(queues: seq<seq<Task>>, q: nat, t: Task)
    requires q < |queues|
    ensures multiset(queues[q])[t] <= QueuedTasks(queues)[t]
    decreases |queues|
  {
    var n := |queues| - 1;
    if q < n {
      QueueWithin(queues[..n], q, t);
    }
  }

  lemma {:induction false} TwoQueuesWithin(queues: seq<seq<Task>>, a: nat, q: nat, t: Task)
    requires a < q < |queues|
    ensures multiset(queues[a])[t] + multiset(queues[q])[t] <= QueuedTasks(queues)[t]
    decreases |queues|
  {
    var n := |queues| - 1;
    if q < n {
      TwoQueuesWithin(queues[..n], a, q, t);
    } else {
      QueueWithin(queues[..n], a, t);
    }
  }

  lemma AgedStep(recs: Records, done: set<Task>, t: Task, drift: int)
    requires t in recs && t !in done
    ensures t in Aged(recs, done, drift) && Aged(recs, done, drift)[t] == recs[t]
    ensures Aged(recs, done + {t}, drift) == Aged(recs, done, drift)[t := Slept(recs[t], drift)]
  {
  }

  function QueueId(r: Rec): (q: nat)
    ensures q < QUEUES
  {
    var d := r.Depriority() - 1;
    if d < 0 then 0 else if d > 127 then 127 else d
  }

  /** A task's record after it ran. */
  function Ran(r: Rec, cpu: nat): Rec { r.(running := r.running + 1, oldCpu := Some(cpu)) }

  /** A task that ran goes to the end of the queue of its new depriority. */
  function Requeue(queues: seq<seq<Task>>, recs: Records, slot: Slot): (r: State)
    requires |queues| == QUEUES && slot.task in recs
    ensures |r.queues| == QUEUES && r.recs.Keys == recs.Keys
  {
    var ran := Ran(recs[slot.task], slot.cpu);
    var q := QueueId(ran);
    State(queues[q := queues[q] + [slot.task]], [], recs[slot.task := ran])
  }

  function RequeueAll(queues: seq<seq<Task>>, recs: Records, ran: seq<Slot>): (r: State)
    requires |queues| == QUEUES
    requires forall k: nat :: k < |ran| ==> ran[k].task in recs
    ensures |r.queues| == QUEUES && r.ran == [] && r.recs.Keys == recs.Keys
    decreases |ran|
  {
    if ran == [] then State(queues, [], recs)
    else
      var s := Requeue(queues, recs, ran[0]);
      RequeueAll(s.queues, s.recs, ran[1..])
  }

  function Shifted(s: State): (r: State)
    requires |s.queues| == QUEUES
    ensures |r.queues| == QUEUES
  {
    s.(queues := Shift(s.queues))
  }

  /** update_runned_tasks. */
  function Update(s: State, cpus: nat): (r: State)
    requires Good(s, cpus)
    ensures r.ran == [] && |r.queues| == QUEUES
  {
    ShiftedGood(s, cpus);
    var m := Shifted(s);
    RequeueAll(m.queues, Aged(m.recs, QueuedSet(m.queues), Drift(m)), m.ran)
  }

  lemma ShiftedGood(s: State, cpus: nat)
    requires Good(s, cpus)
    ensures Good(Shifted(s), cpus) && AllRecorded(Shifted(s)) && Tasks(Shifted(s)) == Tasks(s)
    ensures forall k: nat :: k < |s.ran| ==> s.ran[k].task in s.recs
  {
    ShiftKeepsTasks(s.queues);
    var m := Shifted(s);
    forall k: nat | k < |s.ran| ensures SlotFits(m, k, cpus) {
      assert SlotFits(s, k, cpus);
    }
    KnownRecorded(m);
    forall k: nat | k < |s.ran| ensures s.ran[k].task in s.recs {
      assert SlotFits(s, k, cpus);
    }
  }

  // ---- Every task is still there ----

  lemma RequeueKeepsTasks(queues: seq<seq<Task>>, recs: Records, slot: Slot)
    requires |queues| == QUEUES && slot.task in recs
    ensures QueuedTasks(Requeue(queues, recs, slot).queues) == QueuedTasks(queues) + multiset{slot.task}
  {
    AppendToQueue(queues, QueueId(Ran(recs[slot.task], slot.cpu)), slot.task);
  }

  lemma {:induction false} RequeueAllKeepsTasks(queues: seq<seq<Task>>, recs: Records, ran: seq<Slot>)
    requires |queues| == QUEUES
    requires forall k: nat :: k < |ran| ==> ran[k].task in recs
    ensures QueuedTasks(RequeueAll(queues, recs, ran).queues) == QueuedTasks(queues) + RanTasks(ran)
    decreases |ran|
  {
    if ran == [] {
      assert TasksOf(ran) == [];
    } else {
      var s := Requeue(queues, recs, ran[0]);
      RequeueKeepsTasks(queues, recs, ran[0]);
      RequeueAllKeepsTasks(s.queues, s.recs, ran[1..]);
      assert TasksOf(ran) == [ran[0].task] + TasksOf(ran[1..]);
    }
  }

  lemma {:induction false} RequeueAllKeepsCpus(queues: seq<seq<Task>>, recs: Records, ran: seq<Slot>, cpus: nat)
    requires |queues| == QUEUES && CpusInRange(recs, cpus)
    requires forall k: nat :: k < |ran| ==> ran[k].task in recs && ran[k].cpu < cpus
    ensures CpusInRange(RequeueAll(queues, recs, ran).recs, cpus)
    decreases |ran|
  {
    if ran != [] {
      var s := Requeue(queues, recs, ran[0]);
      RequeueAllKeepsCpus(s.queues, s.recs, ran[1..], cpus);
    }
  }

  /** update_runned_tasks loses no task and duplicates none. */
  lemma UpdateKeepsTasks(s: State, cpus: nat)
    requires Good(s, cpus)
    ensures Good(Update(s, cpus), cpus) && Tasks(Update(s, cpus)) == Tasks(s)
  {
    hide QueuedTasks, RequeueAll, Requeue, Drift;
    ShiftedGood(s, cpus);
    var m := Shifted(s);
    var recs := Aged(m.recs, QueuedSet(m.queues), Drift(m));
    RequeueAllKeepsTasks(m.queues, recs, m.ran);
    forall k: nat | k < |m.ran| ensures m.ran[k].task in recs && m.ran[k].cpu < cpus {
      assert SlotFits(m, k, cpus);
    }
    RequeueAllKeepsCpus(m.queues, recs, m.ran, cpus);
    var r := Update(s, cpus);
    assert TasksOf(r.ran) == [];
    assert r.recs.Keys == s.recs.Keys;
  }

  // ---- Where a waiting task goes ----

  lemma {:induction false} RequeueAllAppends(queues: seq<seq<Task>>, recs: Records, ran: seq<Slot>, q: nat)
    requires |queues| == QUEUES && q < QUEUES
    requires forall k: nat :: k < |ran| ==> ran[k].task in recs
    ensures queues[q] <= RequeueAll(queues, recs, ran).queues[q]
    decreases |ran|
  {
    if ran != [] {
      var s := Requeue(queues, recs, ran[0]);
      RequeueAllAppends(s.queues, s.recs, ran[1..], q);
    }
  }

  /** A waiting task moves down one queue, keeping its place; into the first queue it comes behind the
    * tasks that were there. */
  lemma UpdateMoves(s: State, cpus: nat, q: nat, p: nat)
    requires Good(s, cpus) && q < QUEUES && p < |s.queues[q]|
    ensures var r := Update(s, cpus);
      var to, at := if q == 0 then 0 else q - 1, if q == 1 then |s.queues[0]| + p else p;
      at < |r.queues[to]| && r.queues[to][at] == s.queues[q][p]
  {
    hide QueuedTasks, RanTasks, QueuedSet, Drift, Good;
    ShiftedGood(s, cpus);
    var m := Shifted(s);
    var recs := Aged(m.recs, QueuedSet(m.queues), Drift(m));
    RequeueAllAppends(m.queues, recs, m.ran, if q == 0 then 0 else q - 1);
  }

  // ---- What the update does to a task ----

  ghost predicate RunsNot(ran: seq<Slot>, t: Task) {
    forall k: nat :: k < |ran| ==> ran[k].task != t
  }

  lemma {:induction false} RequeueAllSpares(queues: seq<seq<Task>>, recs: Records, ran: seq<Slot>, t: Task)
    requires |queues| == QUEUES && t in recs && RunsNot(ran, t)
    requires forall k: nat :: k < |ran| ==> ran[k].task in recs
    ensures RequeueAll(queues, recs, ran).recs[t] == recs[t]
    decreases |ran|
  {
    if ran != [] {
      var s := Requeue(queues, recs, ran[0]);
      RequeueAllSpares(s.queues, s.recs, ran[1..], t);
    }
  }

  lemma {:induction false} RequeueAllCounts(queues: seq<seq<Task>>, recs: Records, ran: seq<Slot>, k: nat)
    requires |queues| == QUEUES && k < |ran|
    requires forall j: nat :: j < |ran| ==> ran[j].task in recs
    requires forall i: nat, j: nat :: i < j < |ran| ==> ran[i].task != ran[j].task
    ensures var r, t := RequeueAll(queues, recs, ran), ran[k].task;
      r.recs[t] == Ran(recs[t], ran[k].cpu) && t in r.queues[QueueId(r.recs[t])]
    decreases |ran|
  {
    var s := Requeue(queues, recs, ran[0]);
    if k == 0 {
      var t := ran[0].task;
      var q := QueueId(Ran(recs[t], ran[0].cpu));
      RequeueAllSpares(s.queues, s.recs, ran[1..], t);
      RequeueAllAppends(s.queues, s.recs, ran[1..], q);
      assert s.queues[q][|queues[q]|] == t;
    } else {
      RequeueAllCounts(s.queues, s.recs, ran[1..], k - 1);
    }
  }

  lemma UpdateSlept(s: State, cpus: nat, q: nat, p: nat)
    requires Good(s, cpus) && q < QUEUES && p < |s.queues[q]|
    ensures AllRecorded(Shifted(s))
    ensures var t := s.queues[q][p];
      t in s.recs && t in Update(s, cpus).recs && Update(s, cpus).recs[t] == Slept(s.recs[t], Drift(Shifted(s)))
  {
    hide QueuedTasks, RanTasks, TasksOf, Tasks, RequeueAll, Requeue, Drift, Known, SlotFits;
    var t, m := s.queues[q][p], Shifted(s);
    ShiftedGood(s, cpus);
    var to, at := if q == 0 then 0 else q - 1, if q == 1 then |s.queues[0]| + p else p;
    assert m.queues[to][at] == t;
    assert Recorded(m, to);
    var recs := Aged(m.recs, QueuedSet(m.queues), Drift(m));
    forall k: nat | k < |m.ran| ensures m.ran[k].task != t {
      QueuedNotRan(m, to, at, k);
    }
    RequeueAllSpares(m.queues, recs, m.ran, t);
  }

  lemma UpdateRan(s: State, cpus: nat, k: nat)
    requires Good(s, cpus) && k < |s.ran|
    ensures var r, t := Update(s, cpus), s.ran[k].task;
      t in s.recs && t in r.recs && r.recs[t] == Ran(s.recs[t], s.ran[k].cpu) && t in r.queues[QueueId(r.recs[t])]
  {
    var t, m := s.ran[k].task, Shifted(s);
    ShiftedGood(s, cpus);
    var recs := Aged(m.recs, QueuedSet(m.queues), Drift(m));
    assert t !in QueuedSet(m.queues) by {
      forall q: nat, p: nat | q < |m.queues| && p < |m.queues[q]| ensures m.queues[q][p] != t {
        QueuedNotRan(m, q, p, k);
      }
    }
    forall i: nat, j: nat | i < j < |m.ran| ensures m.ran[i].task != m.ran[j].task {
      RanDiffer(m, i, j);
    }
    RequeueAllCounts(m.queues, recs, m.ran, k);
  }

  // ---- The mean, over the tasks themselves ----

  ghost function AnyOf(tasks: multiset<Task>): (t: Task)
    requires tasks != multiset{}
    ensures t in tasks
  {
    var t :| t in tasks;
    t
  }

  /** The total of base + running - sleeping over some tasks. */
  ghost function Total(tasks: multiset<Task>, recs: Records): int
    requires forall t :: t in tasks ==> t in recs
    decreases |tasks|
  {
    if tasks == multiset{} then 0
    else
      var t := AnyOf(tasks);
      Total(tasks - multiset{t}, recs) + recs[t].base + recs[t].running - recs[t].sleeping
  }

  /** It does not matter which task is taken first. */
  lemma {:induction false} TotalAdd(tasks: multiset<Task>, t: Task, recs: Records)
    requires t in recs && forall u :: u in tasks ==> u in recs
    ensures Total(tasks + multiset{t}, recs) == Total(tasks, recs) + recs[t].Depriority()
    decreases |tasks|
  {
    var all := tasks + multiset{t};
    assert t in all;
    var u := AnyOf(all);
    if u == t {
      assert all - multiset{t} == tasks;
    } else {
      var rest := tasks - multiset{u};
      assert all - multiset{u} == rest + multiset{t};
      assert tasks == rest + multiset{u};
      TotalAdd(rest, t, recs);
      TotalAdd(rest, u, recs);
    }
  }

  lemma {:induction false} TotalQueue(tasks: multiset<Task>, queue: seq<Task>, recs: Records)
    requires (forall u :: u in tasks ==> u in recs) && forall k: nat :: k < |queue| ==> queue[k] in recs
    ensures Total(tasks + multiset(queue), recs) == Total(tasks, recs) + QueueSum(queue, recs)
    decreases |queue|
  {
    hide Total;
    if queue == [] {
      assert tasks + multiset(queue) == tasks;
    } else {
      var n := |queue| - 1;
      TotalQueue(tasks, queue[..n], recs);
      TotalAdd(tasks + multiset(queue[..n]), queue[n], recs);
      assert queue == queue[..n] + [queue[n]];
      assert tasks + multiset(queue) == tasks + multiset(queue[..n]) + multiset{queue[n]};
    }
  }

  lemma {:induction false} WaitingRecorded(s: State, n: nat)
    requires AllRecorded(s) && n <= |s.queues|
    ensures forall t :: t in QueuedTasks(s.queues[..n]) ==> t in s.recs
    decreases n
  {
    if n > 0 {
      WaitingRecorded(s, n - 1);
      assert Recorded(s, n - 1);
      assert s.queues[..n][..n - 1] == s.queues[..n - 1];
    }
  }

  lemma {:induction false} SumIsTotal(s: State, n: nat)
    requires AllRecorded(s) && n <= |s.queues|
    ensures forall t :: t in QueuedTasks(s.queues[..n]) ==> t in s.recs
    ensures Sum(s, n) == Total(QueuedTasks(s.queues[..n]), s.recs)
    decreases n
  {
    hide Total, AllRecorded;
    WaitingRecorded(s, n);
    if n == 0 {
      NoTotal(s.recs);
    } else {
      SumIsTotal(s, n - 1);
      QueueRecorded(s, n - 1);
      assert s.queues[..n][..n - 1] == s.queues[..n - 1];
      TotalQueue(QueuedTasks(s.queues[..n - 1]), s.queues[n - 1], s.recs);
    }
  }

  lemma NoTotal(recs: Records)
    ensures Total(multiset{}, recs) == 0
  {
  }

  lemma QueueRecorded(s: State, q: nat)
    requires AllRecorded(s) && q < |s.queues|
    ensures forall k: nat :: k < |s.queues[q]| ==> s.queues[q][k] in s.recs
  {
    assert Recorded(s, q);
  }

  lemma {:induction false} QueuedSize(queues: seq<seq<Task>>, n: nat)
    requires n <= |queues|
    ensures |QueuedTasks(queues[..n])| + Queued(queues, n) == Queued(queues, 0)
    decreases n
  {
    if n > 0 {
      QueuedSize(queues, n - 1);
      assert queues[..n][..n - 1] == queues[..n - 1];
    }
  }

  lemma CountIsSize(s: State)
    ensures Count(s) == |Tasks(s)|
  {
    QueuedSize(s.queues, |s.queues|);
    assert s.queues[..|s.queues|] == s.queues;
    assert |RanTasks(s.ran)| == |s.ran|;
  }

  /** d is the mean of a total over n tasks, rounded up. */
  predicate IsMeanUp(d: int, total: int, n: nat) { (d - 1) * n < total <= d * n }

  /** A waiting task's sleeping grows by its base priority and by the total depriority of all waiting tasks over the
    * number of all tasks, rounded up; nothing else about it changes. */
  lemma UpdateAges(s: State, cpus: nat, q: nat, p: nat)
    requires Good(s, cpus) && q < QUEUES && p < |s.queues[q]|
    ensures forall t :: t in QueuedTasks(s.queues) ==> t in s.recs
    ensures var t, r := s.queues[q][p], Update(s, cpus);
      && t in s.recs && t in r.recs
      && var a, b := s.recs[t], r.recs[t];
      && IsMeanUp(b.sleeping - a.sleeping - a.base, Total(QueuedTasks(s.queues), s.recs), |Tasks(s)|)
      && b == Rec(a.base, a.running, b.sleeping, a.oldCpu, a.affinity, a.cycles)
  {
    hide Good, Total, Sum, Update, Queued, QueuedTasks, Shift;
    ShiftedTasks(s, cpus);
    var m := Shifted(s);
    UpdateSlept(s, cpus, q, p);
    SumIsTotal(m, |m.queues|);
    assert m.queues[..|m.queues|] == m.queues;
    CountIsSize(m);
    SomeTask(s, q, p);
    CeilDivBounds(Sum(m, |m.queues|), Count(m));
  }

  lemma ShiftedTasks(s: State, cpus: nat)
    requires Good(s, cpus)
    ensures |s.queues| == QUEUES
    ensures QueuedTasks(Shifted(s).queues) == QueuedTasks(s.queues) && Shifted(s).recs == s.recs
    ensures Tasks(Shifted(s)) == Tasks(s) && AllRecorded(Shifted(s))
  {
    ShiftedGood(s, cpus);
    ShiftKeepsTasks(s.queues);
  }

  lemma SomeTask(s: State, q: nat, p: nat)
    requires q < |s.queues| && p < |s.queues[q]|
    ensures 0 < |Tasks(s)|
  {
    QueuedIn(s.queues, q, p);
    assert s.queues[q][p] in Tasks(s);
  }

  // ---- Where the tasks that ran go ----

  /** A lower depriority never gives a higher queue, one more raises the queue by at most one, and up to 1 it is 0. */
  lemma QueueIdSteps(r: Rec, t: Rec)
    ensures r.base + r.running - r.sleeping <= t.base + t.running - t.sleeping ==> QueueId(r) <= QueueId(t)
    ensures r.base + r.running - r.sleeping + 1 == t.base + t.running - t.sleeping ==> QueueId(t) <= QueueId(r) + 1
    ensures r.base + r.running - r.sleeping <= 1 <==> QueueId(r) == 0
    ensures r.base + r.running - r.sleeping >= QUEUES <==> QueueId(r) == QUEUES - 1
  {
  }

  /** Of some tasks that ran, those that go to queue q, in order. */
  function Joining(recs: Records, ran: seq<Slot>, q: nat): seq<Task>
    requires forall k: nat :: k < |ran| ==> ran[k].task in recs
  {
    if ran == [] then []
    else
      (if QueueId(Ran(recs[ran[0].task], ran[0].cpu)) == q then [ran[0].task] else []) + Joining(recs, ran[1..], q)
  }

  ghost predicate Distinct(ran: seq<Slot>) {
    forall i: nat, j: nat :: i < j < |ran| ==> ran[i].task != ran[j].task
  }

  lemma {:induction false} JoiningSpares(recs: Records, ran: seq<Slot>, q: nat, t: Task, r: Rec)
    requires (forall k: nat :: k < |ran| ==> ran[k].task in recs) && RunsNot(ran, t)
    ensures Joining(recs[t := r], ran, q) == Joining(recs, ran, q)
    decreases |ran|
  {
    if ran != [] {
      JoiningSpares(recs, ran[1..], q, t, r);
    }
  }

  lemma {:induction false} RequeueAllJoins(queues: seq<seq<Task>>, recs: Records, ran: seq<Slot>, q: nat)
    requires |queues| == QUEUES && q < QUEUES && Distinct(ran)
    requires forall k: nat :: k < |ran| ==> ran[k].task in recs
    ensures RequeueAll(queues, recs, ran).queues[q] == queues[q] + Joining(recs, ran, q)
    decreases |ran|
  {
    if ran == [] {
      assert queues[q] + Joining(recs, ran, q) == queues[q];
    } else {
      var s := Requeue(queues, recs, ran[0]);
      JoinOne(queues, recs, ran, q);
      RequeueAllJoins(s.queues, s.recs, ran[1..], q);
    }
  }

  lemma JoinOne(queues: seq<seq<Task>>, recs: Records, ran: seq<Slot>, q: nat)
    requires |queues| == QUEUES && q < QUEUES && ran != [] && Distinct(ran)
    requires forall k: nat :: k < |ran| ==> ran[k].task in recs
    ensures var s := Requeue(queues, recs, ran[0]);
      s.queues[q] + Joining(s.recs, ran[1..], q) == queues[q] + Joining(recs, ran, q)
  {
    hide QueueId;
    var t := ran[0].task;
    var r := Ran(recs[t], ran[0].cpu);
    JoiningSpares(recs, ran[1..], q, t, r);
    var rest := Joining(recs, ran[1..], q);
    assert queues[q] + [t] + rest == queues[q] + ([t] + rest);
    assert queues[q] + ([] + rest) == queues[q] + rest;
  }

  /** The queue that the fields of a task say it belongs to. */
  predicate IsQueueOf(q: nat, r: Rec) {
    var d := r.base + r.running - r.sleeping - 1;
    if d < 0 then q == 0 else if d < QUEUES then q == d else q == QUEUES - 1
  }

  /** Each task that ran has run once more, remembers its CPU and is otherwise unchanged; the tasks that ran join the
    * queues of their new depriority in the order they started to run, behind the tasks that waited. */
  lemma UpdateCounts(s: State, cpus: nat, k: nat, q: nat)
    requires Good(s, cpus) && k < |s.ran| && q < QUEUES
    ensures var r, t := Update(s, cpus), s.ran[k].task;
      && t in s.recs && t in r.recs
      && var a := s.recs[t];
      && r.recs[t] == Rec(a.base, a.running + 1, a.sleeping, Some(s.ran[k].cpu), a.affinity, a.cycles)
      && (IsQueueOf(q, r.recs[t]) ==> t in r.queues[q])
    ensures forall j: nat :: j < |s.ran| ==> s.ran[j].task in s.recs
    ensures Update(s, cpus).queues[q] == Shift(s.queues)[q] + Joining(s.recs, s.ran, q)
  {
    hide Good, Shift, Aged, QueuedSet, QueueId, Drift;
    ShiftedTasks(s, cpus);
    ShiftedGood(s, cpus);
    UpdateRan(s, cpus, k);
    QueueIdIs(Update(s, cpus).recs[s.ran[k].task], q);
    var m := Shifted(s);
    RanDistinct(s, cpus);
    var recs := Aged(m.recs, QueuedSet(m.queues), Drift(m));
    RanNotAged(s, cpus);
    SameJoining(s.recs, recs, s.ran, q);
    RequeueAllJoins(m.queues, recs, m.ran, q);
  }

  lemma QueueIdIs(r: Rec, q: nat)
    requires q < QUEUES
    ensures IsQueueOf(q, r) <==> q == QueueId(r)
  {
  }

  lemma RanDistinct(s: State, cpus: nat)
    requires Good(s, cpus)
    ensures Distinct(s.ran)
  {
    forall i: nat, j: nat | i < j < |s.ran| ensures s.ran[i].task != s.ran[j].task {
      RanDiffer(s, i, j);
    }
  }

  lemma RanNotAged(s: State, cpus: nat)
    requires Good(s, cpus)
    ensures AllRecorded(Shifted(s))
    ensures var m := Shifted(s); var recs := Aged(m.recs, QueuedSet(m.queues), Drift(m));
      forall k: nat :: k < |s.ran| ==>
        s.ran[k].task in recs && s.ran[k].task in s.recs && recs[s.ran[k].task] == s.recs[s.ran[k].task]
  {
    hide Drift, Tasks, Shift;
    ShiftedGood(s, cpus);
    var m := Shifted(s);
    forall k: nat | k < |s.ran| ensures s.ran[k].task !in QueuedSet(m.queues) {
      forall q: nat, p: nat | q < |m.queues| && p < |m.queues[q]| ensures m.queues[q][p] != s.ran[k].task {
        QueuedNotRan(m, q, p, k);
      }
    }
  }

  lemma {:induction false} SameJoining(a: Records, b: Records, ran: seq<Slot>, q: nat)
    requires forall k: nat :: k < |ran| ==> ran[k].task in a && ran[k].task in b && a[ran[k].task] == b[ran[k].task]
    ensures Joining(a, ran, q) == Joining(b, ran, q)
    decreases |ran|
  {
    if ran != [] {
      SameJoining(a, b, ran[1..], q);
    }
  }
}
