/** Whole runs of the scheduler: no task is lost, and none waits for ever. */
module SchedulerRuns {
  import opened SchedulerModel
  import opened SchedulerTick
  import opened SchedulerFix
  import opened SchedulerUpdate

  /** Between cycles no task runs. */
  ghost predicate Rested(s: State, cpus: nat) {
    Good(s, cpus) && s.ran == []
  }

  function Ticked(s: State, cpus: nat): (r: State)
    requires Rested(s, cpus)
    ensures Good(r, cpus)
  {
    TickPlaces(s, cpus);
    Tick(s, cpus)
  }

  /** One cycle of the simulation. */
  function Cycle(s: State, cpus: nat): (r: State)
    requires Rested(s, cpus)
    ensures Rested(r, cpus) && Tasks(r) == Tasks(s)
  {
    TickPlaces(s, cpus);
    var fixed := Fix(Ticked(s, cpus), cpus).state;
    UpdateKeepsTasks(fixed, cpus);
    Update(fixed, cpus)
  }

  function After(s: State, cpus: nat, n: nat): (r: State)
    requires Rested(s, cpus)
    ensures Rested(r, cpus) && Tasks(r) == Tasks(s)
    decreases n
  {
    if n == 0 then s else After(Cycle(s, cpus), cpus, n - 1)
  }

  /** The tick of the cycle that starts in state s runs task t. */
  predicate RunsNow(s: State, cpus: nat, t: Task)
    requires Rested(s, cpus)
  {
    t in RanTasks(Ticked(s, cpus).ran)
  }

  // ---- One tick ----

  /** t runs, or waits in queue q at place p or before. */
  ghost predicate AtMost(s: State, t: Task, q: nat, p: int)
    requires q < |s.queues|
  {
    t in RanTasks(s.ran) || exists j: nat :: j <= p && WaitsAt(s, t, q, j)
  }

  predicate WaitsAt(s: State, t: Task, q: nat, j: nat)
    requires q < |s.queues|
  {
    j < |s.queues[q]| && s.queues[q][j] == t
  }

  lemma RanStays(a: seq<Slot>, b: seq<Slot>, t: Task)
    requires a <= b && t in RanTasks(a)
    ensures t in RanTasks(b)
  {
    var k := RanAt(a, t);
    assert b[k] == a[k];
    RanIn(b, k);
  }

  /** When task k of queue q is taken, a task of that queue behind it moves up one place. */
  lemma RunMoves(s: State, cpu: nat, q: nat, k: nat, t: Task, j: nat, cpus: nat)
    requires Good(s, cpus) && cpu < cpus && Idle(s, cpu)
    requires q < |s.queues| && k < |s.queues[q]| && s.queues[q][k] in s.recs && WaitsAt(s, t, q, j)
    ensures k == j ==> t in RanTasks(Run(s, cpu, q, k).ran)
    ensures k != j ==> WaitsAt(Run(s, cpu, q, k), t, q, if k < j then j - 1 else j)
    ensures k != j && t in s.recs ==>
      t in Run(s, cpu, q, k).recs && Run(s, cpu, q, k).recs[t].affinity == s.recs[t].affinity
  {
    var r := Run(s, cpu, q, k);
    RunStep(s, cpu, q, k, cpus);
    RanIn(r.ran, |s.ran|);
    if k != j && s.queues[q][k] == t {
      QueuedDiffer(s, q, j, k);
    }
  }

  lemma QueuedDiffer(s: State, q: nat, j: nat, k: nat)
    requires Known(s) && q < |s.queues| && j < |s.queues[q]| && k < |s.queues[q]| && j != k
    ensures s.queues[q][j] != s.queues[q][k]
  {
    var t := s.queues[q][j];
    QueuedIn(s.queues, q, j);
    assert t in Tasks(s);
    if t == s.queues[q][k] {
      Twice(s.queues[q], j, k);
      QueueWithin(s.queues, q, t);
    }
  }

  /** Some CPU of the list takes the first task that t's affinity lets it take. */
  predicate Wanted(r: Rec, chosen: seq<nat>) {
    chosen != [] && (r.affinity.Some? ==> r.affinity.value in chosen)
  }

  /** In the first pass t does not fall back, and moves up or runs when one of the CPUs wants it. */
  lemma {:induction false} FirstPassMoves(s: State, q: nat, chosen: seq<nat>, retried: seq<nat>,
      t: Task, j: nat, cpus: nat)
    requires Good(s, cpus) && AllRecorded(s) && q < |s.queues|
    requires Waiting(s, chosen + retried, cpus) && WaitsAt(s, t, q, j)
    ensures AtMost(FirstPass(s, q, chosen, retried).state, t, q, j)
    ensures t in s.recs && Wanted(s.recs[t], chosen) ==> AtMost(FirstPass(s, q, chosen, retried).state, t, q, j - 1)
    decreases |chosen|
  {
    if chosen != [] {
      var n := |chosen| - 1;
      var cpu := chosen[n];
      assert Recorded(s, q);
      assert chosen[..n] + [cpu] + retried == chosen + retried;
      assert (chosen + retried)[n] == cpu;
      var k := Query(s.queues[q], s.recs, cpu);
      if k < |s.queues[q]| {
        RunStep(s, cpu, q, k, cpus);
        RunRecorded(s, cpu, q, k);
        RunMoves(s, cpu, q, k, t, j, cpus);
        var s' := Run(s, cpu, q, k);
        StillWaiting(s, s', chosen[..n], cpu, retried, cpus);
        if k == j {
          FirstPassKeeps(s', q, chosen[..n], retried, cpus);
          RanStays(s'.ran, FirstPass(s', q, chosen[..n], retried).state.ran, t);
        } else {
          FirstPassMoves(s', q, chosen[..n], retried, t, if k < j then j - 1 else j, cpus);
        }
      } else {
        SwapWaiting(s, chosen[..n], cpu, retried, cpus);
        FirstPassMoves(s, q, chosen[..n], retried + [cpu], t, j, cpus);
      }
    }
  }

  lemma {:induction false} SecondPassMoves(s: State, q: nat, retried: seq<nat>, t: Task, j: nat, cpus: nat)
    requires Good(s, cpus) && AllRecorded(s) && q < |s.queues|
    requires Waiting(s, retried, cpus) && WaitsAt(s, t, q, j)
    ensures AtMost(SecondPass(s, q, retried).state, t, q, j)
    decreases |retried|
  {
    hide Known, Tasks, OnDistinctCpus, SlotFits, CpusInRange;
    if retried != [] {
      var n := |retried| - 1;
      var cpu := retried[n];
      assert Recorded(s, q);
      RunStep(s, cpu, q, 0, cpus);
      RunRecorded(s, cpu, q, 0);
      RunMoves(s, cpu, q, 0, t, j, cpus);
      var s' := Run(s, cpu, q, 0);
      assert retried[..n] + [cpu] + [] == retried && retried[..n] + [] == retried[..n];
      StillWaiting(s, s', retried[..n], cpu, [], cpus);
      if j == 0 {
        SecondPassKeeps(s', q, retried[..n], cpus);
        RanStays(s'.ran, SecondPass(s', q, retried[..n]).state.ran, t);
      } else {
        SecondPassMoves(s', q, retried[..n], t, j - 1, cpus);
      }
    }
  }

  /** Both passes over t's own queue. */
  lemma PassesMove(s: State, q: nat, chosen: seq<nat>, t: Task, j: nat, cpus: nat)
    requires Good(s, cpus) && AllRecorded(s) && q < |s.queues|
    requires Waiting(s, chosen, cpus) && WaitsAt(s, t, q, j) && t in s.recs
    ensures AtMost(Passes(s, q, chosen).state, t, q, if Wanted(s.recs[t], chosen) then j - 1 else j)
  {
    var p := if Wanted(s.recs[t], chosen) then j - 1 else j;
    assert chosen + [] == chosen;
    FirstPassMoves(s, q, chosen, [], t, j, cpus);
    FirstPassKeeps(s, q, chosen, [], cpus);
    var first := FirstPass(s, q, chosen, []);
    if t in RanTasks(first.state.ran) {
      SecondPassKeeps(first.state, q, first.left, cpus);
      RanStays(first.state.ran, SecondPass(first.state, q, first.left).state.ran, t);
    } else {
      var i: nat :| i <= p && WaitsAt(first.state, t, q, i);
      SecondPassMoves(first.state, q, first.left, t, i, cpus);
    }
  }

  lemma TickFromStays(s: State, q: nat, chosen: seq<nat>, t: Task, i: nat, p: int, cpus: nat)
    requires Good(s, cpus) && AllRecorded(s) && i < q <= |s.queues|
    requires Waiting(s, chosen, cpus) && AtMost(s, t, i, p)
    ensures AtMost(TickFrom(s, q, chosen), t, i, p)
  {
    TickFromKeeps(s, q, chosen, cpus);
    var r := TickFrom(s, q, chosen);
    if t in RanTasks(s.ran) {
      RanStays(s.ran, r.ran, t);
    } else {
      var j: nat :| j <= p && WaitsAt(s, t, i, j);
      assert WaitsAt(r, t, i, j);
    }
  }

  /** In a tick a waiting task does not fall back; in the first queue of the tick it moves up or runs
    * when one of the CPUs wants it. */
  lemma {:induction false} TickFromMoves(s: State, from: nat, chosen: seq<nat>, t: Task, q: nat, j: nat, cpus: nat)
    requires Good(s, cpus) && AllRecorded(s) && from <= q < |s.queues|
    requires Waiting(s, chosen, cpus) && WaitsAt(s, t, q, j) && t in s.recs
    ensures AtMost(TickFrom(s, from, chosen), t, q, if from == q && Wanted(s.recs[t], chosen) then j - 1 else j)
    decreases |s.queues| - from
  {
    var pass := Passes(s, from, chosen);
    PassesKeep(s, from, chosen, cpus);
    if from == q {
      PassesMove(s, q, chosen, t, j, cpus);
      if pass.left != [] {
        TickFromStays(pass.state, q + 1, pass.left, t, q, if Wanted(s.recs[t], chosen) then j - 1 else j, cpus);
      }
    } else {
      assert WaitsAt(pass.state, t, q, j);
      if pass.left != [] {
        QueuedIn(pass.state.queues, q, j);
        assert t in Tasks(pass.state);
        TickFromMoves(pass.state, from + 1, pass.left, t, q, j, cpus);
      }
    }
  }

  lemma TickMoves(s: State, q: nat, j: nat, cpus: nat)
    requires Rested(s, cpus) && q < QUEUES && j < |s.queues[q]| && 0 < cpus
    ensures AllRecorded(s)
    ensures AtMost(Tick(s, cpus), s.queues[q][j], q, if q == 0 then j - 1 else j)
  {
    var t := s.queues[q][j];
    KnownRecorded(s);
    assert Recorded(s, q);
    AllWaiting(s, cpus);
    assert Wanted(s.recs[t], Cpus(cpus)) by {
      assert Cpus(cpus)[0] == 0;
      if s.recs[t].affinity.Some? {
        assert Cpus(cpus)[s.recs[t].affinity.value] == s.recs[t].affinity.value;
      }
    }
    TickFromMoves(s, 0, Cpus(cpus), t, q, j, cpus);
  }

  // ---- One cycle ----

  /** Where a task that does not run in a cycle waits after it: one queue down, or further up in the
    * first queue. */
  lemma CycleMoves(s: State, q: nat, j: nat, cpus: nat) returns (to: nat, at: nat)
    requires Rested(s, cpus) && q < QUEUES && j < |s.queues[q]| && 0 < cpus
    requires !RunsNow(s, cpus, s.queues[q][j])
    ensures to == (if q == 0 then 0 else q - 1)
    ensures WaitsAt(Cycle(s, cpus), s.queues[q][j], to, at)
    ensures q == 0 ==> at < j
  {
    var t := s.queues[q][j];
    TickPlaces(s, cpus);
    TickMoves(s, q, j, cpus);
    var ticked := Tick(s, cpus);
    var i: nat :| i <= (if q == 0 then j - 1 else j) && WaitsAt(ticked, t, q, i);
    FixSettles(ticked, cpus);
    var fixed := Fix(ticked, cpus).state;
    UpdateMoves(fixed, cpus, q, i);
    to := if q == 0 then 0 else q - 1;
    at := if q == 1 then |fixed.queues[0]| + i else i;
  }

  // ---- What a cycle makes of the tasks that run ----

  /** A task that the tick put away from the CPU it last ran on, though that one is busy, runs elsewhere in this cycle;
    * when the tick did that to none, each runs where it was put. */
  lemma CycleRehomes(s: State, cpus: nat, c: nat)
    requires Rested(s, cpus) && Runs(Ticked(s, cpus), c)
    ensures var k := Ticked(s, cpus);
      var t := TaskOn(k, c);
      && t in Cycle(s, cpus).recs && Cycle(s, cpus).recs[t].oldCpu.Some?
      && (Away(k, c) ==> Cycle(s, cpus).recs[t].oldCpu != Some(c))
      && ((forall a: nat :: !Away(k, a)) ==> Cycle(s, cpus).recs[t].oldCpu == Some(c))
  {
    hide Good, Ticked, Fix, Update, Away;
    var k := Ticked(s, cpus);
    var t := TaskOn(k, c);
    var r := Fix(k, cpus).state;
    FixSettles(k, cpus);
    FixLeaves(k, cpus, c);
    assert TasksOf(k.ran)[Find(k.ran, c)] in RanTasks(k.ran);
    var m: nat :| m < |r.ran| && TasksOf(r.ran)[m] == t;
    UpdateRan(r, cpus, m);
    FindOf(r, m, cpus);
    var n := Find(k.ran, c);
    if r == k && m != n {
      RanDistinct(k, cpus);
    }
  }

  lemma FindOf(s: State, m: nat, cpus: nat)
    requires Good(s, cpus) && m < |s.ran|
    ensures Find(s.ran, s.ran[m].cpu) == m
  {
  }

  // ---- No starvation ----

  /** How many cycles a task at place j of queue q waits at most, among n tasks. */
  function Patience(q: nat, j: nat, n: nat): nat { if q == 0 then j + 1 else q + n }

  lemma PlaceBound(s: State, q: nat, j: nat)
    requires q < |s.queues| && j < |s.queues[q]|
    ensures j < |Tasks(s)|
  {
    QueueSize(s.queues, q);
  }

  lemma {:induction false} QueueSize(queues: seq<seq<Task>>, q: nat)
    requires q < |queues|
    ensures |queues[q]| <= |QueuedTasks(queues)|
    decreases |queues|
  {
    var n := |queues| - 1;
    if q < n {
      QueueSize(queues[..n], q);
    }
  }

  lemma {:induction false} RunsWithin(s: State, cpus: nat, q: nat, j: nat) returns (k: nat)
    requires Rested(s, cpus) && q < QUEUES && j < |s.queues[q]| && 0 < cpus
    ensures k < Patience(q, j, |Tasks(s)|)
    ensures RunsNow(After(s, cpus, k), cpus, s.queues[q][j])
    decreases Patience(q, j, |Tasks(s)|)
  {
    hide Known, Tasks, RunsNow, Cycle, OnDistinctCpus, SlotFits, CpusInRange;
    PlaceBound(s, q, j);
    if RunsNow(s, cpus, s.queues[q][j]) {
      k := 0;
    } else {
      var to, at := CycleMoves(s, q, j, cpus);
      PlaceBound(Cycle(s, cpus), to, at);
      var rest := RunsWithin(Cycle(s, cpus), cpus, to, at);
      k := rest + 1;
    }
  }

  /** No starvation: with at least one CPU and n tasks, a task waiting in queue q runs within q + n
    * cycles. */
  lemma NoStarvation(s: State, cpus: nat, q: nat, j: nat)
    requires Rested(s, cpus) && q < QUEUES && j < |s.queues[q]| && 0 < cpus
    ensures exists k: nat :: k < q + |Tasks(s)| && RunsNow(After(s, cpus, k), cpus, s.queues[q][j])
  {
    PlaceBound(s, q, j);
    var k := RunsWithin(s, cpus, q, j);
  }
}
