/** Who takes what in a tick: the order of the CPUs, the first task that suits each, and what that does to a task. */
module SchedulerPicks {
  import opened Numbers
  import opened SchedulerModel
  import opened SchedulerTick
  import opened SchedulerFix

  /** The CPUs from the end of the list hold the tasks from the start of the queue, as many as there are of both. */
  ghost predicate TakesInOrder(s: State, q: nat, cpus: seq<nat>, r: Pass)
    requires q < |s.queues|
  {
    var m := Min(|cpus|, |s.queues[q]|);
    && r.left == cpus[..|cpus| - m] && q < |r.state.queues| && r.state.queues[q] == s.queues[q][m..]
    && |r.state.ran| == |s.ran| + m && s.ran <= r.state.ran
    && forall j: nat :: j < m ==> r.state.ran[|s.ran| + j] == Slot(cpus[|cpus| - 1 - j], s.queues[q][j])
  }

  /** The second round: the CPUs that are left, from the end of the list, take the tasks of the queue in order. */
  lemma {:induction false} SecondPassTakes(s: State, q: nat, retried: seq<nat>, cpus: nat)
    requires Good(s, cpus) && AllRecorded(s) && q < |s.queues| && Waiting(s, retried, cpus)
    ensures TakesInOrder(s, q, retried, SecondPass(s, q, retried))
    decreases |retried|
  {
    hide Good, Tasks, TakesInOrder, Waiting;
    if s.queues[q] == [] || retried == [] {
      TakesNothing(s, q, retried);
    } else {
      var n := |retried| - 1;
      var cpu := retried[n];
      assert Recorded(s, q);
      WaitingIdle(s, retried, n, cpus);
      RunStep(s, cpu, q, 0, cpus);
      RunRecorded(s, cpu, q, 0);
      var s' := Run(s, cpu, q, 0);
      assert retried[..n] + [cpu] + [] == retried && retried[..n] + [] == retried[..n];
      StillWaiting(s, s', retried[..n], cpu, [], cpus);
      SecondPassTakes(s', q, retried[..n], cpus);
      TakesOneMore(s, s', q, retried, SecondPass(s', q, retried[..n]));
    }
  }

  lemma TakesNothing(s: State, q: nat, retried: seq<nat>)
    requires q < |s.queues| && (s.queues[q] == [] || retried == [])
    ensures TakesInOrder(s, q, retried, Pass(s, retried))
  {
  }

  lemma TakesOneMore(s: State, t: State, q: nat, retried: seq<nat>, r: Pass)
    requires q < |s.queues| && s.queues[q] != [] && retried != []
    requires q < |t.queues| && t.queues[q] == s.queues[q][1..]
    requires t.ran == s.ran + [Slot(retried[|retried| - 1], s.queues[q][0])]
    requires TakesInOrder(t, q, retried[..|retried| - 1], r)
    ensures TakesInOrder(s, q, retried, r)
  {
    var m := Min(|retried|, |s.queues[q]|);
    forall j: nat | j < m
      ensures r.state.ran[|s.ran| + j] == Slot(retried[|retried| - 1 - j], s.queues[q][j])
    {
      if j == 0 {
        assert r.state.ran[|s.ran|] == t.ran[|s.ran|];
      } else {
        var cpu := retried[..|retried| - 1][|retried| - 2 - (j - 1)];
        assert r.state.ran[|t.ran| + (j - 1)] == Slot(cpu, t.queues[q][j - 1]);
      }
    }
  }

  // ---- The first round ----

  /** Task t is taken by cpu only if it suits it, in the fields it had before. */
  predicate Suits(recs: Records, t: Task, cpu: nat) {
    t in recs && (recs[t].affinity.Some? ==> recs[t].affinity.value == cpu)
  }

  /** What the first round has done to s so far: the tasks taken suit their CPUs, and none of the tasks that are left
    * suits a CPU that found nothing. */
  ghost predicate Served(s: State, q: nat, retried: seq<nat>, r: Pass)
    requires q < |s.queues|
  {
    && s.ran <= r.state.ran && retried <= r.left && q < |r.state.queues|
    && (forall k: nat :: |s.ran| <= k < |r.state.ran| ==>
         r.state.ran[k].task in s.queues[q] && Suits(s.recs, r.state.ran[k].task, r.state.ran[k].cpu))
    && (forall t :: t in r.state.queues[q] ==> t in s.queues[q])
    && forall j: nat, t :: |retried| <= j < |r.left| && t in r.state.queues[q] ==> !Suits(s.recs, t, r.left[j])
  }

  /** A run changes the record of the task that runs only. */
  lemma RunSpares(s: State, cpu: nat, q: nat, k: nat, cpus: nat, t: Task)
    requires Good(s, cpus) && q < |s.queues| && k < |s.queues[q]| && s.queues[q][k] in s.recs
    requires t in Without(s.queues[q], k)
    ensures t != s.queues[q][k] && t in s.queues[q]
    ensures Suits(Run(s, cpu, q, k).recs, t, cpu) <==> Suits(s.recs, t, cpu)
    ensures t in s.recs ==> Run(s, cpu, q, k).recs[t] == s.recs[t]
  {
    var j: nat :| j < |Without(s.queues[q], k)| && Without(s.queues[q], k)[j] == t;
    var i := if j < k then j else j + 1;
    assert s.queues[q][i] == t;
    QueuedDiffer(s, q, if i < k then i else k, if i < k then k else i);
  }

  lemma QueuedDiffer(s: State, q: nat, i: nat, j: nat)
    requires Known(s) && q < |s.queues| && i < j < |s.queues[q]|
    ensures s.queues[q][i] != s.queues[q][j]
  {
    QueuedIn(s.queues, q, i);
    assert s.queues[q][i] in Tasks(s);
    QueueAtMost(s.queues, q, s.queues[q][i]);
    if s.queues[q][i] == s.queues[q][j] {
      Twice(s.queues[q], i, j);
    }
  }

  lemma {:induction false} QueueAtMost(queues: seq<seq<Task>>, q: nat, t: Task)
    requires q < |queues|
    ensures multiset(queues[q])[t] <= QueuedTasks(queues)[t]
    decreases |queues|
  {
    var n := |queues| - 1;
    if q < n {
      QueueAtMost(queues[..n], q, t);
    }
  }

  /** The first round asks the CPUs from the end of the list; each takes the first task that suits it. */
  lemma {:induction false} FirstPassServes(s: State, q: nat, chosen: seq<nat>, retried: seq<nat>, cpus: nat)
    requires Good(s, cpus) && AllRecorded(s) && q < |s.queues| && Waiting(s, chosen + retried, cpus)
    ensures Served(s, q, retried, FirstPass(s, q, chosen, retried))
    ensures chosen != [] ==> var r, cpu := FirstPass(s, q, chosen, retried), chosen[|chosen| - 1];
      && ((forall t :: t in s.queues[q] ==> !Suits(s.recs, t, cpu)) ==>
           |retried| < |r.left| && r.left[|retried|] == cpu)
      && forall i: nat :: FirstSuited(s, q, cpu, i) ==>
           |s.ran| < |r.state.ran| && r.state.ran[|s.ran|] == Slot(cpu, s.queues[q][i])
    decreases |chosen|
  {
    hide Good, Tasks, Served, Waiting;
    if chosen == [] {
      NoneServed(s, q, retried);
    } else {
      var n := |chosen| - 1;
      var cpu := chosen[n];
      assert Recorded(s, q);
      assert chosen[..n] + [cpu] + retried == chosen + retried;
      var k := Query(s.queues[q], s.recs, cpu);
      QueryFirst(s, q, cpu);
      if k < |s.queues[q]| {
        WaitingIdle(s, chosen + retried, n, cpus);
        RunStep(s, cpu, q, k, cpus);
        RunRecorded(s, cpu, q, k);
        var s' := Run(s, cpu, q, k);
        StillWaiting(s, s', chosen[..n], cpu, retried, cpus);
        FirstPassServes(s', q, chosen[..n], retried, cpus);
        ServedMore(s, cpu, q, k, retried, FirstPass(s', q, chosen[..n], retried), cpus);
      } else {
        SwapWaiting(s, chosen[..n], cpu, retried, cpus);
        FirstPassServes(s, q, chosen[..n], retried + [cpu], cpus);
        ServedLess(s, q, cpu, retried, FirstPass(s, q, chosen[..n], retried + [cpu]));
      }
    }
  }

  /** Task i of the queue is the first that suits the CPU. */
  ghost predicate FirstSuited(s: State, q: nat, cpu: nat, i: nat)
    requires q < |s.queues|
  {
    && i < |s.queues[q]| && Suits(s.recs, s.queues[q][i], cpu)
    && forall j: nat :: j < i ==> !Suits(s.recs, s.queues[q][j], cpu)
  }

  lemma QueryFirst(s: State, q: nat, cpu: nat)
    requires AllRecorded(s) && q < |s.queues|
    ensures Recorded(s, q)
    ensures var k := Query(s.queues[q], s.recs, cpu);
      && (k < |s.queues[q]| ==> Suits(s.recs, s.queues[q][k], cpu))
      && (forall i: nat :: FirstSuited(s, q, cpu, i) ==> i == k)
      && (k == |s.queues[q]| ==> forall t :: t in s.queues[q] ==> !Suits(s.recs, t, cpu))
  {
    assert Recorded(s, q);
  }

  lemma WaitingIdle(s: State, left: seq<nat>, k: nat, cpus: nat)
    requires Waiting(s, left, cpus) && k < |left|
    ensures left[k] < cpus && Idle(s, left[k])
  {
  }

  lemma NoneServed(s: State, q: nat, retried: seq<nat>)
    requires q < |s.queues|
    ensures Served(s, q, retried, Pass(s, retried))
  {
  }

  lemma ServedMore(s: State, cpu: nat, q: nat, k: nat, retried: seq<nat>, r: Pass, cpus: nat)
    requires Good(s, cpus) && Idle(s, cpu) && q < |s.queues| && k < |s.queues[q]| && s.queues[q][k] in s.recs
    requires Suits(s.recs, s.queues[q][k], cpu)
    requires Run(s, cpu, q, k).ran == s.ran + [Slot(cpu, s.queues[q][k])]
    requires Served(Run(s, cpu, q, k), q, retried, r)
    ensures Served(s, q, retried, r) && |s.ran| < |r.state.ran| && r.state.ran[|s.ran|] == Slot(cpu, s.queues[q][k])
  {
    hide Good;
    var s' := Run(s, cpu, q, k);
    assert r.state.ran[|s.ran|] == s'.ran[|s.ran|];
    forall t | t in s'.queues[q]
      ensures t in s.queues[q] && (t in s.recs ==> s'.recs[t] == s.recs[t])
    {
      RunSpares(s, cpu, q, k, cpus, t);
    }
  }

  lemma ServedLess(s: State, q: nat, cpu: nat, retried: seq<nat>, r: Pass)
    requires q < |s.queues| && (forall t :: t in s.queues[q] ==> !Suits(s.recs, t, cpu))
    requires Served(s, q, retried + [cpu], r)
    ensures Served(s, q, retried, r) && |retried| < |r.left| && r.left[|retried|] == cpu
  {
    assert r.left[|retried|] == (retried + [cpu])[|retried|];
  }

  // ---- What a tick does to a task ----

  /** The tasks that started to run between s and r are bound to their CPUs and have ticked once more; the others have
    * not changed. */
  ghost predicate Marks(s: State, r: State) {
    && s.ran <= r.ran && r.recs.Keys == s.recs.Keys
    && (forall k: nat :: |s.ran| <= k < |r.ran| ==> IsMarked(s.recs, r.recs, r.ran[k].task, r.ran[k].cpu))
    && forall t :: t in s.recs && StillIdle(s, r, t) ==> r.recs[t] == s.recs[t]
  }

  predicate IsMarked(before: Records, after: Records, t: Task, cpu: nat) {
    && t in before && t in after
    && var a := before[t];
    after[t] == Rec(a.base, a.running, a.sleeping, a.oldCpu, Some(cpu), a.cycles + 1)
  }

  ghost predicate StillIdle(s: State, r: State, t: Task) {
    forall k: nat :: |s.ran| <= k < |r.ran| ==> r.ran[k].task != t
  }

  lemma RunMarks(s: State, cpu: nat, q: nat, k: nat, cpus: nat)
    requires Idle(s, cpu) && q < |s.queues| && k < |s.queues[q]| && s.queues[q][k] in s.recs
    ensures Marks(s, Run(s, cpu, q, k))
  {
    IdleFind(s, cpu);
    var r := Run(s, cpu, q, k);
    assert r.ran == s.ran + [Slot(cpu, s.queues[q][k])];
    forall t | t in s.recs && StillIdle(s, r, t) ensures r.recs[t] == s.recs[t] {
      assert r.ran[|s.ran|].task != t;
    }
  }

  lemma MarksTwice(s: State, m: State, r: State, cpus: nat)
    requires Good(r, cpus) && Marks(s, m) && Marks(m, r)
    ensures Marks(s, r)
  {
    hide Good;
    forall k: nat | |s.ran| <= k < |m.ran| ensures r.ran[k] == m.ran[k] && StillIdle(m, r, m.ran[k].task) {
      forall j: nat | |m.ran| <= j < |r.ran| ensures r.ran[j].task != m.ran[k].task {
        RanApart(r, k, j, cpus);
      }
    }
    forall k: nat | |m.ran| <= k < |r.ran| ensures StillIdle(s, m, r.ran[k].task) {
      forall j: nat | |s.ran| <= j < |m.ran| ensures m.ran[j].task != r.ran[k].task {
        RanApart(r, j, k, cpus);
      }
    }
    forall t | t in s.recs && StillIdle(s, r, t) ensures r.recs[t] == s.recs[t] {
      StillIdleBetween(s, m, r, t);
    }
  }

  lemma StillIdleBetween(s: State, m: State, r: State, t: Task)
    requires s.ran <= m.ran <= r.ran && StillIdle(s, r, t)
    ensures StillIdle(s, m, t) && StillIdle(m, r, t)
  {
    forall k: nat | |s.ran| <= k < |m.ran| ensures m.ran[k].task != t {
      assert r.ran[k].task != t;
    }
  }

  lemma RanApart(r: State, i: nat, j: nat, cpus: nat)
    requires Good(r, cpus) && i < j < |r.ran|
    ensures r.ran[i].task != r.ran[j].task
  {
    RanDiffer(r, i, j);
  }

  lemma {:induction false} FirstPassMarks(s: State, q: nat, chosen: seq<nat>, retried: seq<nat>, cpus: nat)
    requires Good(s, cpus) && AllRecorded(s) && q < |s.queues| && Waiting(s, chosen + retried, cpus)
    ensures Marks(s, FirstPass(s, q, chosen, retried).state)
    decreases |chosen|
  {
    hide Good, Tasks, Marks, Waiting;
    if chosen == [] {
      MarksNothing(s);
    } else {
      var n := |chosen| - 1;
      var cpu := chosen[n];
      assert Recorded(s, q);
      assert chosen[..n] + [cpu] + retried == chosen + retried;
      var k := Query(s.queues[q], s.recs, cpu);
      if k < |s.queues[q]| {
        WaitingIdle(s, chosen + retried, n, cpus);
        RunStep(s, cpu, q, k, cpus);
        RunRecorded(s, cpu, q, k);
        RunMarks(s, cpu, q, k, cpus);
        var s' := Run(s, cpu, q, k);
        StillWaiting(s, s', chosen[..n], cpu, retried, cpus);
        FirstPassMarks(s', q, chosen[..n], retried, cpus);
        FirstPassKeeps(s', q, chosen[..n], retried, cpus);
        MarksTwice(s, s', FirstPass(s', q, chosen[..n], retried).state, cpus);
      } else {
        SwapWaiting(s, chosen[..n], cpu, retried, cpus);
        FirstPassMarks(s, q, chosen[..n], retried + [cpu], cpus);
      }
    }
  }

  lemma MarksNothing(s: State)
    ensures Marks(s, s)
  {
  }

  lemma {:induction false} SecondPassMarks(s: State, q: nat, retried: seq<nat>, cpus: nat)
    requires Good(s, cpus) && AllRecorded(s) && q < |s.queues| && Waiting(s, retried, cpus)
    ensures Marks(s, SecondPass(s, q, retried).state)
    decreases |retried|
  {
    hide Good, Tasks, Marks, Waiting;
    if s.queues[q] == [] || retried == [] {
      MarksNothing(s);
    } else {
      var n := |retried| - 1;
      var cpu := retried[n];
      assert Recorded(s, q);
      WaitingIdle(s, retried, n, cpus);
      RunStep(s, cpu, q, 0, cpus);
      RunRecorded(s, cpu, q, 0);
      RunMarks(s, cpu, q, 0, cpus);
      var s' := Run(s, cpu, q, 0);
      assert retried[..n] + [cpu] + [] == retried && retried[..n] + [] == retried[..n];
      StillWaiting(s, s', retried[..n], cpu, [], cpus);
      SecondPassMarks(s', q, retried[..n], cpus);
      SecondPassKeeps(s', q, retried[..n], cpus);
      MarksTwice(s, s', SecondPass(s', q, retried[..n]).state, cpus);
    }
  }

  lemma PassesMark(s: State, q: nat, chosen: seq<nat>, cpus: nat)
    requires Good(s, cpus) && AllRecorded(s) && q < |s.queues| && Waiting(s, chosen, cpus)
    ensures Marks(s, Passes(s, q, chosen).state)
  {
    hide Good, Tasks, Marks, Waiting, FirstPass, SecondPass;
    assert chosen + [] == chosen;
    var first := FirstPass(s, q, chosen, []);
    FirstPassKeeps(s, q, chosen, [], cpus);
    FirstPassMarks(s, q, chosen, [], cpus);
    SecondPassMarks(first.state, q, first.left, cpus);
    SecondPassKeeps(first.state, q, first.left, cpus);
    MarksTwice(s, first.state, Passes(s, q, chosen).state, cpus);
  }

  lemma {:induction false} TickFromMarks(s: State, q: nat, chosen: seq<nat>, cpus: nat)
    requires Good(s, cpus) && AllRecorded(s) && q <= |s.queues| && Waiting(s, chosen, cpus)
    ensures Marks(s, TickFrom(s, q, chosen))
    decreases |s.queues| - q
  {
    hide Good, Tasks, Marks, Waiting, Passes;
    if q == |s.queues| {
      MarksNothing(s);
    } else {
      var pass := Passes(s, q, chosen);
      PassesMark(s, q, chosen, cpus);
      PassesKeep(s, q, chosen, cpus);
      if pass.left != [] {
        TickFromMarks(pass.state, q + 1, pass.left, cpus);
        TickFromKeeps(pass.state, q + 1, pass.left, cpus);
        MarksTwice(s, pass.state, TickFrom(pass.state, q + 1, pass.left), cpus);
      }
    }
  }

  /** In a tick every task picked becomes bound to its CPU and ticks once; no other field of any task changes. */
  lemma TickMarks(s: State, cpus: nat)
    requires Good(s, cpus) && s.ran == []
    ensures AllRecorded(s)
    ensures var r := Tick(s, cpus);
      && r.recs.Keys == s.recs.Keys
      && (forall k: nat :: k < |r.ran| ==> IsMarked(s.recs, r.recs, r.ran[k].task, r.ran[k].cpu))
      && forall t :: t in s.recs && (forall k: nat :: k < |r.ran| ==> r.ran[k].task != t) ==> r.recs[t] == s.recs[t]
  {
    hide Good;
    TickPlaces(s, cpus);
    AllWaiting(s, cpus);
    TickFromMarks(s, 0, Cpus(cpus), cpus);
    var r := Tick(s, cpus);
    forall t | t in s.recs && (forall k: nat :: k < |r.ran| ==> r.ran[k].task != t) ensures StillIdle(s, r, t) {
    }
  }
}
