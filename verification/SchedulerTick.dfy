/** One tick: the CPUs pick tasks from the queues, best queue first. */
module SchedulerTick {
  import opened Numbers
  import opened SchedulerModel

  /** A state and the CPUs that have not found a task. */
  datatype Pass = Pass(state: State, left: seq<nat>)

  /** Each CPU in turn, from the end of the list, takes the first task with affinity to it. */
  function FirstPass(s: State, q: nat, chosen: seq<nat>, retried: seq<nat>): (r: Pass)
    requires AllRecorded(s) && q < |s.queues|
    ensures AllRecorded(r.state) && |r.state.queues| == |s.queues|
    decreases |chosen|
  {
    if chosen == [] then Pass(s, retried)
    else
      var n := |chosen| - 1;
      assert Recorded(s, q);
      var k := Query(s.queues[q], s.recs, chosen[n]);
      if k < |s.queues[q]| then
        RunRecorded(s, chosen[n], q, k);
        FirstPass(Run(s, chosen[n], q, k), q, chosen[..n], retried)
      else FirstPass(s, q, chosen[..n], retried + [chosen[n]])
  }

  /** The CPUs that found nothing to their liking take the first tasks that are left. */
  function SecondPass(s: State, q: nat, retried: seq<nat>): (r: Pass)
    requires AllRecorded(s) && q < |s.queues|
    ensures AllRecorded(r.state) && |r.state.queues| == |s.queues|
    decreases |retried|
  {
    if s.queues[q] == [] || retried == [] then Pass(s, retried)
    else
      var n := |retried| - 1;
      assert Recorded(s, q);
      RunRecorded(s, retried[n], q, 0);
      SecondPass(Run(s, retried[n], q, 0), q, retried[..n])
  }

  function Passes(s: State, q: nat, chosen: seq<nat>): (r: Pass)
    requires AllRecorded(s) && q < |s.queues|
    ensures AllRecorded(r.state) && |r.state.queues| == |s.queues|
  {
    var first := FirstPass(s, q, chosen, []);
    SecondPass(first.state, q, first.left)
  }

  /** The queues from q on, until every CPU has a task. */
  function TickFrom(s: State, q: nat, chosen: seq<nat>): (r: State)
    requires AllRecorded(s) && q <= |s.queues|
    ensures AllRecorded(r) && |r.queues| == |s.queues|
    decreases |s.queues| - q
  {
    if q == |s.queues| then s
    else
      var pass := Passes(s, q, chosen);
      if pass.left == [] then pass.state else TickFrom(pass.state, q + 1, pass.left)
  }

  function Cpus(n: nat): seq<nat> { seq(n, i requires 0 <= i => i) }

  function Tick(s: State, cpus: nat): (r: State)
    requires AllRecorded(s)
    ensures AllRecorded(r) && |r.queues| == |s.queues|
  {
    TickFrom(s, 0, Cpus(cpus))
  }

  // ---- What the passes keep ----

  /** The CPUs still to choose are distinct, in range and without a task. */
  ghost predicate Waiting(s: State, left: seq<nat>, cpus: nat) {
    && (forall k: nat :: k < |left| ==> left[k] < cpus && Idle(s, left[k]))
    && forall j: nat, k: nat :: j < k < |left| ==> left[j] != left[k]
  }

  ghost predicate Idle(s: State, cpu: nat) {
    forall k: nat :: k < |s.ran| ==> s.ran[k].cpu != cpu
  }

  lemma IdleFind(s: State, cpu: nat)
    requires Idle(s, cpu)
    ensures Find(s.ran, cpu) == |s.ran|
  {
  }

  /** What one pick of an idle CPU does. */
  lemma RunStep(s: State, cpu: nat, q: nat, k: nat, cpus: nat)
    requires Good(s, cpus) && cpu < cpus && Idle(s, cpu)
    requires q < |s.queues| && k < |s.queues[q]| && s.queues[q][k] in s.recs
    ensures var r := Run(s, cpu, q, k);
      Good(r, cpus) && Tasks(r) == Tasks(s) && r.ran == s.ran + [Slot(cpu, s.queues[q][k])]
  {
    IdleFind(s, cpu);
    RunKeepsTasks(s, cpu, q, k);
    RunKeepsGood(s, cpu, q, k, cpus);
  }

  /** A pass over queue q keeps all tasks, touches no other queue, and places as many tasks as it
    * takes CPUs off the list. */
  ghost predicate PassKeeps(s: State, q: nat, before: nat, r: Pass, cpus: nat)
    requires q < |s.queues|
  {
    && Good(r.state, cpus) && Tasks(r.state) == Tasks(s) && s.ran <= r.state.ran
    && |r.state.queues| == |s.queues|
    && (forall j: nat :: j < |s.queues| && j != q ==> r.state.queues[j] == s.queues[j])
    && |r.state.ran| + |r.left| == |s.ran| + before
    && |r.state.ran| + |r.state.queues[q]| == |s.ran| + |s.queues[q]|
    && Waiting(r.state, r.left, cpus)
  }

  lemma {:induction false} FirstPassKeeps(s: State, q: nat, chosen: seq<nat>, retried: seq<nat>, cpus: nat)
    requires Good(s, cpus) && AllRecorded(s) && q < |s.queues|
    requires Waiting(s, chosen + retried, cpus)
    ensures PassKeeps(s, q, |chosen| + |retried|, FirstPass(s, q, chosen, retried), cpus)
    decreases |chosen|
  {
    hide Good, Tasks;
    if chosen == [] {
      assert chosen + retried == retried;
    } else {
      var n := |chosen| - 1;
      var cpu := chosen[n];
      assert Recorded(s, q);
      assert chosen[..n] + [cpu] + retried == chosen + retried;
      var k := Query(s.queues[q], s.recs, cpu);
      if k < |s.queues[q]| {
        assert (chosen + retried)[n] == cpu;
        RunStep(s, cpu, q, k, cpus);
        RunRecorded(s, cpu, q, k);
        var s' := Run(s, cpu, q, k);
        StillWaiting(s, s', chosen[..n], cpu, retried, cpus);
        FirstPassKeeps(s', q, chosen[..n], retried, cpus);
      } else {
        SwapWaiting(s, chosen[..n], cpu, retried, cpus);
        FirstPassKeeps(s, q, chosen[..n], retried + [cpu], cpus);
      }
    }
  }

  lemma StillWaiting(s: State, r: State, a: seq<nat>, cpu: nat, b: seq<nat>, cpus: nat)
    requires Waiting(s, a + [cpu] + b, cpus)
    requires |r.ran| == |s.ran| + 1 && r.ran[..|s.ran|] == s.ran && r.ran[|s.ran|].cpu == cpu
    ensures Waiting(r, a + b, cpus)
  {
    var c := a + [cpu] + b;
    assert c[|a|] == cpu;
    forall k: nat | k < |a + b| ensures (a + b)[k] < cpus && Idle(r, (a + b)[k]) {
      assert (a + b)[k] == c[if k < |a| then k else k + 1];
    }
    forall j: nat, k: nat | j < k < |a + b| ensures (a + b)[j] != (a + b)[k] {
      assert (a + b)[j] == c[if j < |a| then j else j + 1];
      assert (a + b)[k] == c[if k < |a| then k else k + 1];
    }
  }

  lemma SwapWaiting(s: State, a: seq<nat>, cpu: nat, b: seq<nat>, cpus: nat)
    requires Waiting(s, a + [cpu] + b, cpus)
    ensures Waiting(s, a + (b + [cpu]), cpus)
  {
    var c, d := a + [cpu] + b, a + (b + [cpu]);
    forall k: nat | k < |d| ensures d[k] == c[From(|a|, |b|, k)] {
    }
  }

  function From(a: nat, b: nat, k: nat): nat { if k < a then k else if k == a + b then a else k + 1 }

  lemma {:induction false} SecondPassKeeps(s: State, q: nat, retried: seq<nat>, cpus: nat)
    requires Good(s, cpus) && AllRecorded(s) && q < |s.queues|
    requires Waiting(s, retried, cpus)
    ensures PassKeeps(s, q, |retried|, SecondPass(s, q, retried), cpus)
    ensures var r := SecondPass(s, q, retried); r.left == [] || r.state.queues[q] == []
    decreases |retried|
  {
    hide Good, Tasks;
    if s.queues[q] != [] && retried != [] {
      var n := |retried| - 1;
      var cpu := retried[n];
      assert Recorded(s, q);
      RunStep(s, cpu, q, 0, cpus);
      RunRecorded(s, cpu, q, 0);
      var s' := Run(s, cpu, q, 0);
      assert retried[..n] + [cpu] + [] == retried && retried[..n] + [] == retried[..n];
      StillWaiting(s, s', retried[..n], cpu, [], cpus);
      SecondPassKeeps(s', q, retried[..n], cpus);
    }
  }

  /** Both passes over queue q: either every CPU has its task or the queue is empty. */
  lemma PassesKeep(s: State, q: nat, chosen: seq<nat>, cpus: nat)
    requires Good(s, cpus) && AllRecorded(s) && q < |s.queues|
    requires Waiting(s, chosen, cpus)
    ensures PassKeeps(s, q, |chosen|, Passes(s, q, chosen), cpus)
    ensures var r := Passes(s, q, chosen); r.left == [] || r.state.queues[q] == []
  {
    assert chosen + [] == chosen;
    FirstPassKeeps(s, q, chosen, [], cpus);
    var first := FirstPass(s, q, chosen, []);
    SecondPassKeeps(first.state, q, first.left, cpus);
  }

  // ---- The whole tick ----

  /** The number of tasks in the queues from q on. */
  function Queued(queues: seq<seq<Task>>, q: nat): nat
    requires q <= |queues|
    decreases |queues| - q
  {
    if q == |queues| then 0 else |queues[q]| + Queued(queues, q + 1)
  }

  lemma {:induction false} QueuedSame(a: seq<seq<Task>>, b: seq<seq<Task>>, q: nat)
    requires q <= |a| == |b|
    requires forall j: nat :: q <= j < |a| ==> a[j] == b[j]
    ensures Queued(a, q) == Queued(b, q)
    decreases |a| - q
  {
    if q < |a| {
      QueuedSame(a, b, q + 1);
    }
  }

  /** What a tick from queue q on does. */
  ghost predicate TickKeeps(s: State, q: nat, before: nat, r: State, cpus: nat)
    requires q <= |s.queues|
  {
    && Good(r, cpus) && Tasks(r) == Tasks(s) && |r.queues| == |s.queues| && s.ran <= r.ran
    && |r.ran| == |s.ran| + Min(before, Queued(s.queues, q))
    && (forall j: nat :: j < q ==> r.queues[j] == s.queues[j])
    && forall i: nat, j: nat :: q <= i < j < |s.queues| && r.queues[i] != [] ==> r.queues[j] == s.queues[j]
  }

  lemma {:induction false} TickFromKeeps(s: State, q: nat, chosen: seq<nat>, cpus: nat)
    requires Good(s, cpus) && AllRecorded(s) && q <= |s.queues|
    requires Waiting(s, chosen, cpus)
    ensures TickKeeps(s, q, |chosen|, TickFrom(s, q, chosen), cpus)
    decreases |s.queues| - q
  {
    hide Good, Tasks, Waiting;
    if q < |s.queues| {
      PassesKeep(s, q, chosen, cpus);
      var pass := Passes(s, q, chosen);
      QueuedSame(s.queues, pass.state.queues, q + 1);
      if pass.left != [] {
        TickFromKeeps(pass.state, q + 1, pass.left, cpus);
      }
    }
  }

  lemma AllWaiting(s: State, cpus: nat)
    requires s.ran == []
    ensures Waiting(s, Cpus(cpus), cpus)
  {
  }

  /** A tick is work-conserving and priority-exact: it places as many tasks as there are tasks or
    * CPUs, on distinct CPUs, loses none, and as long as a task is left in queue i nothing is taken
    * from any queue after i. */
  lemma TickPlaces(s: State, cpus: nat)
    requires Good(s, cpus) && s.ran == []
    ensures AllRecorded(s)
    ensures var r := Tick(s, cpus);
      && Good(r, cpus) && Tasks(r) == Tasks(s)
      && |r.ran| == Min(cpus, Queued(s.queues, 0))
      && forall i: nat, j: nat :: i < j < QUEUES && r.queues[i] != [] ==> r.queues[j] == s.queues[j]
  {
    KnownRecorded(s);
    AllWaiting(s, cpus);
    TickFromKeeps(s, 0, Cpus(cpus), cpus);
  }
}
