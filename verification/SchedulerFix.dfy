/** fix_affinity: running tasks are swapped back to the CPU they last ran on. */
module SchedulerFix {
  import opened SchedulerModel

  predicate Runs(s: State, cpu: nat) { Find(s.ran, cpu) < |s.ran| }

  function TaskOn(s: State, cpu: nat): Task
    requires Runs(s, cpu)
  {
    s.ran[Find(s.ran, cpu)].task
  }

  /** The fields of the task on a busy CPU. */
  function RecOn(s: State, cpu: nat): Rec
    requires Runs(s, cpu) && TaskOn(s, cpu) in s.recs
  {
    s.recs[TaskOn(s, cpu)]
  }

  ghost predicate RanRecorded(s: State) {
    forall k: nat :: k < |s.ran| ==> s.ran[k].task in s.recs
  }

  /** The task on this CPU last ran on another one that is busy now, and whose task is not bound to
    * this CPU or is of worse priority. */
  predicate Displaced(s: State, cpu: nat)
    requires RanRecorded(s)
  {
    Runs(s, cpu) &&
    var task := RecOn(s, cpu);
    task.oldCpu.Some? && task.oldCpu.value != cpu && Runs(s, task.oldCpu.value) &&
    var stealer := RecOn(s, task.oldCpu.value);
    stealer.affinity != Some(cpu) || task.Depriority() < stealer.Depriority()
  }

  /** The two tasks change places, each with affinity to its new CPU. */
  function Swap(s: State, cpu: nat): State
    requires RanRecorded(s) && Displaced(s, cpu)
  {
    var task := TaskOn(s, cpu);
    var home := s.recs[task].oldCpu.value;
    var stealer := TaskOn(s, home);
    var recs := s.recs[stealer := s.recs[stealer].(affinity := Some(cpu))];
    State(
      s.queues,
      Put(Put(s.ran, cpu, stealer), home, task),
      recs[task := recs[task].(affinity := Some(home))])
  }

  /** How many of the CPUs on the stack have a displaced task. */
  function Unsettled(s: State, stack: seq<nat>): (n: nat)
    requires RanRecorded(s)
    ensures n <= |stack|
  {
    if stack == [] then 0
    else Unsettled(s, stack[..|stack| - 1]) + if Displaced(s, stack[|stack| - 1]) then 1 else 0
  }

  /** Below its top the stack has no CPU twice, and the top is there a second time only when its task
    * is in place. */
  ghost predicate StackOk(s: State, stack: seq<nat>)
    requires RanRecorded(s)
  {
    && (forall j: nat, k: nat :: j < k < |stack| - 1 ==> stack[j] != stack[k])
    && (stack != [] && Displaced(s, stack[|stack| - 1]) ==> stack[|stack| - 1] !in stack[..|stack| - 1])
  }

  // ---- The dictionary ----

  /** Storing under a key that is there keeps all keys where they are. */
  lemma PutKeepsKeys(ran: seq<Slot>, cpu: nat, task: Task)
    requires Find(ran, cpu) < |ran|
    ensures |Put(ran, cpu, task)| == |ran|
    ensures forall k: nat :: k < |ran| ==> Put(ran, cpu, task)[k].cpu == ran[k].cpu
    ensures forall c: nat :: Find(Put(ran, cpu, task), c) == Find(ran, c)
  {
    var r := Put(ran, cpu, task);
    forall c: nat ensures Find(r, c) == Find(ran, c) {
      SameKeysFind(ran, r, c);
    }
  }

  lemma {:induction false} SameKeysFind(a: seq<Slot>, b: seq<Slot>, c: nat)
    requires |a| == |b|
    requires forall k: nat :: k < |a| ==> a[k].cpu == b[k].cpu
    ensures Find(a, c) == Find(b, c)
    decreases |a|
  {
    if a != [] {
      SameKeysFind(a[1..], b[1..], c);
    }
  }

  // ---- One swap ----

  /** The places of the two tasks of a swap in the dictionary. */
  lemma SwapSlots(s: State, cpu: nat) returns (i: nat, j: nat, home: nat)
    requires RanRecorded(s) && Displaced(s, cpu)
    ensures i < |s.ran| && j < |s.ran| && i != j && s.ran[i].cpu == cpu && s.ran[j].cpu == home
    ensures RecOn(s, cpu).oldCpu == Some(home) && home != cpu
    ensures TaskOn(s, cpu) == s.ran[i].task && TaskOn(s, home) == s.ran[j].task
    ensures Swap(s, cpu).ran == s.ran[i := Slot(cpu, s.ran[j].task)][j := Slot(home, s.ran[i].task)]
    ensures forall c: nat :: Find(Swap(s, cpu).ran, c) == Find(s.ran, c)
  {
    home := RecOn(s, cpu).oldCpu.value;
    i, j := Find(s.ran, cpu), Find(s.ran, home);
    PutKeepsKeys(s.ran, cpu, TaskOn(s, home));
    PutKeepsKeys(Put(s.ran, cpu, TaskOn(s, home)), home, TaskOn(s, cpu));
  }

  lemma SwapKeepsTasks(s: State, cpu: nat)
    requires RanRecorded(s) && Displaced(s, cpu)
    ensures Tasks(Swap(s, cpu)) == Tasks(s) && Swap(s, cpu).queues == s.queues
  {
    var i, j, home := SwapSlots(s, cpu);
    var a: Task, b: Task, t: seq<Task> := s.ran[i].task, s.ran[j].task, TasksOf(s.ran);
    assert TasksOf(Swap(s, cpu).ran) == t[i := b][j := a];
    SwapMultiset(t, i, j);
  }

  lemma SwapMultiset(t: seq<Task>, i: nat, j: nat)
    requires i < |t| && j < |t| && i != j
    ensures multiset(t[i := t[j]][j := t[i]]) == multiset(t)
  {
  }

  /** Tasks on different CPUs are different. */
  lemma RanDiffer(s: State, i: nat, j: nat)
    requires Known(s) && i < |s.ran| && j < |s.ran| && i != j
    ensures s.ran[i].task != s.ran[j].task
  {
    var t: seq<Task>, x: Task := TasksOf(s.ran), s.ran[i].task;
    RanIn(s.ran, i);
    assert x in Tasks(s) && Tasks(s)[x] == QueuedTasks(s.queues)[x] + multiset(t)[x];
    if x == s.ran[j].task {
      Twice(t, i, j);
    }
  }

  lemma Twice(t: seq<Task>, i: nat, j: nat)
    requires i < |t| && j < |t| && i != j && t[i] == t[j]
    ensures multiset(t)[t[i]] >= 2
  {
    var a, b := if i < j then i else j, if i < j then j else i;
    assert t == t[..b] + t[b..];
    assert t[..b][a] == t[i] && t[b..][0] == t[i];
    assert t[i] in t[..b] && t[i] in t[b..];
  }

  lemma GoodRecorded(s: State, cpus: nat)
    requires Good(s, cpus)
    ensures RanRecorded(s)
  {
    forall k: nat | k < |s.ran| ensures s.ran[k].task in s.recs {
      assert SlotFits(s, k, cpus);
    }
  }

  lemma SwapKeepsSlot(s: State, cpu: nat, k: nat, cpus: nat)
    requires Good(s, cpus) && RanRecorded(s) && Displaced(s, cpu) && k < |s.ran|
    ensures k < |Swap(s, cpu).ran| && SlotFits(Swap(s, cpu), k, cpus)
    ensures Swap(s, cpu).ran[k].cpu == s.ran[k].cpu
  {
    var i, j, home := SwapSlots(s, cpu);
    RanDiffer(s, i, j);
    assert SlotFits(s, i, cpus) && SlotFits(s, j, cpus) && SlotFits(s, k, cpus);
    if k != i && k != j {
      RanDiffer(s, i, k);
      RanDiffer(s, j, k);
    }
  }

  lemma SwapKeepsRecs(s: State, cpu: nat, cpus: nat)
    requires Good(s, cpus) && RanRecorded(s) && Displaced(s, cpu)
    ensures CpusInRange(Swap(s, cpu).recs, cpus)
  {
    var i, j, home := SwapSlots(s, cpu);
    assert SlotFits(s, i, cpus) && SlotFits(s, j, cpus);
  }

  lemma SwapKeepsKnown(s: State, cpu: nat, cpus: nat)
    requires Good(s, cpus) && RanRecorded(s) && Displaced(s, cpu)
    ensures Known(Swap(s, cpu)) && OnDistinctCpus(Swap(s, cpu).ran)
  {
    var i, j, home := SwapSlots(s, cpu);
    SwapKeepsTasks(s, cpu);
  }

  lemma SwapKeepsGood(s: State, cpu: nat, cpus: nat)
    requires Good(s, cpus) && RanRecorded(s) && Displaced(s, cpu)
    ensures Good(Swap(s, cpu), cpus) && RanRecorded(Swap(s, cpu))
  {
    var r := Swap(s, cpu);
    SwapKeepsTasks(s, cpu);
    SwapKeepsKnown(s, cpu, cpus);
    SwapKeepsRecs(s, cpu, cpus);
    forall k: nat | k < |r.ran| ensures SlotFits(r, k, cpus) {
      assert k < |s.ran| by {
        var i, j, home := SwapSlots(s, cpu);
      }
      SwapKeepsSlot(s, cpu, k, cpus);
    }
    hide Known, OnDistinctCpus, Swap, Displaced, SlotFits;
    GoodRecorded(r, cpus);
  }

  /** Running tasks have affinity to their own CPUs, so the test on affinity always passes. */
  lemma DisplacedWhen(s: State, cpu: nat, cpus: nat)
    requires Good(s, cpus) && RanRecorded(s)
    ensures Displaced(s, cpu) <==>
      && Runs(s, cpu) && RecOn(s, cpu).oldCpu.Some? && RecOn(s, cpu).oldCpu.value != cpu
      && Runs(s, RecOn(s, cpu).oldCpu.value)
  {
    if Runs(s, cpu) && RecOn(s, cpu).oldCpu.Some? && Runs(s, RecOn(s, cpu).oldCpu.value) {
      assert SlotFits(s, Find(s.ran, RecOn(s, cpu).oldCpu.value), cpus);
    }
  }

  /** After a swap the task that moved is home, and apart from the two CPUs involved nothing has
    * changed. */
  lemma SwapSettles(s: State, cpu: nat, c: nat, cpus: nat)
    requires Good(s, cpus) && RanRecorded(s) && Displaced(s, cpu) && c != cpu
    ensures RanRecorded(Swap(s, cpu))
    ensures Displaced(Swap(s, cpu), c) ==> Displaced(s, c)
    ensures !Displaced(Swap(s, cpu), RecOn(s, cpu).oldCpu.value)
  {
    var i, j, home := SwapSlots(s, cpu);
    var r := Swap(s, cpu);
    SwapKeepsGood(s, cpu, cpus);
    DisplacedWhen(s, c, cpus);
    DisplacedWhen(r, c, cpus);
    RanDiffer(s, i, j);
    var k := Find(s.ran, c);
    if k < |s.ran| && c != home {
      RanDiffer(s, i, k);
      RanDiffer(s, j, k);
      assert TaskOn(r, c) == TaskOn(s, c) && RecOn(r, c).oldCpu == RecOn(s, c).oldCpu;
    }
    assert TaskOn(r, home) == TaskOn(s, cpu);
    DisplacedWhen(r, home, cpus);
  }

  lemma {:induction false} SwapSettlesStack(s: State, cpu: nat, stack: seq<nat>, cpus: nat)
    requires Good(s, cpus) && RanRecorded(s) && Displaced(s, cpu) && cpu !in stack
    ensures RanRecorded(Swap(s, cpu))
    ensures Unsettled(Swap(s, cpu), stack) <= Unsettled(s, stack)
    decreases |stack|
  {
    SwapKeepsGood(s, cpu, cpus);
    if stack != [] {
      SwapSettlesStack(s, cpu, stack[..|stack| - 1], cpus);
      SwapSettles(s, cpu, stack[|stack| - 1], cpus);
    }
  }

  /** A swap pops a CPU with a displaced task and pushes one without. */
  lemma SwapStep(s: State, stack: seq<nat>, cpus: nat)
    requires Good(s, cpus) && RanRecorded(s) && stack != [] && StackOk(s, stack)
    requires Displaced(s, stack[|stack| - 1])
    ensures var cpu := stack[|stack| - 1];
      var r, next := Swap(s, cpu), stack[..|stack| - 1] + [RecOn(s, cpu).oldCpu.value];
      Good(r, cpus) && RanRecorded(r) && StackOk(r, next) && Unsettled(r, next) + 1 <= Unsettled(s, stack)
  {
    var cpu, rest := stack[|stack| - 1], stack[..|stack| - 1];
    var home := RecOn(s, cpu).oldCpu.value;
    SwapKeepsGood(s, cpu, cpus);
    SwapSettles(s, cpu, home, cpus);
    SwapSettlesStack(s, cpu, rest, cpus);
    assert (rest + [home])[..|rest|] == rest;
  }

  lemma PopStep(s: State, stack: seq<nat>)
    requires RanRecorded(s) && stack != [] && StackOk(s, stack) && !Displaced(s, stack[|stack| - 1])
    ensures StackOk(s, stack[..|stack| - 1])
  {
    var rest := stack[..|stack| - 1];
    if rest != [] {
      var n := |rest| - 1;
      forall k: nat | k < n ensures rest[k] != rest[n] {
      }
    }
  }

  /** The state after the affinity pass, and the pops and swaps it took. */
  datatype Fixed = Fixed(state: State, pops: nat, swaps: nat)

  function FixFrom(s: State, stack: seq<nat>, cpus: nat): (r: Fixed)
    requires Good(s, cpus) && RanRecorded(s) && StackOk(s, stack)
    ensures r.swaps <= Unsettled(s, stack) && r.pops == |stack| + r.swaps
    ensures Good(r.state, cpus) && Tasks(r.state) == Tasks(s) && r.state.queues == s.queues
    decreases |stack| + Unsettled(s, stack)
  {
    if stack == [] then Fixed(s, 0, 0)
    else
      var cpu, rest := stack[|stack| - 1], stack[..|stack| - 1];
      if Displaced(s, cpu) then
        SwapStep(s, stack, cpus);
        SwapKeepsTasks(s, cpu);
        var r := FixFrom(Swap(s, cpu), rest + [RecOn(s, cpu).oldCpu.value], cpus);
        Fixed(r.state, r.pops + 1, r.swaps + 1)
      else
        PopStep(s, stack);
        var r := FixFrom(s, rest, cpus);
        Fixed(r.state, r.pops + 1, r.swaps)
  }

  // ---- The whole pass ----

  function CpusOf(ran: seq<Slot>): seq<nat> { seq(|ran|, k requires 0 <= k < |ran| => ran[k].cpu) }

  lemma FixStarts(s: State, cpus: nat)
    requires Good(s, cpus)
    ensures RanRecorded(s) && StackOk(s, CpusOf(s.ran))
  {
    GoodRecorded(s, cpus);
  }

  function Fix(s: State, cpus: nat): (r: Fixed)
    requires Good(s, cpus)
  {
    FixStarts(s, cpus);
    FixFrom(s, CpusOf(s.ran), cpus)
  }

  predicate IsHome(slot: Slot, recs: Records) {
    slot.task in recs && recs[slot.task].oldCpu == Some(slot.cpu)
  }

  /** How many tasks run on the CPU they last ran on. */
  function HomeCount(ran: seq<Slot>, recs: Records): nat {
    if ran == [] then 0
    else HomeCount(ran[..|ran| - 1], recs) + if IsHome(ran[|ran| - 1], recs) then 1 else 0
  }

  lemma {:induction false} ReplaceHome(ran: seq<Slot>, recs: Records, k: nat, slot: Slot)
    requires k < |ran|
    ensures HomeCount(ran[k := slot], recs) + (if IsHome(ran[k], recs) then 1 else 0)
      == HomeCount(ran, recs) + if IsHome(slot, recs) then 1 else 0
    decreases |ran|
  {
    var n := |ran| - 1;
    var r := ran[k := slot];
    if k < n {
      assert r[..n] == ran[..n][k := slot];
      ReplaceHome(ran[..n], recs, k, slot);
    } else {
      assert r[..n] == ran[..n];
    }
  }

  lemma {:induction false} SameHomes(ran: seq<Slot>, a: Records, b: Records)
    requires forall k: nat :: k < |ran| ==> ran[k].task in a && ran[k].task in b
    requires forall t :: t in a && t in b ==> a[t].oldCpu == b[t].oldCpu
    ensures HomeCount(ran, a) == HomeCount(ran, b)
    decreases |ran|
  {
    if ran != [] {
      SameHomes(ran[..|ran| - 1], a, b);
    }
  }

  lemma SwapKeepsOldCpus(s: State, cpu: nat)
    requires RanRecorded(s) && Displaced(s, cpu)
    ensures var r := Swap(s, cpu);
      r.recs.Keys == s.recs.Keys && (forall t :: t in s.recs ==> r.recs[t].oldCpu == s.recs[t].oldCpu)
  {
    hide Put;
  }

  lemma SwapHomes(s: State, cpu: nat, cpus: nat)
    requires Good(s, cpus) && RanRecorded(s) && Displaced(s, cpu)
    ensures HomeCount(Swap(s, cpu).ran, Swap(s, cpu).recs) == HomeCount(Swap(s, cpu).ran, s.recs)
  {
    hide Good, Displaced, HomeCount, Swap;
    SwapKeepsGood(s, cpu, cpus);
    SwapKeepsOldCpus(s, cpu);
    var r := Swap(s, cpu);
    forall k: nat | k < |r.ran| ensures r.ran[k].task in s.recs {
      assert r.ran[k].task in r.recs.Keys;
    }
    SameHomes(r.ran, s.recs, r.recs);
  }

  /** A swap brings one task home and takes at most one away. */
  lemma SwapBringsHome(s: State, cpu: nat, cpus: nat)
    requires Good(s, cpus) && RanRecorded(s) && Displaced(s, cpu)
    ensures HomeCount(s.ran, s.recs) <= HomeCount(Swap(s, cpu).ran, Swap(s, cpu).recs)
  {
    hide HomeCount;
    GoodRecorded(s, cpus);
    var i, j, home := SwapSlots(s, cpu);
    var r := Swap(s, cpu);
    var mid := s.ran[i := Slot(cpu, s.ran[j].task)];
    ReplaceHome(s.ran, s.recs, i, Slot(cpu, s.ran[j].task));
    ReplaceHome(mid, s.recs, j, Slot(home, s.ran[i].task));
    SwapHomes(s, cpu, cpus);
  }

  lemma SwapKeepsCpus(s: State, cpu: nat)
    requires RanRecorded(s) && Displaced(s, cpu)
    ensures CpusOf(Swap(s, cpu).ran) == CpusOf(s.ran)
    ensures Runs(s, cpu) && RecOn(s, cpu).oldCpu.Some?
  {
    var i, j, home := SwapSlots(s, cpu);
  }

  lemma {:induction false} FixFromHome(s: State, stack: seq<nat>, cpus: nat)
    requires Good(s, cpus) && RanRecorded(s) && StackOk(s, stack)
    ensures var r := FixFrom(s, stack, cpus).state;
      CpusOf(r.ran) == CpusOf(s.ran) && HomeCount(s.ran, s.recs) <= HomeCount(r.ran, r.recs)
    decreases |stack| + Unsettled(s, stack)
  {
    hide Good, StackOk, Displaced, HomeCount, Swap;
    if stack != [] {
      var cpu, rest := stack[|stack| - 1], stack[..|stack| - 1];
      if Displaced(s, cpu) {
        SwapStep(s, stack, cpus);
        SwapBringsHome(s, cpu, cpus);
        SwapKeepsCpus(s, cpu);
        FixFromHome(Swap(s, cpu), rest + [RecOn(s, cpu).oldCpu.value], cpus);
      } else {
        PopStep(s, stack);
        FixFromHome(s, rest, cpus);
      }
    }
  }

  lemma SameRan(s: State, r: State)
    requires Tasks(r) == Tasks(s) && r.queues == s.queues
    ensures RanTasks(r.ran) == RanTasks(s.ran)
  {
    assert RanTasks(r.ran) + QueuedTasks(s.queues) == Tasks(r);
    assert RanTasks(s.ran) + QueuedTasks(s.queues) == Tasks(s);
    Cancel(RanTasks(r.ran), RanTasks(s.ran), QueuedTasks(s.queues));
  }

  /** fix_affinity ends after at most 2k pops and k swaps for k busy CPUs. It permutes the running
    * tasks over the same CPUs, leaves each with affinity to its CPU, and puts no fewer of them on the
    * CPU they last ran on. */
  lemma FixSettles(s: State, cpus: nat)
    requires Good(s, cpus)
    ensures var f := Fix(s, cpus);
      && f.pops <= 2 * |s.ran| && f.swaps <= |s.ran|
      && CpusOf(f.state.ran) == CpusOf(s.ran) && RanTasks(f.state.ran) == RanTasks(s.ran)
      && f.state.queues == s.queues && Good(f.state, cpus)
      && HomeCount(s.ran, s.recs) <= HomeCount(f.state.ran, f.state.recs)
  {
    FixStarts(s, cpus);
    FixFromHome(s, CpusOf(s.ran), cpus);
    hide Good, QueuedTasks, RanTasks, HomeCount;
    var f := Fix(s, cpus);
    SameRan(s, f.state);
  }

  // ---- Which tasks the pass moves ----

  /** The task on this CPU last ran on another CPU that is busy now. */
  ghost predicate Away(s: State, cpu: nat): (away: bool)
    ensures away ==> Runs(s, cpu)
  {
    && Runs(s, cpu) && TaskOn(s, cpu) in s.recs
    && var home := s.recs[TaskOn(s, cpu)].oldCpu;
    home.Some? && home.value != cpu && Runs(s, home.value)
  }

  /** Of the CPUs whose task is away, those on the stack hold the task they held at first and the others do not. */
  ghost predicate Tracks(first: State, s: State, stack: seq<nat>) {
    && (forall c: nat :: Runs(s, c) <==> Runs(first, c))
    && forall c: nat :: Away(s, c) ==> (c in stack <==> TaskOn(s, c) == TaskOn(first, c))
  }

  lemma AwayIsDisplaced(s: State, cpu: nat, cpus: nat)
    requires Good(s, cpus) && RanRecorded(s)
    ensures Away(s, cpu) <==> Displaced(s, cpu)
  {
    DisplacedWhen(s, cpu, cpus);
  }

  /** What a swap means for the CPUs it does not settle. */
  lemma SwapTracks(first: State, s: State, stack: seq<nat>, cpus: nat)
    requires Good(s, cpus) && RanRecorded(s) && stack != [] && StackOk(s, stack) && Tracks(first, s, stack)
    requires Displaced(s, stack[|stack| - 1])
    ensures var cpu := stack[|stack| - 1];
      Tracks(first, Swap(s, cpu), stack[..|stack| - 1] + [RecOn(s, cpu).oldCpu.value])
  {
    hide Good, StackOk, Displaced, Away, Swap;
    var cpu := stack[|stack| - 1];
    var i, j, home := SwapSlots(s, cpu);
    var r, next := Swap(s, cpu), stack[..|stack| - 1] + [home];
    forall c: nat | Away(r, c) ensures c in next <==> TaskOn(r, c) == TaskOn(first, c) {
      SwapTracksAt(first, s, stack, cpus, c);
    }
  }

  lemma SwapTracksAt(first: State, s: State, stack: seq<nat>, cpus: nat, c: nat)
    requires Good(s, cpus) && RanRecorded(s) && stack != [] && StackOk(s, stack) && Tracks(first, s, stack)
    requires Displaced(s, stack[|stack| - 1]) && Away(Swap(s, stack[|stack| - 1]), c)
    ensures var cpu := stack[|stack| - 1];
      && RecOn(s, cpu).oldCpu.Some? && Runs(first, c)
      && (c in stack[..|stack| - 1] + [RecOn(s, cpu).oldCpu.value] <==> TaskOn(Swap(s, cpu), c) == TaskOn(first, c))
  {
    hide Good, StackOk, Displaced, Away, Swap;
    var cpu := stack[|stack| - 1];
    SettledAway(s, cpu, c, cpus);
    assert stack == stack[..|stack| - 1] + [cpu];
    if c == cpu {
      TopOnce(s, stack);
      AwayIsDisplaced(s, cpu, cpus);
      SwappedTasksDiffer(s, cpu, cpus);
    }
  }

  lemma TopOnce(s: State, stack: seq<nat>)
    requires RanRecorded(s) && stack != [] && StackOk(s, stack) && Displaced(s, stack[|stack| - 1])
    ensures stack[|stack| - 1] !in stack[..|stack| - 1]
  {
  }

  lemma SwappedTasksDiffer(s: State, cpu: nat, cpus: nat)
    requires Good(s, cpus) && RanRecorded(s) && Displaced(s, cpu)
    ensures Runs(Swap(s, cpu), cpu) && TaskOn(Swap(s, cpu), cpu) != TaskOn(s, cpu)
  {
    var i, j, home := SwapSlots(s, cpu);
    RanDiffer(s, i, j);
  }

  /** A CPU whose task is away after a swap is the one that was looked at, or its task has not changed. */
  lemma SettledAway(s: State, cpu: nat, c: nat, cpus: nat)
    requires Good(s, cpus) && RanRecorded(s) && Displaced(s, cpu) && Away(Swap(s, cpu), c)
    ensures RecOn(s, cpu).oldCpu.Some? && c != RecOn(s, cpu).oldCpu.value
    ensures c != cpu ==> Away(s, c) && TaskOn(Swap(s, cpu), c) == TaskOn(s, c)
  {
    hide Good, Swap;
    var i, j, home := SwapSlots(s, cpu);
    SwapKeepsGood(s, cpu, cpus);
    SwapSettles(s, cpu, home, cpus);
    AwayIsDisplaced(Swap(s, cpu), c, cpus);
    if c != cpu {
      SwapSettles(s, cpu, c, cpus);
      AwayIsDisplaced(s, c, cpus);
      OtherTaskStays(s, cpu, c, cpus);
    }
  }

  lemma OtherTaskStays(s: State, cpu: nat, c: nat, cpus: nat)
    requires RanRecorded(s) && Displaced(s, cpu) && Runs(s, c)
    requires c != cpu && c != RecOn(s, cpu).oldCpu.value
    ensures Runs(Swap(s, cpu), c) && TaskOn(Swap(s, cpu), c) == TaskOn(s, c)
  {
    var i, j, home := SwapSlots(s, cpu);
  }

  lemma {:induction false} FixFromTracks(first: State, s: State, stack: seq<nat>, cpus: nat)
    requires Good(s, cpus) && RanRecorded(s) && StackOk(s, stack) && Tracks(first, s, stack)
    ensures Tracks(first, FixFrom(s, stack, cpus).state, [])
    decreases |stack| + Unsettled(s, stack)
  {
    hide Good, StackOk, Displaced, Swap, Tracks, Away;
    if stack != [] {
      var cpu, rest := stack[|stack| - 1], stack[..|stack| - 1];
      if Displaced(s, cpu) {
        SwapStep(s, stack, cpus);
        SwapTracks(first, s, stack, cpus);
        SwapKeepsCpus(s, cpu);
        FixFromTracks(first, Swap(s, cpu), rest + [RecOn(s, cpu).oldCpu.value], cpus);
      } else {
        PopStep(s, stack);
        PopTracks(first, s, stack, cpus);
        FixFromTracks(first, s, rest, cpus);
      }
    }
  }

  lemma PopTracks(first: State, s: State, stack: seq<nat>, cpus: nat)
    requires Good(s, cpus) && RanRecorded(s) && stack != [] && Tracks(first, s, stack)
    requires !Displaced(s, stack[|stack| - 1])
    ensures Tracks(first, s, stack[..|stack| - 1])
  {
    AwayIsDisplaced(s, stack[|stack| - 1], cpus);
  }

  lemma {:induction false} FixFromIdle(s: State, stack: seq<nat>, cpus: nat)
    requires Good(s, cpus) && RanRecorded(s) && StackOk(s, stack) && forall c: nat :: !Displaced(s, c)
    ensures FixFrom(s, stack, cpus).state == s && FixFrom(s, stack, cpus).swaps == 0
    decreases |stack|
  {
    hide Good, StackOk, Displaced;
    if stack != [] {
      PopStep(s, stack);
      FixFromIdle(s, stack[..|stack| - 1], cpus);
    }
  }

  /** Every busy CPU is looked at: a task that is still away after the pass is not the one that was there before. So
    * the pass changes something exactly when a task was away. */
  lemma FixMoves(s: State, cpus: nat, c: nat)
    requires Good(s, cpus)
    ensures var r := Fix(s, cpus).state;
      && (Runs(r, c) <==> Runs(s, c))
      && (Away(r, c) ==> TaskOn(r, c) != TaskOn(s, c))
      && (r != s <==> exists a: nat :: Away(s, a))
  {
    FixStarts(s, cpus);
    hide Good, FixFrom, StackOk;
    var stack, r := CpusOf(s.ran), Fix(s, cpus).state;
    forall a: nat | Away(s, a) ensures a in stack {
      assert stack[Find(s.ran, a)] == a;
    }
    FixFromTracks(s, s, stack, cpus);
    if forall a: nat :: !Away(s, a) {
      forall a: nat ensures !Displaced(s, a) {
        AwayIsDisplaced(s, a, cpus);
      }
      FixFromIdle(s, stack, cpus);
    }
  }

  /** Of the records only the affinities of running tasks differ. */
  ghost predicate OnlyRebinds(s: State, r: State) {
    && s.recs.Keys == r.recs.Keys && s.queues == r.queues && RanTasks(s.ran) == RanTasks(r.ran)
    && forall t :: t in s.recs ==> Rebinds(s.recs[t], r.recs[t], t in RanTasks(s.ran))
  }

  predicate Rebinds(a: Rec, b: Rec, runs: bool) {
    b == Rec(a.base, a.running, a.sleeping, a.oldCpu, if runs then b.affinity else a.affinity, a.cycles)
  }

  lemma SwapRebinds(s: State, cpu: nat)
    requires RanRecorded(s) && Displaced(s, cpu)
    ensures OnlyRebinds(s, Swap(s, cpu))
  {
    hide Displaced, QueuedTasks, RanTasks, Put, Find;
    var i, j, home := SwapSlots(s, cpu);
    SwapKeepsTasks(s, cpu);
    SameRan(s, Swap(s, cpu));
    RanIn(s.ran, i);
    RanIn(s.ran, j);
  }

  lemma {:induction false} FixFromRebinds(s: State, stack: seq<nat>, cpus: nat)
    requires Good(s, cpus) && RanRecorded(s) && StackOk(s, stack)
    ensures OnlyRebinds(s, FixFrom(s, stack, cpus).state)
    decreases |stack| + Unsettled(s, stack)
  {
    hide Good, StackOk, Displaced, Swap, RanTasks;
    if stack != [] {
      var cpu, rest := stack[|stack| - 1], stack[..|stack| - 1];
      if Displaced(s, cpu) {
        SwapStep(s, stack, cpus);
        SwapRebinds(s, cpu);
        var i, j, home := SwapSlots(s, cpu);
        FixFromRebinds(Swap(s, cpu), rest + [home], cpus);
      } else {
        PopStep(s, stack);
        FixFromRebinds(s, rest, cpus);
      }
    }
  }

  /** The pass changes nothing of a task but the affinity of a running one: each ends bound to the CPU it is on. */
  lemma FixRebinds(s: State, cpus: nat)
    requires Good(s, cpus)
    ensures OnlyRebinds(s, Fix(s, cpus).state)
  {
    hide FixFrom, Good;
    FixStarts(s, cpus);
    FixFromRebinds(s, CpusOf(s.ran), cpus);
  }

  /** A task that is away leaves its CPU, and when none is away each stays. */
  lemma FixLeaves(s: State, cpus: nat, c: nat)
    requires Good(s, cpus) && Runs(s, c)
    ensures var r := Fix(s, cpus).state;
      && (Away(s, c) && Runs(r, c) ==> TaskOn(r, c) != TaskOn(s, c))
      && ((forall a: nat :: !Away(s, a)) ==> r == s)
  {
    hide Good, Fix, RanTasks;
    FixMoves(s, cpus, c);
    FixRebinds(s, cpus);
    var r := Fix(s, cpus).state;
    if Away(s, c) && TaskOn(r, c) == TaskOn(s, c) {
      FixMoves(s, cpus, s.recs[TaskOn(s, c)].oldCpu.value);
    }
  }
}
