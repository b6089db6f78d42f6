/** Safety over whole runs of malloc, free and realloc, from the empty heap on. */
module HeapRuns {
  import opened HeapLayout
  import opened HeapLinks
  import opened HeapSearch
  import opened HeapBlocks
  import Liballoc

  /** A call; `page` is what the page hook answers if it is asked. */
  datatype Call =
    | MallocCall(req: nat, page: nat)
    | FreeCall(ptr: nat)
    | ReallocCall(ptr: nat, size: nat, page: nat)

  datatype State = State(layout: Layout, bestBet: nat)

  /** One call by a caller who passes only NULL or pointers it holds. The best bet may come out as anything. */
  ghost predicate Step(s: State, call: Call, t: State, limit: nat)
    decreases call.ReallocCall?
  {
    match call
    case MallocCall(req, page) =>
      Sized(req) && HookAnswer(s.layout, req, page, limit) && Taken(s, req, page, t.layout)
    case FreeCall(ptr) =>
      if ptr == NULL then t.layout == s.layout else Freed(s, ptr, t.layout)
    case ReallocCall(ptr, size, page) =>
      if size == 0 then Step(s, FreeCall(ptr), t, limit)
      else if ptr == NULL then Step(s, MallocCall(size, page), t, limit)
      else Sized(size) && HookAnswer(s.layout, size, page, limit) && Resized(s, ptr, size, page, t.layout)
  }

  ghost predicate Taken(s: State, req: nat, page: nat, after: Layout) {
    var spot := Choose(s.layout, s.bestBet, req, page);
    after == if spot.Spot? then Placed(spot, req) else s.layout
  }

  ghost predicate Freed(s: State, ptr: nat, after: Layout) {
    exists i: nat, k: nat :: Owns(s.layout, ptr, i, k) && after == Remove(s.layout, i, k)
  }

  ghost predicate Resized(s: State, ptr: nat, size: nat, page: nat, after: Layout) {
    exists i: nat, k: nat, q: nat ::
      Owns(s.layout, ptr, i, k) && Realloced(s.layout, s.bestBet, i, k, size, page, after, q)
  }

  ghost predicate Consistent(l: Layout, limit: nat) {
    WellFormed(l) && NoneEmpty(l) && Within(l, limit)
  }

  lemma RemoveKeepsConsistent(l: Layout, i: nat, k: nat, limit: nat)
    requires Consistent(l, limit) && i < |l| && k < |l[i].minors|
    ensures Consistent(Remove(l, i, k), limit)
  {
    RemoveKeepsWellFormed(l, i, k);
  }

  lemma ReallocKeepsConsistent(s: State, i: nat, k: nat, size: nat, page: nat, after: Layout, q: nat, limit: nat)
    requires Consistent(s.layout, limit) && Sized(size) && HookAnswer(s.layout, size, page, limit)
    requires i < |s.layout| && k < |s.layout[i].minors|
    requires Realloced(s.layout, s.bestBet, i, k, size, page, after, q)
    ensures Consistent(after, limit)
  {
    var l := s.layout;
    if size <= l[i].minors[k].req {
      ShrinkKeepsWellFormed(l, i, k, size);
    } else if Choose(l, s.bestBet, size, page).NoRoom? {
      RemoveKeepsConsistent(l, i, k, limit);
    } else {
      MallocKeepsWellFormed(l, s.bestBet, size, page, limit);
      PlacedKeeps(l, s.bestBet, size, page, i, k);
      var spot := Choose(l, s.bestBet, size, page);
      RemoveKeepsConsistent(Placed(spot, size), i, Moved(spot, i, k), limit);
    }
  }

  lemma StepKeepsConsistent(s: State, call: Call, t: State, limit: nat)
    requires Consistent(s.layout, limit) && Step(s, call, t, limit)
    ensures Consistent(t.layout, limit)
    decreases call.ReallocCall?
  {
    match call
    case MallocCall(req, page) =>
      if Choose(s.layout, s.bestBet, req, page).Spot? {
        MallocKeepsWellFormed(s.layout, s.bestBet, req, page, limit);
      }
    case FreeCall(ptr) =>
      if ptr != NULL {
        var i: nat, k: nat :| Owns(s.layout, ptr, i, k) && t.layout == Remove(s.layout, i, k);
        RemoveKeepsConsistent(s.layout, i, k, limit);
      }
    case ReallocCall(ptr, size, page) =>
      if size == 0 {
        StepKeepsConsistent(s, FreeCall(ptr), t, limit);
      } else if ptr == NULL {
        StepKeepsConsistent(s, MallocCall(size, page), t, limit);
      } else {
        var i: nat, k: nat, q: nat :|
          Owns(s.layout, ptr, i, k) && Realloced(s.layout, s.bestBet, i, k, size, page, t.layout, q);
        ReallocKeepsConsistent(s, i, k, size, page, t.layout, q, limit);
      }
  }

  // ---- The methods take such steps ----

  /** What a caller has to keep to: sizes below the 64-bit wrap, pointers it holds, and room when a block with bytes is
    * to grow. */
  ghost predicate Allowed(s: State, call: Call, limit: nat) {
    match call
    case MallocCall(req, page) => Sized(req) && HookAnswer(s.layout, req, page, limit)
    case FreeCall(ptr) => ptr == NULL || IsLive(s.layout, ptr)
    case ReallocCall(ptr, size, page) =>
      && (ptr == NULL || IsLive(s.layout, ptr))
      && (size != 0 ==> Sized(size) && HookAnswer(s.layout, size, page, limit))
      && forall r: nat :: IsBlock(s.layout, ptr, r) && 0 < r < size ==> Choose(s.layout, s.bestBet, size, page).Spot?
  }

  ghost function StateOf(h: Liballoc.Heap): State
    reads h
  {
    State(h.layout, h.bestBet)
  }

  /** Every call of a method on a valid heap is a step. */
  method Perform(h: Liballoc.Heap, call: Call) returns (p: nat)
    requires h.Valid() && Allowed(StateOf(h), call, h.mem.Length)
    modifies h, h.mem
    ensures h.Valid() && Step(old(StateOf(h)), call, StateOf(h), h.mem.Length)
  {
    hide Choose, Placed, Remove, Realloced;
    ghost var s := StateOf(h);
    p := NULL;
    match call
    case MallocCall(req, page) =>
      p := h.Malloc(req, page);
    case FreeCall(ptr) =>
      h.Free(ptr);
    case ReallocCall(ptr, size, page) =>
      p := h.Realloc(ptr, size, page);
      if size != 0 && ptr != NULL {
        ghost var i: nat, k: nat :| Owns(s.layout, ptr, i, k);
        assert Realloced(s.layout, s.bestBet, i, k, size, page, h.layout, p);
      }
  }

  /** A run of calls from the empty heap: states and the calls between them. */
  ghost predicate IsRun(states: seq<State>, calls: seq<Call>, limit: nat) {
    && |states| == |calls| + 1 && states[0].layout == []
    && forall n: nat :: n < |calls| ==> Step(states[n], calls[n], states[n + 1], limit)
  }

  /** After any run of calls every major has a minor, and all minors are in address order and apart. */
  lemma {:induction false} RunsKeepConsistent(states: seq<State>, calls: seq<Call>, limit: nat, n: nat)
    requires IsRun(states, calls, limit) && n < |states|
    ensures Consistent(states[n].layout, limit)
  {
    if n > 0 {
      RunsKeepConsistent(states, calls, limit, n - 1);
      StepKeepsConsistent(states[n - 1], calls[n - 1], states[n], limit);
    }
  }

  /** After any run of calls, two live blocks share no byte and are aligned to 16 bytes. */
  lemma RunsKeepBlocksDisjoint(states: seq<State>, calls: seq<Call>, limit: nat, n: nat,
      p: nat, size: nat, q: nat, req: nat)
    requires IsRun(states, calls, limit) && n < |states|
    requires IsBlock(states[n].layout, p, size) && IsBlock(states[n].layout, q, req) && p != q
    ensures p % 16 == 0 && q % 16 == 0
    ensures p + size <= q || q + req <= p
  {
    RunsKeepConsistent(states, calls, limit, n);
    BlocksDisjoint(states[n].layout, p, size, q, req);
    BlocksDisjoint(states[n].layout, q, req, p, size);
  }
}
