/** Which layout a call of malloc, free or realloc leads to, and what every run of calls keeps. */
module HeapSearch {
  import opened HeapLayout
  import opened HeapLinks

  // ---- Majors by address ----

  /** The index of the major at an address; |l| when there is none. */
  function IndexOf(l: Layout, addr: nat): (i: nat)
    ensures i <= |l|
    ensures i < |l| ==> l[i].addr == addr
    ensures forall j: nat :: j < i ==> l[j].addr != addr
  {
    if l == [] then 0 else if l[0].addr == addr then 0 else 1 + IndexOf(l[1..], addr)
  }

  predicate IsMajor(l: Layout, addr: nat) { IndexOf(l, addr) < |l| }

  /** What `size - usage` says of the major at an address; 0 for no major. */
  function SpareAt(l: Layout, addr: nat): int {
    if IsMajor(l, addr) then Spare(l[IndexOf(l, addr)]) else 0
  }

  lemma IndexOfMajor(l: Layout, i: nat)
    requires WellFormed(l) && i < |l|
    ensures IndexOf(l, l[i].addr) == i
  {
    AddressesDiffer(l, i, IndexOf(l, l[i].addr));
  }

  lemma NullIsNoMajor(l: Layout)
    requires WellFormed(l)
    ensures !IsMajor(l, NULL) && SpareAt(l, NULL) == 0
  {
    if IsMajor(l, NULL) {
      AddressesDiffer(l, IndexOf(l, NULL), IndexOf(l, NULL));
    }
  }

  lemma SpareAtAppend(l: Layout, m: Major, addr: nat)
    requires IsMajor(l, addr)
    ensures IsMajor(l + [m], addr) && SpareAt(l + [m], addr) == SpareAt(l, addr)
  {
    var i := IndexOf(l, addr);
    assert (l + [m])[i] == l[i];
    assert forall j: nat :: j < i ==> (l + [m])[j] == l[j];
  }

  lemma IsMajorReplaced(l: Layout, i: nat, m: Major, addr: nat)
    requires i < |l| && m.addr == l[i].addr && IsMajor(l, addr)
    ensures IsMajor(l[i := m], addr)
  {
    var j := IndexOf(l, addr);
    assert l[i := m][j].addr == addr;
  }

  // ---- malloc ----

  /** Where malloc starts its search: at the best bet when that looks large enough. */
  function Start(l: Layout, bet: nat, need: nat): (i: nat)
    ensures i <= |l|
  {
    if need < SpareAt(l, bet) then IndexOf(l, bet) else 0
  }

  /** Where malloc puts a block: gap `gap` of major `index` of the layout `base`, which has one more
    * major than before when the pages had to be asked for. */
  datatype Spot = NoRoom | Spot(index: nat, gap: nat, base: Layout)

  /** `page` is the answer of the page hook, should malloc call it. */
  function Choose(l: Layout, bet: nat, req: nat, page: nat): (s: Spot)
    ensures s.Spot? ==> s.index < |s.base| && s.gap <= |s.base[s.index].minors|
  {
    var need := NeedFor(req);
    var t := Target(l, Start(l, bet, need), need);
    if t < |l| then Spot(t, FirstGap(l[t], need), l)
    else if page == NULL then NoRoom
    else Spot(|l|, 0, l + [NewMajor(page, SizeFor(req))])
  }

  function Placed(s: Spot, req: nat): Layout
    requires s.Spot? && s.index < |s.base| && s.gap <= |s.base[s.index].minors|
  {
    Insert(s.base, s.index, s.gap, SizeFor(req), req)
  }

  /** The largest free space among majors lo to hi - 1 is no more than that of the best bet. */
  ghost predicate BestSeen(l: Layout, lo: nat, hi: nat, bet: nat) {
    forall j: nat {:trigger Spare(l[j])} :: lo <= j < hi && j < |l| ==> Spare(l[j]) <= SpareAt(l, bet)
  }

  /** The first major examined in the pass of the search that finds room at index t. */
  function PassStart(l: Layout, bet: nat, need: nat, t: nat): nat {
    if FindFrom(l, Start(l, bet, need), need) == t then Start(l, bet, need) else 0
  }

  /** The size with its room for alignment and a header is a number of 64 bits. */
  predicate Sized(req: nat) { NeedFor(req) < 0x1_0000_0000_0000_0000 }

  /** An unsigned 64-bit result. */
  function Wrap64(n: nat): nat { n % 0x1_0000_0000_0000_0000 }

  lemma NoWrap(req: nat)
    requires Sized(req)
    ensures Wrap64(req + 16 + 16) == SizeFor(req) && Wrap64(SizeFor(req) + 40) == NeedFor(req)
  {
  }

  /** malloc fails only when the hook refuses and no live major has a contiguous gap. */
  lemma MallocFails(l: Layout, bet: nat, req: nat, page: nat)
    requires Sized(req)
    ensures Choose(l, bet, req, page).NoRoom? <==>
      && page == NULL
      && forall i: nat, k: nat :: i < |l| && k <= |l[i].minors| ==> GapLength(l[i], k) < NeedFor(req)
  {
    SearchIsComplete(l, Start(l, bet, NeedFor(req)), NeedFor(req));
  }

  /** malloc takes new pages only when no live major has a contiguous gap. */
  lemma MallocGrows(l: Layout, bet: nat, req: nat, page: nat)
    requires Sized(req) && page != NULL
    ensures Choose(l, bet, req, page).base != l <==>
      forall i: nat, k: nat :: i < |l| && k <= |l[i].minors| ==> GapLength(l[i], k) < NeedFor(req)
  {
    SearchIsComplete(l, Start(l, bet, NeedFor(req)), NeedFor(req));
    assert |l + [NewMajor(page, SizeFor(req))]| != |l|;
  }

  /** A best bet with enough free space and a gap that is long enough receives the block. */
  lemma BestBetServes(l: Layout, bet: nat, req: nat, page: nat)
    requires IsMajor(l, bet) && NeedFor(req) < SpareAt(l, bet)
    requires exists k: nat :: k <= |l[IndexOf(l, bet)].minors| && NeedFor(req) <= GapLength(l[IndexOf(l, bet)], k)
    ensures var s := Choose(l, bet, req, page); s.Spot? && s.index == IndexOf(l, bet) && s.base == l
  {
    assert HasGap(l[IndexOf(l, bet)], NeedFor(req));
  }

  /**
   Within its major a block goes to the lowest address at which it fits, and unless the best bet serves it to the first
   major in the list that has room.
   */
  lemma FirstFit(l: Layout, bet: nat, req: nat, page: nat, i: nat, k: nat)
    requires Choose(l, bet, req, page).Spot?
    requires i < |l| && k <= |l[i].minors| && NeedFor(req) <= GapLength(l[i], k)
    ensures var s := Choose(l, bet, req, page);
      && s.base == l && (i == s.index ==> s.gap <= k)
      && (i < s.index ==> NeedFor(req) < SpareAt(l, bet) && i < IndexOf(l, bet) <= s.index)
  {
    assert HasGap(l[i], NeedFor(req));
  }

  /** The bound below which the 32-bit computation of pages for a block does not wrap. */
  predicate Bounded(size: nat) { size + 80 + 4096 <= 0x1_0000_0000 }

  ghost predicate PagesFresh(l: Layout, page: nat, size: nat, limit: nat) {
    Bounded(size) && FreshPages(l, page, PagesFor(size), limit)
  }

  /** The page hook answers NULL, or with fresh pages; when it answers with pages, their number did not wrap. */
  ghost predicate HookAnswer(l: Layout, req: nat, page: nat, limit: nat) {
    page == NULL || PagesFresh(l, page, SizeFor(req), limit)
  }

  lemma PagesBounded(size: nat)
    requires Bounded(size)
    ensures PagesFor(size) * 4096 < 0x1_0000_0000
  {
  }

  lemma ChosenGapFits(l: Layout, bet: nat, req: nat, page: nat, limit: nat)
    requires WellFormed(l) && HookAnswer(l, req, page, limit)
    requires Choose(l, bet, req, page).Spot?
    ensures var s := Choose(l, bet, req, page);
      WellFormed(s.base) && NeedFor(req) <= GapLength(s.base[s.index], s.gap)
  {
    var s := Choose(l, bet, req, page);
    if s.index == |l| {
      PagesBounded(SizeFor(req));
      AppendKeepsWellFormed(l, page, SizeFor(req), limit);
    }
  }

  lemma MallocKeepsWellFormed(l: Layout, bet: nat, req: nat, page: nat, limit: nat)
    requires WellFormed(l) && NoneEmpty(l) && Within(l, limit)
    requires Sized(req) && HookAnswer(l, req, page, limit)
    requires Choose(l, bet, req, page).Spot?
    ensures var r := Placed(Choose(l, bet, req, page), req); WellFormed(r) && NoneEmpty(r) && Within(r, limit)
  {
    var s := Choose(l, bet, req, page);
    ChosenGapFits(l, bet, req, page, limit);
    InsertKeepsWellFormed(s.base, s.index, s.gap, SizeFor(req), req);
  }

  /** free(malloc(n)) restores the heap exactly, whether or not malloc had to take new pages. The
    * counters are functions of the layout, so they are restored with it. */
  lemma FreeUndoesMalloc(l: Layout, bet: nat, req: nat, page: nat)
    requires NoneEmpty(l)
    requires Choose(l, bet, req, page).Spot?
    ensures var s := Choose(l, bet, req, page); Remove(Placed(s, req), s.index, s.gap) == l
  {
    var s := Choose(l, bet, req, page);
    if s.index < |l| {
      RemoveUndoesInsert(l, s.index, s.gap, SizeFor(req), req);
    } else {
      RemoveUndoesNewMajor(l, NewMajor(page, SizeFor(req)), SizeFor(req), req);
    }
  }

  // ---- The loop of the search ----

  /** The search, now at major `cur`, will still end at the chosen target; the majors passed over in
    * this pass have no more free space than the best bet. */
  ghost predicate Searching(l: Layout, start: nat, need: nat, cur: nat, started: bool, bet: nat)
    requires start <= |l|
  {
    && cur <= |l|
    && (if started then FindFrom(l, start, need) == FindFrom(l, cur, need)
        else Target(l, start, need) == FindFrom(l, cur, need))
    && BestSeen(l, if started then start else 0, cur, bet)
    && (!started ==> start == 0 || FindFrom(l, start, need) == |l|)
  }

  lemma SearchBegins(l: Layout, start: nat, need: nat, bet: nat)
    requires start <= |l|
    ensures Searching(l, start, need, start, true, bet)
    ensures Searching(l, 0, need, 0, false, bet)
  {
  }

  lemma SearchMoves(l: Layout, start: nat, need: nat, cur: nat, started: bool, bet: nat)
    requires start <= |l| && cur < |l|
    requires Searching(l, start, need, cur, started, bet)
    requires !HasGap(l[cur], need) && Spare(l[cur]) <= SpareAt(l, bet)
    ensures Searching(l, start, need, cur + 1, started, bet)
  {
  }

  lemma SearchRestarts(l: Layout, start: nat, need: nat, bet: nat)
    requires start <= |l|
    requires Searching(l, start, need, |l|, true, bet)
    ensures Searching(l, start, need, 0, false, bet)
  {
  }

  lemma SearchEnds(l: Layout, bet: nat, req: nat, page: nat, cur: nat, started: bool, better: nat)
    requires cur < |l|
    requires Searching(l, Start(l, bet, NeedFor(req)), NeedFor(req), cur, started, better)
    requires HasGap(l[cur], NeedFor(req)) && Spare(l[cur]) <= SpareAt(l, better)
    ensures Choose(l, bet, req, page) == Spot(cur, FirstGap(l[cur], NeedFor(req)), l)
    ensures BestSeen(l, PassStart(l, bet, NeedFor(req), cur), cur + 1, better)
  {
  }

  lemma SearchFails(l: Layout, bet: nat, req: nat, page: nat, better: nat)
    requires Searching(l, Start(l, bet, NeedFor(req)), NeedFor(req), |l|, false, better)
    ensures BestSeen(l, 0, |l|, better)
    ensures Choose(l, bet, req, page) ==
      if page == NULL then NoRoom else Spot(|l|, 0, l + [NewMajor(page, SizeFor(req))])
  {
  }

  // ---- Blocks ----

  /** ptr is the user pointer of minor k of major i. */
  predicate Owns(l: Layout, ptr: nat, i: nat, k: nat) {
    i < |l| && k < |l[i].minors| && l[i].minors[k].User() == ptr
  }

  ghost predicate IsLive(l: Layout, ptr: nat) {
    exists i: nat, k: nat :: Owns(l, ptr, i, k)
  }

  /** The caller holds ptr with a request of req bytes. */
  ghost predicate IsBlock(l: Layout, ptr: nat, req: nat) {
    exists i: nat, k: nat :: Owns(l, ptr, i, k) && l[i].minors[k].req == req
  }

  /** A pointer names one minor. */
  lemma OwnerIsUnique(l: Layout, ptr: nat, i: nat, k: nat, j: nat, n: nat)
    requires WellFormed(l)
    requires Owns(l, ptr, i, k) && Owns(l, ptr, j, n)
    ensures i == j && k == n
  {
    if (i, k) != (j, n) {
      MinorsApart(l, i, k, j, n);
      assert WellFormedMajor(l[i]) && WellFormedMajor(l[j]);
      UserRangeInside(l[i].minors[k]);
      UserRangeInside(l[j].minors[n]);
    }
  }
}
