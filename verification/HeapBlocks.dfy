/** What callers see of the heap: the blocks they hold, and that blocks do not interfere. */
module HeapBlocks {
  import opened HeapLayout
  import opened HeapSearch

  /** Where minor k of major i is found after a block was placed at a spot. */
  function Moved(s: Spot, i: nat, k: nat): nat
    requires s.Spot?
  {
    if s.index == i && s.gap <= k then k + 1 else k
  }

  lemma PlacedKeeps(l: Layout, bet: nat, req: nat, page: nat, i: nat, k: nat)
    requires i < |l| && k < |l[i].minors| && Choose(l, bet, req, page).Spot?
    ensures var s := Choose(l, bet, req, page); var r := Placed(s, req);
      && i < |r| && Moved(s, i, k) < |r[i].minors| && r[i].minors[Moved(s, i, k)] == l[i].minors[k]
      && (i, Moved(s, i, k)) != (s.index, s.gap)
  {
  }

  lemma PlacedNew(l: Layout, bet: nat, req: nat, page: nat)
    requires Choose(l, bet, req, page).Spot?
    ensures var s := Choose(l, bet, req, page); var r := Placed(s, req);
      s.index < |r| && s.gap < |r[s.index].minors| && r[s.index].minors[s.gap].req == req
  {
  }

  /** Every minor of the new heap is the new one or an old one. */
  lemma PlacedOld(l: Layout, bet: nat, req: nat, page: nat, j: nat, n: nat) returns (k: nat)
    requires Choose(l, bet, req, page).Spot?
    requires var s := Choose(l, bet, req, page); var r := Placed(s, req);
      j < |r| && n < |r[j].minors| && (j, n) != (s.index, s.gap)
    ensures var s := Choose(l, bet, req, page); var r := Placed(s, req);
      j < |l| && k < |l[j].minors| && r[j].minors[n] == l[j].minors[k]
  {
    var s := Choose(l, bet, req, page);
    k := if s.index == j && s.gap < n then n - 1 else n;
  }

  /** malloc adds exactly the block it returns. */
  lemma MallocBlocks(l: Layout, bet: nat, req: nat, page: nat, p: nat, x: nat, size: nat)
    requires Choose(l, bet, req, page).Spot?
    requires var s := Choose(l, bet, req, page); Owns(Placed(s, req), p, s.index, s.gap)
    ensures IsBlock(Placed(Choose(l, bet, req, page), req), x, size) <==>
      IsBlock(l, x, size) || (x == p && size == req)
  {
    var s := Choose(l, bet, req, page);
    var r := Placed(s, req);
    PlacedNew(l, bet, req, page);
    if IsBlock(r, x, size) {
      var j: nat, n: nat :| Owns(r, x, j, n) && r[j].minors[n].req == size;
      if (j, n) != (s.index, s.gap) {
        var k := PlacedOld(l, bet, req, page, j, n);
        assert Owns(l, x, j, k);
      }
    }
    if IsBlock(l, x, size) {
      var i: nat, k: nat :| Owns(l, x, i, k) && l[i].minors[k].req == size;
      PlacedKeeps(l, bet, req, page, i, k);
      assert Owns(r, x, i, Moved(s, i, k));
    }
    assert Owns(r, p, s.index, s.gap) && r[s.index].minors[s.gap].req == req;
  }

  /** Where minor n of major j is found after minor k of major i was removed. */
  lemma RemovedKeeps(l: Layout, i: nat, k: nat, j: nat, n: nat) returns (a: nat, b: nat)
    requires i < |l| && k < |l[i].minors| && j < |l| && n < |l[j].minors| && (j, n) != (i, k)
    ensures var r := Remove(l, i, k); a < |r| && b < |r[a].minors| && r[a].minors[b] == l[j].minors[n]
  {
    a := if |l[i].minors| == 1 && i < j then j - 1 else j;
    b := if j == i && k < n then n - 1 else n;
  }

  lemma RemovedOld(l: Layout, i: nat, k: nat, a: nat, b: nat) returns (j: nat, n: nat)
    requires i < |l| && k < |l[i].minors|
    requires var r := Remove(l, i, k); a < |r| && b < |r[a].minors|
    ensures j < |l| && n < |l[j].minors| && (j, n) != (i, k)
    ensures Remove(l, i, k)[a].minors[b] == l[j].minors[n]
  {
    j := if |l[i].minors| == 1 && i <= a then a + 1 else a;
    n := if j == i && k <= b then b + 1 else b;
  }

  /** free takes away exactly the block it is given. */
  lemma FreeBlocks(l: Layout, p: nat, i: nat, k: nat, x: nat, size: nat)
    requires WellFormed(l) && Owns(l, p, i, k)
    ensures IsBlock(Remove(l, i, k), x, size) <==> IsBlock(l, x, size) && x != p
  {
    var r := Remove(l, i, k);
    if IsBlock(r, x, size) {
      var a: nat, b: nat :| Owns(r, x, a, b) && r[a].minors[b].req == size;
      var j, n := RemovedOld(l, i, k, a, b);
      assert Owns(l, x, j, n);
      if x == p {
        OwnerIsUnique(l, p, i, k, j, n);
      }
    }
    if IsBlock(l, x, size) && x != p {
      var j: nat, n: nat :| Owns(l, x, j, n) && l[j].minors[n].req == size;
      var a, b := RemovedKeeps(l, i, k, j, n);
      assert Owns(r, x, a, b);
    }
  }

  /** Shrinking changes one block's request only. */
  lemma ShrinkBlocks(l: Layout, p: nat, i: nat, k: nat, req: nat, x: nat, size: nat)
    requires WellFormed(l) && Owns(l, p, i, k)
    ensures IsBlock(Shrink(l, i, k, req), x, size) <==> (x == p && size == req) || (x != p && IsBlock(l, x, size))
  {
    var r := Shrink(l, i, k, req);
    if IsBlock(r, x, size) {
      var a: nat, b: nat :| Owns(r, x, a, b) && r[a].minors[b].req == size;
      assert Owns(l, x, a, b);
      if x == p {
        OwnerIsUnique(l, p, i, k, a, b);
      }
    }
    if x != p && IsBlock(l, x, size) {
      var j: nat, n: nat :| Owns(l, x, j, n) && l[j].minors[n].req == size;
      assert Owns(r, x, j, n) && r[j].minors[n].req == size;
    }
    assert Owns(r, p, i, k) && r[i].minors[k].req == req;
  }

  /** Two live blocks never share a byte, and no block's bytes hold another's offset byte. */
  lemma BlocksDisjoint(l: Layout, p: nat, size: nat, q: nat, req: nat)
    requires WellFormed(l)
    requires IsBlock(l, p, size) && IsBlock(l, q, req) && p != q
    ensures p % 16 == 0 && 16 <= p
    ensures p + size <= q - 16 || q + req <= p - 16
  {
    var i: nat, k: nat :| Owns(l, p, i, k) && l[i].minors[k].req == size;
    var j: nat, n: nat :| Owns(l, q, j, n) && l[j].minors[n].req == req;
    assert WellFormedMajor(l[i]) && WellFormedMajor(l[j]);
    MinorsApart(l, i, k, j, n);
    UserRangeInside(l[i].minors[k]);
    UserRangeInside(l[j].minors[n]);
  }

  lemma LiveNotNull(l: Layout, p: nat, i: nat, k: nat)
    requires WellFormed(l) && Owns(l, p, i, k)
    ensures 16 <= p
  {
    assert WellFormedMajor(l[i]);
    UserRangeInside(l[i].minors[k]);
  }

  /** realloc: the layout it leaves and the pointer it returns for minor k of major i. When malloc has
    * no room for the new block the original still frees the old one; it can get there only with a
    * block of no bytes, because it copies into NULL first. */
  ghost predicate Realloced(before: Layout, bet: nat, i: nat, k: nat, size: nat, page: nat, after: Layout, q: nat)
    requires i < |before| && k < |before[i].minors|
  {
    var n := before[i].minors[k];
    var s := Choose(before, bet, size, page);
    if size <= n.req then q == n.User() && after == Shrink(before, i, k, size)
    else if s.NoRoom? then q == 0 && n.req == 0 && after == Remove(before, i, k)
    else
      && Owns(Placed(s, size), q, s.index, s.gap)
      && (PlacedKeeps(before, bet, size, page, i, k);
          after == Remove(Placed(s, size), i, Moved(s, i, k)))
  }

  /** realloc replaces the old block by one of the new size; all others stay. */
  lemma ReallocBlocks(before: Layout, bet: nat, p: nat, i: nat, k: nat, size: nat, page: nat, limit: nat,
      after: Layout, q: nat, x: nat, req: nat)
    requires WellFormed(before) && HookAnswer(before, size, page, limit)
    requires Owns(before, p, i, k) && Realloced(before, bet, i, k, size, page, after, q)
    ensures IsBlock(after, x, req) <==> (q != 0 && x == q && req == size) || (x != p && IsBlock(before, x, req))
  {
    LiveNotNull(before, p, i, k);
    if size <= before[i].minors[k].req {
      ShrinkBlocks(before, p, i, k, size, x, req);
    } else if Choose(before, bet, size, page).NoRoom? {
      FreeBlocks(before, p, i, k, x, req);
    } else {
      var s := Choose(before, bet, size, page);
      var r := Placed(s, size);
      ChosenGapFits(before, bet, size, page, limit);
      InsertKeepsWellFormed(s.base, s.index, s.gap, SizeFor(size), size);
      PlacedKeeps(before, bet, size, page, i, k);
      MallocBlocks(before, bet, size, page, q, x, req);
      FreeBlocks(r, p, i, Moved(s, i, k), x, req);
      LiveNotNull(r, q, s.index, s.gap);
      if q == p {
        OwnerIsUnique(r, p, i, Moved(s, i, k), s.index, s.gap);
      }
    }
  }
}
