/**
 The sizes at which the heap fails. malloc adds the room for alignment and the header to a size in 64 bits, and
 allocate_new_page computes the number of pages in 32. Below the wraps the code does what the other modules prove;
 past them it puts blocks where they do not fit, and both limits are exact.
 */
module HeapLimits {
  import opened HeapLayout
  import opened HeapLinks
  import opened HeapSearch
  import opened Liballoc

  // ---- The 64-bit sums ----

  /** malloc's `size` and the sum its tests compare a gap with. */
  function Size64(req: nat): nat { Wrap64(req + 16 + 16) }

  function Need64(req: nat): nat { Wrap64(Size64(req) + 40) }

  /** A size that wraps to 0 is served as a request of 1 byte. */
  function Served(req: nat): nat { if Size64(req) == 0 then 1 else req }

  predicate Accepts(gap: nat, req: nat) { Need64(req) <= gap }

  predicate Fits(gap: nat, req: nat) { NeedFor(req) <= gap }

  /** The wrapped sum is the sum exactly below the wrap. */
  lemma NeedExact(req: nat)
    requires req < 0x1_0000_0000_0000_0000
    ensures Need64(req) == (req + 72) % 0x1_0000_0000_0000_0000
    ensures Need64(req) == NeedFor(req) <==> Sized(req)
  {
  }

  /** The test of a gap is right for all gaps a major can have exactly below the wrap. */
  lemma TestExact(req: nat)
    requires req < 0x1_0000_0000_0000_0000
    ensures (forall gap: nat :: gap < 0x1_0000_0000 ==> (Accepts(gap, req) <==> Fits(gap, req))) <==> Sized(req)
  {
    NeedExact(req);
    if !Sized(req) {
      assert Accepts(71, req) && !Fits(71, req);
    }
  }

  /** malloc finds a gap in a live major. */
  predicate Finds(l: Layout, bet: nat, req: nat) {
    Target(l, Start(l, bet, Need64(req)), Need64(req)) < |l|
  }

  /** The layout malloc leaves then, with the sums of 64 bits and the header fields of 32. */
  function ByOriginal(l: Layout, bet: nat, req: nat): Layout
    requires Finds(l, bet, Served(req))
  {
    var r := Served(req);
    var t := Target(l, Start(l, bet, Need64(r)), Need64(r));
    Insert(l, t, FirstGap(l[t], Need64(r)), Wrap(Size64(r)), Wrap(r))
  }

  lemma GapBound(l: Layout, i: nat, k: nat)
    requires WellFormed(l) && i < |l| && k <= |l[i].minors|
    ensures GapLength(l[i], k) < 0x1_0000_0000 - 40
  {
    assert WellFormedMajor(l[i]);
    GapWithinFree(l[i], k);
  }

  /** A block that reaches 4 GiB past its header, or has no room to align its request, breaks the heap. */
  lemma BadBlock(l: Layout, i: nat, k: nat, size: nat, req: nat)
    requires WellFormed(l) && i < |l| && k <= |l[i].minors|
    requires 0x1_0000_0000 <= size + 40 || size < req + 32
    ensures !WellFormed(Insert(l, i, k, size, req))
  {
    var r := Insert(l, i, k, size, req);
    if WellFormed(r) {
      assert WellFormedMajor(r[i]) && r[i].minors[k].size == size && r[i].minors[k].req == req;
      MinorInside(r[i], k);
    }
  }

  /**
   The exact condition. Where malloc finds a gap, it leaves a well-formed heap if and only if the size does not wrap,
   or wraps to 0, when the caller gets a block of 1 byte; below the wrap it is the heap the model says.
   */
  lemma MallocLimit(l: Layout, bet: nat, req: nat, page: nat)
    requires WellFormed(l) && req < 0x1_0000_0000_0000_0000 && Finds(l, bet, Served(req))
    ensures WellFormed(ByOriginal(l, bet, req)) <==> Sized(req) || req == 0x1_0000_0000_0000_0000 - 32
    ensures Sized(req) ==>
      Choose(l, bet, req, page).Spot? && ByOriginal(l, bet, req) == Placed(Choose(l, bet, req, page), req)
  {
    hide WellFormed, Target, Start, FirstGap, Insert, Wrap64;
    var r := Served(req);
    ServedWhen(req);
    if Sized(r) {
      GrantedBelow(l, bet, r, page);
    } else {
      GrantedPast(l, bet, r);
    }
  }

  lemma ServedWhen(req: nat)
    requires req < 0x1_0000_0000_0000_0000
    ensures Served(req) == if req == 0x1_0000_0000_0000_0000 - 32 then 1 else req
    ensures Served(req) < 0x1_0000_0000_0000_0000 && Served(Served(req)) == Served(req)
    ensures Sized(Served(req)) <==> Sized(req) || req == 0x1_0000_0000_0000_0000 - 32
  {
  }

  lemma GrantedBelow(l: Layout, bet: nat, req: nat, page: nat)
    requires WellFormed(l) && Sized(req) && Finds(l, bet, req)
    ensures Served(req) == req && WellFormed(ByOriginal(l, bet, req))
    ensures Choose(l, bet, req, page).Spot? && ByOriginal(l, bet, req) == Placed(Choose(l, bet, req, page), req)
  {
    hide WellFormed, Start;
    NoWrap(req);
    var t := Target(l, Start(l, bet, NeedFor(req)), NeedFor(req));
    var k := FirstGap(l[t], NeedFor(req));
    GapBound(l, t, k);
    InsertKeepsWellFormed(l, t, k, SizeFor(req), req);
  }

  lemma GrantedPast(l: Layout, bet: nat, req: nat)
    requires WellFormed(l) && req < 0x1_0000_0000_0000_0000 && !Sized(req) && Served(req) == req && Finds(l, bet, req)
    ensures !WellFormed(ByOriginal(l, bet, req))
  {
    hide WellFormed, Start, Insert;
    ServedWhen(req);
    WrappedBlock(req);
    var t := Target(l, Start(l, bet, Need64(req)), Need64(req));
    BadBlock(l, t, FirstGap(l[t], Need64(req)), Wrap(Size64(req)), Wrap(req));
  }

  /** In 32-bit fields a wrapped size reaches over 4 GiB, or leaves no room to align the request. */
  lemma WrappedBlock(req: nat)
    requires req < 0x1_0000_0000_0000_0000 && !Sized(req) && req != 0x1_0000_0000_0000_0000 - 32
    ensures 0x1_0000_0000 <= Wrap(Size64(req)) + 40 || Wrap(Size64(req)) < Wrap(req) + 32
  {
  }

  /**
   In every heap with a live major, a request of 2^64 - 72 is granted, in a gap of 0 bytes if need be, and breaks
   it.
   */
  lemma WrappedRequest(l: Layout, bet: nat, req: nat)
    requires WellFormed(l) && l != [] && req == 0x1_0000_0000_0000_0000 - 72
    ensures Need64(req) == 0 && Served(req) == req && Finds(l, bet, req)
    ensures !WellFormed(ByOriginal(l, bet, req))
    ensures Choose(l, bet, req, NULL).NoRoom?
  {
    NeedExact(req);
    ServedWhen(req);
    assert WellFormedMajor(l[0]);
    assert 0 <= GapLength(l[0], 0) by { GapWithinFree(l[0], 0); }
    SearchIsComplete(l, Start(l, bet, 0), 0);
    MallocLimit(l, bet, req, NULL);
    forall i: nat, k: nat | i < |l| && k <= |l[i].minors| ensures GapLength(l[i], k) < NeedFor(req) {
      GapBound(l, i, k);
    }
    SearchIsComplete(l, Start(l, bet, NeedFor(req)), NeedFor(req));
  }

  // ---- The 32-bit page count ----

  /** The block put into a new major without a further test. */
  function FirstBlock(page: nat, req: nat): Minor { Minor(page + 40, SizeFor(req), req) }

  /** It lies inside the pages that were asked for exactly when their count does not wrap. */
  lemma GrowthLimit(page: nat, req: nat)
    requires Sized(req)
    ensures FirstBlock(page, req).End() <= page + Wrap(PagesAsked(SizeFor(req)) * 4096) <==> Bounded(SizeFor(req))
  {
    NewMajorFits(SizeFor(req));
  }

  /** For a block of 4 GiB, 16 pages are asked for, and the block ends far behind them. */
  lemma FourGigabytes(page: nat, req: nat)
    requires SizeFor(req) == 0x1_0000_0000
    ensures PagesAsked(SizeFor(req)) == 16 && page + 16 * 4096 < FirstBlock(page, req).End()
  {
  }
}
