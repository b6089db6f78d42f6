/** The layout of the liballoc heap as a value: page blocks ("majors") holding address-ordered
  * allocations ("minors"), the implicit gaps between them, and what the allocator does to it.
  * The linked structs that represent a layout in memory are in module HeapLinks. On x86_64 the header
  * of a major and that of a minor take 40 bytes each; ALIGNMENT and ALIGN_INFO are 16, a page has 4096
  * bytes, and at least 16 pages are asked for. The numbers are written out so that the solver sees them
  * as numbers. */
module HeapLayout {

  datatype Minor = Minor(addr: nat, size: nat, req: nat)
  {
    function End(): nat { addr + 40 + size }

    /** The first byte after the header, before alignment. */
    function Body(): nat { addr + 40 }

    /** The aligned pointer handed to the caller. */
    function User(): nat { Aligned(Body()) }
  }

  datatype Major = Major(addr: nat, pages: nat, minors: seq<Minor>)
  {
    function Size(): nat { pages * 4096 }

    function Limit(): nat { addr + Size() }

    function Usage(): nat { 40 + Used(minors) }
  }

  type Layout = seq<Major>

  // ---- Alignment ----

  /** How far ALIGN moves a pointer: 16 bytes, then up to the next multiple of 16. */
  function Offset(ptr: nat): nat {
    var rest := (ptr + 16) % 16;
    if rest == 0 then 16 else 16 + (16 - rest)
  }

  function Aligned(ptr: nat): nat { ptr + Offset(ptr) }

  /** The aligned pointer is a multiple of 16 and lies 16 to 31 bytes up, so the offset fits the
    * byte 16 below it, which is at or above the unaligned pointer. */
  lemma AlignedSpot(ptr: nat)
    ensures Aligned(ptr) % 16 == 0
    ensures 16 <= Offset(ptr) < 16 + 16
    ensures ptr <= Aligned(ptr) - 16 < ptr + 16
  {
  }

  /** What UNALIGN makes of a pointer and the byte kept 16 below it. */
  function Unaligned(p: nat, diff: nat): int { if diff < 32 then p - diff else p }

  /** UNALIGN undoes ALIGN, for every address. */
  lemma UnalignUndoesAlign(ptr: nat)
    ensures Unaligned(Aligned(ptr), Offset(ptr)) == ptr
  {
    AlignedSpot(ptr);
  }

  // ---- Gaps ----

  /** Where gap k of a major begins: after its header, or after minor k-1. */
  function GapStart(m: Major, k: nat): nat
    requires k <= |m.minors|
  {
    if k == 0 then m.addr + 40 else m.minors[k - 1].End()
  }

  /** Where gap k ends: at minor k, or at the end of the major. */
  function GapEnd(m: Major, k: nat): nat
    requires k <= |m.minors|
  {
    if k == |m.minors| then m.Limit() else m.minors[k].addr
  }

  function GapLength(m: Major, k: nat): int
    requires k <= |m.minors|
  {
    GapEnd(m, k) - GapStart(m, k)
  }

  /** Bytes taken by minors, their headers included. */
  function Used(minors: seq<Minor>): nat {
    if minors == [] then 0
    else Used(minors[..|minors| - 1]) + minors[|minors| - 1].size + 40
  }

  /** Bytes taken by minors, headers not included. */
  function Sizes(minors: seq<Minor>): nat {
    if minors == [] then 0 else Sizes(minors[..|minors| - 1]) + minors[|minors| - 1].size
  }

  function GapSum(m: Major, k: nat): int
    requires k <= |m.minors| + 1
  {
    if k == 0 then 0 else GapSum(m, k - 1) + GapLength(m, k - 1)
  }

  /** What `size - usage` of a major says is free. */
  function Spare(m: Major): int { m.Size() - m.Usage() }

  // ---- Well-formedness ----

  ghost predicate Ordered(m: Major) {
    forall k: nat :: k <= |m.minors| ==> GapStart(m, k) <= GapEnd(m, k)
  }

  ghost predicate Roomy(minors: seq<Minor>) {
    forall k: nat :: k < |minors| ==> minors[k].req + 16 + 16 <= minors[k].size
  }

  /** A major is a page-aligned block of pages whose 32-bit size does not wrap; its minors lie in
    * it in address order, without overlap, each with room to align its request. */
  ghost predicate WellFormedMajor(m: Major) {
    && 0 < m.addr && m.addr % 4096 == 0 && m.Size() < 0x1_0000_0000
    && Ordered(m)
    && Roomy(m.minors)
  }

  predicate Apart(a: Major, b: Major) {
    a.Limit() <= b.addr || b.Limit() <= a.addr
  }

  ghost predicate Disjoint(l: Layout) {
    forall i: nat, j: nat :: i < j < |l| ==> Apart(l[i], l[j])
  }

  ghost predicate WellFormed(l: Layout) {
    && (forall i: nat {:trigger WellFormedMajor(l[i])} :: i < |l| ==> WellFormedMajor(l[i]))
    && Disjoint(l)
  }

  /** Between calls, no major is kept without a minor. */
  ghost predicate NoneEmpty(l: Layout) {
    forall i: nat :: i < |l| ==> l[i].minors != []
  }

  ghost predicate Within(l: Layout, limit: nat) {
    forall i: nat :: i < |l| ==> l[i].Limit() <= limit
  }

  // ---- Address order ----

  /** The minors of a major follow each other. */
  lemma {:induction false} MinorsFollow(m: Major, j: nat, k: nat)
    requires Ordered(m)
    requires j < k < |m.minors|
    ensures m.minors[j].End() <= m.minors[k].addr
    decreases k
  {
    assert GapStart(m, k) <= GapEnd(m, k);
    if j < k - 1 {
      MinorsFollow(m, j, k - 1);
    }
  }

  lemma MinorInside(m: Major, k: nat)
    requires Ordered(m)
    requires k < |m.minors|
    ensures m.addr + 40 <= m.minors[k].addr
    ensures m.minors[k].End() <= m.Limit()
  {
    var last := |m.minors| - 1;
    assert GapStart(m, 0) <= GapEnd(m, 0);
    assert GapStart(m, |m.minors|) <= GapEnd(m, |m.minors|);
    if 0 < k {
      MinorsFollow(m, 0, k);
    }
    if k < last {
      MinorsFollow(m, k, last);
    }
  }

  /** Distinct minors of a well-formed heap never overlap, headers included. */
  lemma MinorsApart(l: Layout, i: nat, k: nat, j: nat, n: nat)
    requires WellFormed(l)
    requires i < |l| && k < |l[i].minors| && j < |l| && n < |l[j].minors|
    requires (i, k) != (j, n)
    ensures l[i].minors[k].End() <= l[j].minors[n].addr || l[j].minors[n].End() <= l[i].minors[k].addr
  {
    assert WellFormedMajor(l[i]) && WellFormedMajor(l[j]);
    MinorInside(l[i], k);
    MinorInside(l[j], n);
    if i == j {
      if k < n {
        MinorsFollow(l[i], k, n);
      } else {
        MinorsFollow(l[i], n, k);
      }
    } else if i < j {
      assert Apart(l[i], l[j]);
    } else {
      assert Apart(l[j], l[i]);
    }
  }

  // ---- Free space is the total of the gaps ----

  lemma {:induction false} GapSumUpTo(m: Major, k: nat)
    requires k <= |m.minors|
    ensures GapSum(m, k + 1) == GapEnd(m, k) - m.addr - 40 - Used(m.minors[..k])
    decreases k
  {
    if k == 0 {
      assert GapSum(m, 1) == GapSum(m, 0) + GapLength(m, 0);
    } else {
      GapSumUpTo(m, k - 1);
      assert m.minors[..k][..k - 1] == m.minors[..k - 1];
      assert GapSum(m, k + 1) == GapSum(m, k) + GapLength(m, k);
    }
  }

  /** The counter `usage` accounts for everything but the gaps. */
  lemma GapsAreFree(m: Major)
    ensures GapSum(m, |m.minors| + 1) == Spare(m)
  {
    GapSumUpTo(m, |m.minors|);
    assert m.minors[..|m.minors|] == m.minors;
  }

  lemma {:induction false} GapWithinSum(m: Major, k: nat, n: nat)
    requires Ordered(m)
    requires k < n <= |m.minors| + 1
    ensures 0 <= GapLength(m, k) <= GapSum(m, n)
    decreases n
  {
    assert GapStart(m, n - 1) <= GapEnd(m, n - 1);
    assert GapSum(m, n) == GapSum(m, n - 1) + GapLength(m, n - 1);
    if k < n - 1 {
      GapWithinSum(m, k, n - 1);
    } else if 0 < n - 1 {
      GapWithinSum(m, 0, n - 1);
    }
  }

  /** No gap is larger than what `size - usage` leaves: the quick test of the search is sound. */
  lemma GapWithinFree(m: Major, k: nat)
    requires Ordered(m)
    requires k <= |m.minors|
    ensures 0 <= GapLength(m, k) <= Spare(m)
  {
    GapsAreFree(m);
    GapWithinSum(m, k, |m.minors| + 1);
  }

  // ---- The search for a gap ----

  /** The first gap of a major, from gap k on, that holds `need` bytes; one past the last gap when
    * there is none. */
  function FirstGapFrom(m: Major, need: nat, k: nat): (r: nat)
    requires k <= |m.minors| + 1
    ensures k <= r <= |m.minors| + 1
    ensures r <= |m.minors| ==> need <= GapLength(m, r)
    ensures forall j: nat :: k <= j < r ==> GapLength(m, j) < need
    decreases |m.minors| + 1 - k
  {
    if k == |m.minors| + 1 || need <= GapLength(m, k) then k else FirstGapFrom(m, need, k + 1)
  }

  function FirstGap(m: Major, need: nat): nat { FirstGapFrom(m, need, 0) }

  lemma FirstGapStep(m: Major, need: nat, k: nat)
    requires k <= |m.minors|
    ensures FirstGapFrom(m, need, k) == if need <= GapLength(m, k) then k else FirstGapFrom(m, need, k + 1)
  {
  }

  predicate HasGap(m: Major, need: nat) { FirstGap(m, need) <= |m.minors| }

  /** The first major, from index i on, with a gap for `need` bytes; |l| when there is none. */
  function FindFrom(l: Layout, i: nat, need: nat): (r: nat)
    requires i <= |l|
    ensures i <= r <= |l|
    ensures r < |l| ==> HasGap(l[r], need)
    ensures forall j: nat {:trigger HasGap(l[j], need)} :: i <= j < r ==> !HasGap(l[j], need)
    decreases |l| - i
  {
    if i == |l| || HasGap(l[i], need) then i else FindFrom(l, i + 1, need)
  }

  /** The major a request goes to when the search starts at index `start` and may restart. */
  function Target(l: Layout, start: nat, need: nat): (r: nat)
    requires start <= |l|
    ensures r <= |l|
  {
    var t := FindFrom(l, start, need);
    if t < |l| then t else FindFrom(l, 0, need)
  }

  /** The search is complete wherever it starts: it fails only when no live major has a contiguous
    * gap of the needed length. */
  lemma SearchIsComplete(l: Layout, start: nat, need: nat)
    requires start <= |l|
    ensures Target(l, start, need) == |l|
      <==> forall i: nat, k: nat :: i < |l| && k <= |l[i].minors| ==> GapLength(l[i], k) < need
  {
    if Target(l, start, need) == |l| {
      forall i: nat, k: nat | i < |l| && k <= |l[i].minors| ensures GapLength(l[i], k) < need {
        assert !HasGap(l[i], need);
      }
    }
  }

  // ---- What the allocator does to a layout ----

  function SizeFor(req: nat): nat { req + 16 + 16 }

  function NeedFor(req: nat): nat { SizeFor(req) + 40 }

  /** The pages asked of the hook for a block of `size` bytes. */
  function PagesFor(size: nat): (r: nat)
    ensures size + 40 + 40 <= r * 4096
    ensures 16 <= r
    ensures r == 16 || (r - 1) * 4096 < size + 40 + 40
  {
    var st := size + 40 + 40;
    var pages := if st % 4096 == 0 then st / 4096 else st / 4096 + 1;
    if pages < 16 then 16 else pages
  }

  function Place(m: Major, k: nat, size: nat, req: nat): Major
    requires k <= |m.minors|
  {
    m.(minors := m.minors[..k] + [Minor(GapStart(m, k), size, req)] + m.minors[k..])
  }

  function Insert(l: Layout, i: nat, k: nat, size: nat, req: nat): (r: Layout)
    requires i < |l| && k <= |l[i].minors|
  {
    l[i := Place(l[i], k, size, req)]
  }

  function Drop(m: Major, k: nat): Major
    requires k < |m.minors|
  {
    m.(minors := m.minors[..k] + m.minors[k + 1..])
  }

  /** Freeing minor k of major i: a major left without minors goes back to the system. */
  function Remove(l: Layout, i: nat, k: nat): Layout
    requires i < |l| && k < |l[i].minors|
  {
    if |l[i].minors| == 1 then l[..i] + l[i + 1..] else l[i := Drop(l[i], k)]
  }

  function NewMajor(page: nat, size: nat): Major { Major(page, PagesFor(size), []) }

  /** Shrinking a request in place. */
  function Shrink(l: Layout, i: nat, k: nat, req: nat): Layout
    requires i < |l| && k < |l[i].minors|
  {
    l[i := l[i].(minors := l[i].minors[k := l[i].minors[k].(req := req)])]
  }

  /** What the page hook promises of a block of pages. */
  ghost predicate FreshPages(l: Layout, page: nat, pages: nat, limit: nat) {
    && 0 < page && page % 4096 == 0 && page + pages * 4096 <= limit
    && forall i: nat :: i < |l| ==> Apart(l[i], Major(page, pages, []))
  }

  // ---- Every operation keeps the heap well-formed ----

  lemma PlaceKeepsMajor(m: Major, k: nat, size: nat, req: nat)
    requires WellFormedMajor(m)
    requires k <= |m.minors| && size + 40 <= GapLength(m, k)
    requires SizeFor(req) <= size
    ensures WellFormedMajor(Place(m, k, size, req))
  {
    var p := Place(m, k, size, req);
    forall j: nat | j <= |p.minors| ensures GapStart(p, j) <= GapEnd(p, j) {
      if j < k {
        assert GapStart(m, j) <= GapEnd(m, j);
      } else if k + 1 < j {
        assert GapStart(m, j - 1) <= GapEnd(m, j - 1);
      }
    }
  }

  lemma InsertKeepsWellFormed(l: Layout, i: nat, k: nat, size: nat, req: nat)
    requires WellFormed(l)
    requires i < |l| && k <= |l[i].minors| && size + 40 <= GapLength(l[i], k)
    requires SizeFor(req) <= size
    ensures WellFormed(Insert(l, i, k, size, req))
  {
    assert WellFormedMajor(l[i]);
    PlaceKeepsMajor(l[i], k, size, req);
    ReplaceKeepsWellFormed(l, i, Place(l[i], k, size, req));
  }

  lemma AppendKeepsWellFormed(l: Layout, page: nat, size: nat, limit: nat)
    requires WellFormed(l)
    requires FreshPages(l, page, PagesFor(size), limit)
    requires PagesFor(size) * 4096 < 0x1_0000_0000
    ensures WellFormed(l + [NewMajor(page, size)])
    ensures FirstGap(NewMajor(page, size), size + 40) == 0
  {
    var m := NewMajor(page, size);
    var r := l + [m];
    assert GapStart(m, 0) <= GapEnd(m, 0);
    assert GapLength(m, 0) == m.Size() - 40;
    forall a: nat, b: nat | a < b < |r| ensures Apart(r[a], r[b]) {
      if b < |l| {
        assert Apart(l[a], l[b]);
      } else {
        assert Apart(l[a], Major(page, PagesFor(size), []));
      }
    }
  }

  lemma DropKeepsMajor(m: Major, k: nat)
    requires WellFormedMajor(m)
    requires k < |m.minors|
    ensures WellFormedMajor(Drop(m, k))
  {
    var d := Drop(m, k);
    forall j: nat | j <= |d.minors| ensures GapStart(d, j) <= GapEnd(d, j) {
      if j < k {
        assert GapStart(m, j) <= GapEnd(m, j);
      } else if j == k {
        assert GapStart(m, k) <= GapEnd(m, k);
        assert GapStart(m, k + 1) <= GapEnd(m, k + 1);
      } else {
        assert GapStart(m, j + 1) <= GapEnd(m, j + 1);
      }
    }
  }

  lemma ReplaceKeepsWellFormed(l: Layout, i: nat, m: Major)
    requires WellFormed(l) && WellFormedMajor(m)
    requires i < |l| && m.addr == l[i].addr && m.pages == l[i].pages
    ensures WellFormed(l[i := m])
  {
    var r := l[i := m];
    forall a: nat, b: nat | a < b < |r| ensures Apart(r[a], r[b]) {
      assert Apart(l[a], l[b]);
    }
    forall a: nat | a < |r| ensures WellFormedMajor(r[a]) {
      assert a != i ==> WellFormedMajor(l[a]);
    }
  }

  lemma WithoutKeepsWellFormed(l: Layout, i: nat)
    requires WellFormed(l) && i < |l|
    ensures WellFormed(l[..i] + l[i + 1..])
  {
    var r := l[..i] + l[i + 1..];
    forall a: nat, b: nat | a < b < |r| ensures Apart(r[a], r[b]) {
      var a', b' := if a < i then a else a + 1, if b < i then b else b + 1;
      assert r[a] == l[a'] && r[b] == l[b'];
      assert Apart(l[a'], l[b']);
    }
    forall a: nat | a < |r| ensures WellFormedMajor(r[a]) {
      assert WellFormedMajor(l[if a < i then a else a + 1]);
    }
  }

  lemma RemoveKeepsWellFormed(l: Layout, i: nat, k: nat)
    requires WellFormed(l)
    requires i < |l| && k < |l[i].minors|
    ensures WellFormed(Remove(l, i, k))
    ensures NoneEmpty(l) ==> NoneEmpty(Remove(l, i, k))
  {
    if |l[i].minors| == 1 {
      WithoutKeepsWellFormed(l, i);
    } else {
      assert WellFormedMajor(l[i]);
      DropKeepsMajor(l[i], k);
      ReplaceKeepsWellFormed(l, i, Drop(l[i], k));
    }
  }

  lemma ShrinkKeepsWellFormed(l: Layout, i: nat, k: nat, req: nat)
    requires WellFormed(l)
    requires i < |l| && k < |l[i].minors| && req <= l[i].minors[k].req
    ensures WellFormed(Shrink(l, i, k, req))
    ensures NoneEmpty(l) ==> NoneEmpty(Shrink(l, i, k, req))
  {
    var r := Shrink(l, i, k, req);
    assert WellFormedMajor(l[i]);
    forall j: nat | j <= |r[i].minors| ensures GapStart(r[i], j) <= GapEnd(r[i], j) {
      assert GapStart(l[i], j) <= GapEnd(l[i], j);
    }
    forall a: nat, b: nat | a < b < |r| ensures Apart(r[a], r[b]) {
      assert Apart(l[a], l[b]);
    }
  }

  // ---- Freeing undoes allocating ----

  /** Freeing a block just placed gives the old layout back. */
  lemma RemoveUndoesInsert(l: Layout, i: nat, k: nat, size: nat, req: nat)
    requires i < |l| && k <= |l[i].minors| && l[i].minors != []
    ensures Remove(Insert(l, i, k, size, req), i, k) == l
  {
    var p := Place(l[i], k, size, req);
    assert p.minors[..k] + p.minors[k + 1..] == l[i].minors;
  }

  /** Freeing a block placed in a new major gives the pages back too. */
  lemma RemoveUndoesNewMajor(l: Layout, m: Major, size: nat, req: nat)
    requires m.minors == []
    ensures Remove(Insert(l + [m], |l|, 0, size, req), |l|, 0) == l
  {
    var r := Insert(l + [m], |l|, 0, size, req);
    assert r[..|l|] + r[|l| + 1..] == l;
  }

  // ---- Accounting ----

  /** The bytes held from the system. */
  function Held(l: Layout): nat {
    if l == [] then 0 else Held(l[..|l| - 1]) + l[|l| - 1].Size()
  }

  /** The bytes of all minors, headers not included. */
  function InUse(l: Layout): nat {
    if l == [] then 0 else InUse(l[..|l| - 1]) + Sizes(l[|l| - 1].minors)
  }

  lemma {:induction false} UsedConcat(a: seq<Minor>, b: seq<Minor>)
    ensures Used(a + b) == Used(a) + Used(b)
    ensures Sizes(a + b) == Sizes(a) + Sizes(b)
    decreases |b|
  {
    if b == [] {
      assert a + b == a;
    } else {
      var n := |b| - 1;
      assert (a + b)[..|a + b| - 1] == a + b[..n];
      UsedConcat(a, b[..n]);
    }
  }

  lemma SingleUsed(n: Minor)
    ensures Used([n]) == n.size + 40
    ensures Sizes([n]) == n.size
  {
    assert [n][..0] == [];
  }

  lemma PlaceUsed(m: Major, k: nat, size: nat, req: nat)
    requires k <= |m.minors|
    ensures Used(Place(m, k, size, req).minors) == Used(m.minors) + size + 40
    ensures Sizes(Place(m, k, size, req).minors) == Sizes(m.minors) + size
  {
    var n := Minor(GapStart(m, k), size, req);
    assert m.minors[..k] + m.minors[k..] == m.minors;
    UsedConcat(m.minors[..k], m.minors[k..]);
    UsedConcat(m.minors[..k], [n]);
    UsedConcat(m.minors[..k] + [n], m.minors[k..]);
    SingleUsed(n);
  }

  lemma DropUsed(m: Major, k: nat)
    requires k < |m.minors|
    ensures Used(Drop(m, k).minors) == Used(m.minors) - m.minors[k].size - 40
    ensures Sizes(Drop(m, k).minors) == Sizes(m.minors) - m.minors[k].size
  {
    var n := m.minors[k];
    assert m.minors[..k] + [n] + m.minors[k + 1..] == m.minors;
    UsedConcat(m.minors[..k], m.minors[k + 1..]);
    UsedConcat(m.minors[..k], [n]);
    UsedConcat(m.minors[..k] + [n], m.minors[k + 1..]);
    SingleUsed(n);
  }

  lemma {:induction false} TotalsConcat(a: Layout, b: Layout)
    ensures Held(a + b) == Held(a) + Held(b)
    ensures InUse(a + b) == InUse(a) + InUse(b)
    decreases |b|
  {
    if b == [] {
      assert a + b == a;
    } else {
      var n := |b| - 1;
      assert (a + b)[..|a + b| - 1] == a + b[..n];
      TotalsConcat(a, b[..n]);
    }
  }

  lemma SingleTotals(m: Major)
    ensures Held([m]) == m.Size()
    ensures InUse([m]) == Sizes(m.minors)
  {
    assert [m][..0] == [];
  }

  /** Replacing one major moves the totals by the difference. */
  lemma ReplaceTotals(l: Layout, i: nat, m: Major)
    requires i < |l|
    ensures Held(l[i := m]) == Held(l) - l[i].Size() + m.Size()
    ensures InUse(l[i := m]) == InUse(l) - Sizes(l[i].minors) + Sizes(m.minors)
  {
    var a, b := l[..i], l[i + 1..];
    assert l == a + [l[i]] + b;
    assert l[i := m] == a + [m] + b;
    SplitTotals(a, l[i], b);
    SplitTotals(a, m, b);
  }

  lemma SplitTotals(a: Layout, m: Major, b: Layout)
    ensures Held(a + [m] + b) == Held(a) + m.Size() + Held(b)
    ensures InUse(a + [m] + b) == InUse(a) + Sizes(m.minors) + InUse(b)
  {
    TotalsConcat(a, [m]);
    TotalsConcat(a + [m], b);
    SingleTotals(m);
  }

  lemma InsertTotals(l: Layout, i: nat, k: nat, size: nat, req: nat)
    requires i < |l| && k <= |l[i].minors|
    ensures Held(Insert(l, i, k, size, req)) == Held(l)
    ensures InUse(Insert(l, i, k, size, req)) == InUse(l) + size
  {
    PlaceUsed(l[i], k, size, req);
    ReplaceTotals(l, i, Place(l[i], k, size, req));
  }

  lemma RemoveMajorTotals(l: Layout, i: nat)
    requires i < |l|
    ensures Held(l[..i] + l[i + 1..]) == Held(l) - l[i].Size()
    ensures InUse(l[..i] + l[i + 1..]) == InUse(l) - Sizes(l[i].minors)
  {
    hide Held, InUse, Sizes;
    assert l == l[..i] + [l[i]] + l[i + 1..];
    WithoutTotals(l[..i], l[i], l[i + 1..]);
  }

  lemma WithoutTotals(a: Layout, m: Major, b: Layout)
    ensures Held(a + b) == Held(a + [m] + b) - m.Size()
    ensures InUse(a + b) == InUse(a + [m] + b) - Sizes(m.minors)
  {
    hide Held, InUse, Sizes;
    SplitTotals(a, m, b);
    TotalsConcat(a, b);
  }

  lemma RemoveTotals(l: Layout, i: nat, k: nat)
    requires i < |l| && k < |l[i].minors|
    ensures InUse(Remove(l, i, k)) == InUse(l) - l[i].minors[k].size
    ensures Held(Remove(l, i, k)) == if |l[i].minors| == 1 then Held(l) - l[i].Size() else Held(l)
  {
    if |l[i].minors| == 1 {
      RemoveMajorTotals(l, i);
      assert l[i].minors == [l[i].minors[k]];
      SingleUsed(l[i].minors[k]);
    } else {
      DropUsed(l[i], k);
      ReplaceTotals(l, i, Drop(l[i], k));
    }
  }

  lemma {:induction false} ShrinkSizes(minors: seq<Minor>, k: nat, req: nat)
    requires k < |minors|
    ensures Used(minors[k := minors[k].(req := req)]) == Used(minors)
    ensures Sizes(minors[k := minors[k].(req := req)]) == Sizes(minors)
    decreases |minors|
  {
    var s := minors[k := minors[k].(req := req)];
    var n := |minors| - 1;
    if k < n {
      assert s[..n] == minors[..n][k := minors[..n][k].(req := req)];
      ShrinkSizes(minors[..n], k, req);
    } else {
      assert s[..n] == minors[..n];
    }
  }

  // ---- User ranges ----

  /** Address a lies in the bytes the caller of minor n may use. */
  predicate InUserRange(n: Minor, a: nat) { n.User() <= a < n.User() + n.req }

  /** The byte where ALIGN keeps the offset of minor n. */
  function OffsetByte(n: Minor): nat
    ensures n.Body() <= OffsetByte(n) < n.User()
  {
    AlignedSpot(n.Body());
    n.User() - 16
  }

  /** A user range is 16-aligned and, with its offset byte before it, inside its own minor's body. */
  lemma UserRangeInside(n: Minor)
    requires n.req + 16 + 16 <= n.size
    ensures n.User() % 16 == 0
    ensures n.Body() <= OffsetByte(n) < n.User()
    ensures n.User() + n.req <= n.End()
  {
    AlignedSpot(n.Body());
  }

  /** No live user range meets another minor, header or body, or the header of a major; nor does it
    * hold an offset byte, its own included. */
  lemma UserRangesDisjoint(l: Layout, i: nat, k: nat, a: nat)
    requires WellFormed(l)
    requires i < |l| && k < |l[i].minors| && InUserRange(l[i].minors[k], a)
    ensures l[i].addr + 40 <= a < l[i].Limit()
    ensures forall j: nat :: j < |l| && j != i ==> !(l[j].addr <= a < l[j].Limit())
    ensures forall j: nat, n: nat {:trigger l[j].minors[n]} ::
      j < |l| && n < |l[j].minors| && (j, n) != (i, k) ==>
        !(l[j].minors[n].addr <= a < l[j].minors[n].End()) && a != OffsetByte(l[j].minors[n])
    ensures l[i].minors[k].Body() <= a && a != OffsetByte(l[i].minors[k])
  {
    assert WellFormedMajor(l[i]);
    UserRangeInside(l[i].minors[k]);
    MinorInside(l[i], k);
    forall j: nat | j < |l| && j != i ensures !(l[j].addr <= a < l[j].Limit()) {
      if i < j {
        assert Apart(l[i], l[j]);
      } else {
        assert Apart(l[j], l[i]);
      }
    }
    forall j: nat, n: nat | j < |l| && n < |l[j].minors| && (j, n) != (i, k)
      ensures !(l[j].minors[n].addr <= a < l[j].minors[n].End()) && a != OffsetByte(l[j].minors[n])
    {
      MinorsApart(l, i, k, j, n);
      assert WellFormedMajor(l[j]);
      UserRangeInside(l[j].minors[n]);
    }
  }
}
