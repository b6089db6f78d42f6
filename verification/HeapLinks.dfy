/** How the header structs in memory represent a layout: a doubly linked list of majors and, in each
  * major, a doubly linked list of minors. The lemmas say which header updates turn the
  * representation of one layout into that of another. */
module HeapLinks {
  import opened HeapLayout

  const NULL: nat := 0
  const MAGIC: nat := 0xc001c0de
  const DEAD: nat := 0xdeaddead

  datatype MajorHeader = MajorHeader(prev: nat, next: nat, pages: nat, size: nat, usage: nat, first: nat)

  datatype MinorHeader = MinorHeader(prev: nat, next: nat, block: nat, magic: nat, size: nat, req: nat)

  /** The header store may also hold stale headers: freed minors and released majors. */
  type MajorTable = map<nat, MajorHeader>
  type MinorTable = map<nat, MinorHeader>

  function MajorAddr(l: Layout, i: int): nat { if 0 <= i < |l| then l[i].addr else NULL }

  function MinorAddr(m: Major, k: int): nat { if 0 <= k < |m.minors| then m.minors[k].addr else NULL }

  function MajorHeaderOf(l: Layout, i: nat): MajorHeader
    requires i < |l|
  {
    MajorHeader(MajorAddr(l, i - 1), MajorAddr(l, i + 1), l[i].pages, l[i].Size(), l[i].Usage(), MinorAddr(l[i], 0))
  }

  function MinorHeaderOf(m: Major, k: nat): MinorHeader
    requires k < |m.minors|
  {
    MinorHeader(MinorAddr(m, k - 1), MinorAddr(m, k + 1), m.addr, MAGIC, m.minors[k].size, m.minors[k].req)
  }

  predicate Holds<T(==)>(t: map<nat, T>, a: nat, header: T) {
    a in t && t[a] == header
  }

  predicate MajorLinked(t: MajorTable, l: Layout, i: nat)
    requires i < |l|
  {
    Holds(t, l[i].addr, MajorHeaderOf(l, i))
  }

  predicate MinorLinked(t: MinorTable, m: Major, k: nat)
    requires k < |m.minors|
  {
    Holds(t, m.minors[k].addr, MinorHeaderOf(m, k))
  }

  ghost predicate MajorsLinked(t: MajorTable, l: Layout) {
    forall i: nat :: i < |l| ==> MajorLinked(t, l, i)
  }

  ghost predicate MinorsLinked(t: MinorTable, m: Major) {
    forall k: nat :: k < |m.minors| ==> MinorLinked(t, m, k)
  }

  ghost predicate AllMinorsLinked(t: MinorTable, l: Layout) {
    forall i: nat {:trigger MinorsLinked(t, l[i])} :: i < |l| ==> MinorsLinked(t, l[i])
  }

  // ---- Header updates, one field at a time ----

  function SetNext(t: MajorTable, a: nat, next: nat): MajorTable {
    if a in t then t[a := t[a].(next := next)] else t
  }

  function SetPrev(t: MajorTable, a: nat, prev: nat): MajorTable {
    if a in t then t[a := t[a].(prev := prev)] else t
  }

  function SetMinorNext(t: MinorTable, a: nat, next: nat): MinorTable {
    if a in t then t[a := t[a].(next := next)] else t
  }

  function SetMinorPrev(t: MinorTable, a: nat, prev: nat): MinorTable {
    if a in t then t[a := t[a].(prev := prev)] else t
  }

  // ---- Inside one major ----

  lemma MinorAddressesDiffer(m: Major, j: nat, k: nat)
    requires Ordered(m)
    requires j < |m.minors| && k < |m.minors|
    ensures j != k ==> m.minors[j].addr != m.minors[k].addr
  {
    if j < k {
      MinorsFollow(m, j, k);
    } else if k < j {
      MinorsFollow(m, k, j);
    }
  }

  /** Only headers inside major m differ between two tables. */
  ghost predicate SameOutside(before: MinorTable, after: MinorTable, m: Major) {
    forall a: nat :: a in before && !(m.addr <= a < m.Limit()) ==> Holds(after, a, before[a])
  }

  lemma MinorsFrame(before: MinorTable, after: MinorTable, m: Major, o: Major)
    requires MinorsLinked(before, o) && Ordered(o) && Apart(m, o)
    requires SameOutside(before, after, m)
    ensures MinorsLinked(after, o)
  {
    forall k: nat | k < |o.minors| ensures MinorLinked(after, o, k) {
      assert MinorLinked(before, o, k);
      MinorInside(o, k);
    }
  }

  /** Majors keep apart in both directions. */
  lemma MajorsApart(l: Layout, i: nat, j: nat)
    requires WellFormed(l)
    requires i < |l| && j < |l| && i != j
    ensures Apart(l[i], l[j])
  {
    if i < j {
      assert Apart(l[i], l[j]);
    } else {
      assert Apart(l[j], l[i]);
    }
  }

  /** An update of the headers in major i leaves the links of all other majors alone. */
  lemma ReplaceLinks(before: MinorTable, after: MinorTable, l: Layout, i: nat, m: Major)
    requires WellFormed(l) && AllMinorsLinked(before, l)
    requires i < |l| && m.addr == l[i].addr && m.pages == l[i].pages
    requires SameOutside(before, after, l[i]) && MinorsLinked(after, m)
    ensures AllMinorsLinked(after, l[i := m])
  {
    forall j: nat | j < |l| && j != i ensures MinorsLinked(after, l[j]) {
      MajorsApart(l, i, j);
      assert WellFormedMajor(l[j]) && MinorsLinked(before, l[j]);
      MinorsFrame(before, after, l[i], l[j]);
    }
  }

  /** The place of an old element in a sequence where element k is new. */
  function Shifted(k: nat, q: nat): nat { if q < k then q else q + 1 }

  ghost predicate AddsMinor(m: Major, p: Major, k: nat) {
    && k <= |m.minors| && p.addr == m.addr && |p.minors| == |m.minors| + 1
    && forall q: nat :: q < |m.minors| ==> m.minors[q] == p.minors[Shifted(k, q)]
  }

  /** Storing a header for minor k and linking its neighbours to it. */
  function LinkIn(t: MinorTable, m: Major, k: nat, n: nat, header: MinorHeader): MinorTable {
    SetMinorPrev(SetMinorNext(t[n := header], MinorAddr(m, k - 1), n), MinorAddr(m, k), n)
  }

  lemma LinkInKeepsNull(t: MinorTable, m: Major, k: nat, n: nat, header: MinorHeader)
    requires NULL !in t && n != NULL
    ensures NULL !in LinkIn(t, m, k, n, header)
  {
  }

  lemma ShiftedNeighbours(m: Major, p: Major, k: nat, q: nat)
    requires AddsMinor(m, p, k) && q < |m.minors|
    ensures q != k ==> MinorAddr(p, Shifted(k, q) - 1) == MinorAddr(m, q - 1)
    ensures q + 1 != k ==> MinorAddr(p, Shifted(k, q) + 1) == MinorAddr(m, q + 1)
  {
    assert 0 < q ==> m.minors[q - 1] == p.minors[Shifted(k, q - 1)];
    assert q + 1 < |m.minors| ==> m.minors[q + 1] == p.minors[Shifted(k, q + 1)];
  }

  /** The neighbours of minor k in the old and the new major, and the addresses they differ from. */
  lemma NewNeighbours(m: Major, p: Major, k: nat, j: nat)
    requires Ordered(p) && AddsMinor(m, p, k) && j < |p.minors| && p.minors[j].addr != NULL
    ensures MinorAddr(p, k - 1) == MinorAddr(m, k - 1) && MinorAddr(p, k + 1) == MinorAddr(m, k)
    ensures j != k ==> p.minors[j].addr != p.minors[k].addr
    ensures j + 1 != k ==> p.minors[j].addr != MinorAddr(m, k - 1)
    ensures j != k + 1 ==> p.minors[j].addr != MinorAddr(m, k)
  {
    assert 0 < k ==> m.minors[k - 1] == p.minors[Shifted(k, k - 1)];
    assert k < |m.minors| ==> m.minors[k] == p.minors[Shifted(k, k)];
    MinorAddressesDiffer(p, j, k);
    if 0 < k {
      MinorAddressesDiffer(p, j, k - 1);
    }
    if k < |m.minors| {
      MinorAddressesDiffer(p, j, k + 1);
    }
  }

  lemma LinkInOld(t: MinorTable, m: Major, k: nat, p: Major, q: nat)
    requires MinorsLinked(t, m) && Ordered(p) && AddsMinor(m, p, k) && q < |m.minors|
    requires m.minors[q].addr != NULL
    ensures MinorLinked(LinkIn(t, m, k, p.minors[k].addr, MinorHeaderOf(p, k)), p, Shifted(k, q))
  {
    assert MinorLinked(t, m, q);
    assert m.minors[q] == p.minors[Shifted(k, q)];
    NewNeighbours(m, p, k, Shifted(k, q));
    ShiftedNeighbours(m, p, k, q);
  }

  lemma LinkInLinks(t: MinorTable, m: Major, k: nat, p: Major)
    requires MinorsLinked(t, m) && Ordered(p) && AddsMinor(m, p, k)
    ensures MinorsLinked(LinkIn(t, m, k, p.minors[k].addr, MinorHeaderOf(p, k)), p)
  {
    var r := LinkIn(t, m, k, p.minors[k].addr, MinorHeaderOf(p, k));
    forall j: nat | j < |p.minors| ensures MinorLinked(r, p, j) {
      MinorInside(p, j);
      if j == k {
        NewNeighbours(m, p, k, k);
      } else {
        var q := if j < k then j else j - 1;
        assert m.minors[q] == p.minors[Shifted(k, q)];
        LinkInOld(t, m, k, p, q);
      }
    }
  }

  lemma LinkInStaysInside(t: MinorTable, m: Major, k: nat, n: nat, header: MinorHeader)
    requires Ordered(m) && MinorsLinked(t, m) && NULL !in t
    requires k <= |m.minors| && m.addr <= n < m.Limit() && n != NULL
    ensures SameOutside(t, LinkIn(t, m, k, n, header), m)
  {
    if 0 < k {
      MinorInside(m, k - 1);
    }
    if k < |m.minors| {
      MinorInside(m, k);
    }
  }

  /** Linking a header into gap k represents the major with a minor placed there. */
  lemma LinkInPlaces(t: MinorTable, m: Major, k: nat, size: nat, req: nat)
    requires WellFormedMajor(m) && MinorsLinked(t, m) && NULL !in t
    requires k <= |m.minors| && size + 40 <= GapLength(m, k) && SizeFor(req) <= size
    ensures var p := Place(m, k, size, req);
      MinorsLinked(LinkIn(t, m, k, GapStart(m, k), MinorHeaderOf(p, k)), p)
    ensures var p := Place(m, k, size, req);
      SameOutside(t, LinkIn(t, m, k, GapStart(m, k), MinorHeaderOf(p, k)), m)
  {
    var p := Place(m, k, size, req);
    PlaceKeepsMajor(m, k, size, req);
    assert AddsMinor(m, p, k) && p.minors[k] == Minor(GapStart(m, k), size, req);
    LinkInLinks(t, m, k, p);
    MinorInside(p, k);
    LinkInStaysInside(t, m, k, GapStart(m, k), MinorHeaderOf(p, k));
  }

  /** Marking minor k dead and linking its neighbours to each other. */
  function LinkOut(t: MinorTable, m: Major, k: nat): MinorTable
    requires k < |m.minors| && m.minors[k].addr in t
  {
    var dead := t[m.minors[k].addr := t[m.minors[k].addr].(magic := DEAD)];
    SetMinorNext(
      SetMinorPrev(dead, MinorAddr(m, k + 1), MinorAddr(m, k - 1)),
      MinorAddr(m, k - 1), MinorAddr(m, k + 1))
  }

  lemma DropNeighbours(m: Major, k: nat, j: nat)
    requires k < |m.minors| && j < |m.minors| - 1
    ensures Drop(m, k).minors[j] == m.minors[Shifted(k, j)]
    ensures MinorAddr(Drop(m, k), j - 1) == MinorAddr(m, if j == k then k - 1 else Shifted(k, j) - 1)
    ensures MinorAddr(Drop(m, k), j + 1) == MinorAddr(m, if j + 1 == k then k + 1 else Shifted(k, j) + 1)
  {
  }

  lemma NeighboursDiffer(m: Major, k: nat, o: nat)
    requires Ordered(m) && k < |m.minors| && o < |m.minors| && m.minors[o].addr != NULL
    ensures o != k ==> m.minors[o].addr != m.minors[k].addr
    ensures o + 1 != k ==> m.minors[o].addr != MinorAddr(m, k - 1)
    ensures o != k + 1 ==> m.minors[o].addr != MinorAddr(m, k + 1)
  {
    MinorAddressesDiffer(m, o, k);
    if 0 < k {
      MinorAddressesDiffer(m, o, k - 1);
    }
    if k + 1 < |m.minors| {
      MinorAddressesDiffer(m, o, k + 1);
    }
  }

  /** Linking a minor out represents the major without it. */
  lemma LinkOutDrops(t: MinorTable, m: Major, k: nat)
    requires WellFormedMajor(m) && MinorsLinked(t, m) && NULL !in t
    requires k < |m.minors| && m.minors[k].addr in t
    ensures MinorsLinked(LinkOut(t, m, k), Drop(m, k))
    ensures SameOutside(t, LinkOut(t, m, k), m)
  {
    forall j: nat | j < |Drop(m, k).minors| ensures MinorLinked(LinkOut(t, m, k), Drop(m, k), j) {
      var o := Shifted(k, j);
      MinorInside(m, o);
      assert MinorLinked(t, m, o);
      NeighboursDiffer(m, k, o);
      DropNeighbours(m, k, j);
    }
    MinorInside(m, k);
    if 0 < k {
      MinorInside(m, k - 1);
    }
    if k + 1 < |m.minors| {
      MinorInside(m, k + 1);
    }
  }

  // ---- The list of majors ----

  lemma AddressesDiffer(l: Layout, i: nat, j: nat)
    requires WellFormed(l)
    requires i < |l| && j < |l|
    ensures l[i].addr != NULL
    ensures i != j ==> l[i].addr != l[j].addr
  {
    assert WellFormedMajor(l[i]) && WellFormedMajor(l[j]);
    MajorSpans(l[i]);
    MajorSpans(l[j]);
    if i != j {
      MajorsApart(l, i, j);
    }
  }

  lemma MajorSpans(m: Major)
    requires Ordered(m)
    ensures m.addr + 40 <= m.Limit()
  {
    var n := |m.minors|;
    assert GapStart(m, n) <= GapEnd(m, n);
    if 0 < n {
      MinorInside(m, n - 1);
    }
  }

  /** Changing the minors of major i changes its own header only. */
  lemma ReplaceMajorHeader(t: MajorTable, l: Layout, i: nat, m: Major, usage: nat, first: nat)
    requires WellFormed(l) && MajorsLinked(t, l)
    requires i < |l| && m.addr == l[i].addr && m.pages == l[i].pages && m.addr in t
    requires usage == m.Usage() && first == MinorAddr(m, 0)
    ensures MajorsLinked(t[m.addr := t[m.addr].(usage := usage, first := first)], l[i := m])
  {
    var t' := t[m.addr := t[m.addr].(usage := usage, first := first)];
    var r := l[i := m];
    forall j: nat | j < |r| ensures MajorLinked(t', r, j) {
      assert MajorLinked(t, l, j);
      AddressesDiffer(l, i, j);
    }
  }

  /** A new block of pages goes to the end of the list. */
  lemma AppendMajorHeader(t: MajorTable, l: Layout, m: Major)
    requires WellFormed(l + [m]) && MajorsLinked(t, l) && m.minors == []
    ensures var last := MajorAddr(l, |l| - 1);
      var t1 := t[m.addr := MajorHeader(NULL, NULL, m.pages, m.Size(), 40, NULL)];
      MajorsLinked(if l == [] then t1 else SetPrev(SetNext(t1, last, m.addr), m.addr, last), l + [m])
  {
    var r := l + [m];
    var last := MajorAddr(l, |l| - 1);
    var t1 := t[m.addr := MajorHeader(NULL, NULL, m.pages, m.Size(), 40, NULL)];
    var t2 := if l == [] then t1 else SetPrev(SetNext(t1, last, m.addr), m.addr, last);
    forall j: nat | j < |r| ensures MajorLinked(t2, r, j) {
      AddressesDiffer(r, j, |l|);
      if 0 < |l| {
        AddressesDiffer(r, j, |l| - 1);
      }
      assert j < |l| ==> MajorLinked(t, l, j);
    }
  }

  /** Unlinking major i from the list. */
  function UnlinkMajor(t: MajorTable, l: Layout, i: nat): MajorTable
    requires i < |l|
  {
    SetPrev(
      SetNext(t, MajorAddr(l, i - 1), MajorAddr(l, i + 1)),
      MajorAddr(l, i + 1), MajorAddr(l, i - 1))
  }

  lemma UnlinkNeighbours(l: Layout, i: nat, j: nat)
    requires i < |l| && j < |l| - 1
    ensures var r := l[..i] + l[i + 1..];
      && r[j] == l[Shifted(i, j)]
      && MajorAddr(r, j - 1) == MajorAddr(l, if j == i then i - 1 else Shifted(i, j) - 1)
      && MajorAddr(r, j + 1) == MajorAddr(l, if j + 1 == i then i + 1 else Shifted(i, j) + 1)
  {
  }

  lemma MajorNeighboursDiffer(l: Layout, i: nat, o: nat)
    requires WellFormed(l) && i < |l| && o < |l|
    ensures o + 1 != i ==> l[o].addr != MajorAddr(l, i - 1)
    ensures o != i + 1 ==> l[o].addr != MajorAddr(l, i + 1)
  {
    AddressesDiffer(l, o, o);
    if 0 < i {
      AddressesDiffer(l, o, i - 1);
    }
    if i + 1 < |l| {
      AddressesDiffer(l, o, i + 1);
    }
  }

  lemma UnlinkDropsMajor(t: MajorTable, l: Layout, i: nat)
    requires WellFormed(l) && MajorsLinked(t, l) && NULL !in t
    requires i < |l|
    ensures MajorsLinked(UnlinkMajor(t, l, i), l[..i] + l[i + 1..])
  {
    var r := l[..i] + l[i + 1..];
    forall j: nat | j < |r| ensures MajorLinked(UnlinkMajor(t, l, i), r, j) {
      var o := Shifted(i, j);
      assert MajorLinked(t, l, o);
      UnlinkNeighbours(l, i, j);
      MajorNeighboursDiffer(l, i, o);
    }
  }
}
