/** The allocator itself: malloc, free and realloc on linked headers in memory. */
module Liballoc {
  import opened Numbers
  import opened HeapLayout
  import opened HeapLinks
  import opened HeapSearch
  import opened HeapBlocks

  type Byte = b: int | 0 <= b < 0x100

  /** A value stored in an unsigned 32-bit field. */
  function Wrap(n: nat): nat { n % 0x1_0000_0000 }

  /** An unsigned 32-bit value read as a signed one. */
  function AsInt(n: int): int { if n < 0x8000_0000 then n else n - 0x1_0000_0000 }

  /** The pages that allocate_new_page asks for, computed in 32 bits. */
  function PagesAsked(size: nat): nat {
    var st := Wrap(Wrap(size) + 80);
    var pages := if st % 4096 == 0 then st / 4096 else st / 4096 + 1;
    if pages < 16 then 16 else pages
  }

  /** A new major holds the request it was made for exactly when the 32-bit computation of its size
    * does not wrap: up to 4 GiB less a page and two headers. */
  lemma NewMajorFits(size: nat)
    ensures size + 80 <= Wrap(PagesAsked(size) * 4096) <==> Bounded(size)
    ensures Bounded(size) ==> PagesAsked(size) == PagesFor(size) && PagesFor(size) * 4096 < 0x1_0000_0000
  {
    if size + 80 < 0x1_0000_0000 {
      assert Wrap(Wrap(size) + 80) == size + 80;
    } else {
      assert Wrap(PagesAsked(size) * 4096) < size + 80;
    }
  }

  /** The byte below minor n's user pointer holds the offset ALIGN added. */
  predicate HasOffset(mem: seq<Byte>, n: Minor) {
    OffsetByte(n) < |mem| && mem[OffsetByte(n)] == Offset(n.Body())
  }

  /** Only the offset byte of p differs; no byte when p is NULL. */
  ghost predicate BytesKept(before: seq<Byte>, after: seq<Byte>, p: nat) {
    if p == NULL then after == before
    else |before| == |after| && forall a: nat :: a < |before| && a != p - 16 ==> after[a] == before[a]
  }

  predicate OffsetStored(mem: seq<Byte>, l: Layout, i: nat, k: nat)
    requires i < |l| && k < |l[i].minors|
  {
    HasOffset(mem, l[i].minors[k])
  }

  ghost predicate HasOffsets(mem: seq<Byte>, l: Layout) {
    forall i: nat, k: nat :: i < |l| && k < |l[i].minors| ==> OffsetStored(mem, l, i, k)
  }

  lemma SettleMinors(t: MinorTable, l: Layout, i: nat, k: nat, size: nat, req: nat)
    requires WellFormed(l) && AllMinorsLinked(t, l) && NULL !in t
    requires i < |l| && k <= |l[i].minors| && SizeFor(req) <= size && size + 40 <= GapLength(l[i], k)
    ensures var p := Place(l[i], k, size, req);
      AllMinorsLinked(LinkIn(t, l[i], k, GapStart(l[i], k), MinorHeaderOf(p, k)), Insert(l, i, k, size, req))
  {
    var p := Place(l[i], k, size, req);
    LinkInPlaces(t, l[i], k, size, req);
    ReplaceLinks(t, LinkIn(t, l[i], k, GapStart(l[i], k), MinorHeaderOf(p, k)), l, i, p);
  }

  lemma SettleMajors(t: MajorTable, l: Layout, i: nat, k: nat, size: nat, req: nat, header: MajorHeader)
    requires WellFormed(l) && MajorsLinked(t, l)
    requires i < |l| && k <= |l[i].minors| && l[i].addr in t
    requires header == t[l[i].addr].(usage := t[l[i].addr].usage + size + 40,
      first := if k == 0 then GapStart(l[i], k) else t[l[i].addr].first)
    ensures MajorsLinked(t[l[i].addr := header], Insert(l, i, k, size, req))
  {
    var p := Place(l[i], k, size, req);
    assert MajorLinked(t, l, i);
    PlaceUsed(l[i], k, size, req);
    ReplaceMajorHeader(t, l, i, p, header.usage, header.first);
  }

  lemma SettleOffsets(mem: seq<Byte>, l: Layout, i: nat, k: nat, size: nat, req: nat, at: nat)
    requires WellFormed(l) && HasOffsets(mem, l)
    requires i < |l| && k <= |l[i].minors| && SizeFor(req) <= size && size + 40 <= GapLength(l[i], k)
    requires at == OffsetByte(Minor(GapStart(l[i], k), size, req)) < |mem|
    ensures Offset(GapStart(l[i], k) + 40) < 0x100
    ensures HasOffsets(mem[at := Offset(GapStart(l[i], k) + 40)], Insert(l, i, k, size, req))
  {
    var r := Insert(l, i, k, size, req);
    var n := Minor(GapStart(l[i], k), size, req);
    AlignedSpot(n.Body());
    InsertKeepsWellFormed(l, i, k, size, req);
    assert r[i].minors[k] == n;
    var after := mem[at := Offset(n.Body())];
    forall j: nat, q: nat | j < |r| && q < |r[j].minors| ensures OffsetStored(after, r, j, q) {
      if (j, q) != (i, k) {
        OffsetBytesDiffer(r, i, k, j, q);
        var o := if j != i || q < k then q else q - 1;
        assert r[j].minors[q] == l[j].minors[o];
        assert OffsetStored(mem, l, j, o);
      }
    }
  }

  lemma OffsetBytesDiffer(l: Layout, i: nat, k: nat, j: nat, q: nat)
    requires WellFormed(l)
    requires i < |l| && k < |l[i].minors| && j < |l| && q < |l[j].minors| && (i, k) != (j, q)
    ensures OffsetByte(l[i].minors[k]) != OffsetByte(l[j].minors[q])
  {
    MinorsApart(l, i, k, j, q);
    assert WellFormedMajor(l[i]) && WellFormedMajor(l[j]);
    UserRangeInside(l[i].minors[k]);
    UserRangeInside(l[j].minors[q]);
  }

  /** `after` is `before` with the n bytes at src copied to dst. */
  ghost predicate IsCopied(before: seq<Byte>, after: seq<Byte>, dst: nat, src: nat, n: nat)
    requires src + n <= |before|
  {
    && |after| == |before|
    && forall a: nat {:trigger after[a]} :: a < |after| ==>
         after[a] == if dst <= a < dst + n then before[src + (a - dst)] else before[a]
  }

  /** The n bytes at p are now at q, and apart from q's offset byte nothing else has changed. */
  ghost predicate BytesMoved(before: seq<Byte>, after: seq<Byte>, p: nat, q: nat, n: nat) {
    && |after| == |before| && p + n <= |before| && q + n <= |before|
    && (forall a: nat {:trigger after[a]} :: q <= a < q + n ==> after[a] == before[p + (a - q)])
    && forall a: nat {:trigger after[a]} :: a < |before| && !(q <= a < q + n) && a != q - 16 ==> after[a] == before[a]
  }

  /** Everything the allocator stores: headers, cached pointers, counters and bytes. */
  datatype Store = Store(majors: MajorTable, minors: MinorTable, memRoot: nat, bestBet: nat, held: nat, inuse: nat,
    bytes: seq<Byte>)

  /** The headers and cached pointers form the lists of a layout. */
  ghost predicate Linked(s: Store, l: Layout) {
    && MajorsLinked(s.majors, l) && AllMinorsLinked(s.minors, l)
    && NULL !in s.majors && NULL !in s.minors
    && s.memRoot == MajorAddr(l, 0)
    && (s.bestBet == NULL || IsMajor(l, s.bestBet))
  }

  ghost predicate Counted(s: Store, l: Layout) {
    s.held == Held(l) && s.inuse == InUse(l)
  }

  /** A store represents a well-formed layout. */
  ghost predicate Represents(s: Store, l: Layout) {
    && WellFormed(l) && Within(l, |s.bytes|)
    && Linked(s, l) && Counted(s, l)
    && HasOffsets(s.bytes, l)
  }

  /** A new minor's header, with the links to it, in gap k of a major. */
  function WithMinor(t: MinorTable, m: Major, k: nat, size: nat, req: nat): MinorTable
    requires k <= |m.minors|
  {
    LinkIn(t, m, k, GapStart(m, k), MinorHeaderOf(Place(m, k, size, req), k))
  }

  function FirstAfter(t: MajorTable, m: Major, k: nat): nat
    requires k <= |m.minors| && m.addr in t
  {
    if k == 0 then GapStart(m, 0) else t[m.addr].first
  }

  /** Gap k of major i takes a minor of this size. */
  ghost predicate Fits(l: Layout, i: nat, k: nat, size: nat, req: nat) {
    && i < |l| && k <= |l[i].minors| && SizeFor(req) <= size && size + 40 <= GapLength(l[i], k)
  }

  /** t is what s becomes when a minor is placed in gap k of major i. */
  ghost predicate Settled(s: Store, t: Store, l: Layout, i: nat, k: nat, size: nat, req: nat)
    requires Fits(l, i, k, size, req) && l[i].addr in s.majors
  {
    var addr := l[i].addr;
    && t.majors == s.majors[addr := s.majors[addr].(
         usage := s.majors[addr].usage + size + 40, first := FirstAfter(s.majors, l[i], k))]
    && t.minors == WithMinor(s.minors, l[i], k, size, req)
    && t.inuse == s.inuse + size
    && 16 <= Aligned(GapStart(l[i], k) + 40) < |s.bytes| + 16
    && 0 <= Offset(GapStart(l[i], k) + 40) < 0x100
    && t.bytes == s.bytes[Aligned(GapStart(l[i], k) + 40) - 16 := Offset(GapStart(l[i], k) + 40)]
    && t.memRoot == s.memRoot && t.bestBet == s.bestBet && t.held == s.held
  }

  lemma SettledFits(s: Store, l: Layout, i: nat, k: nat, size: nat, req: nat)
    requires Represents(s, l) && Fits(l, i, k, size, req)
    ensures 16 <= Aligned(GapStart(l[i], k) + 40) < |s.bytes| + 16
    ensures GapStart(l[i], k) + 72 <= |s.bytes|
    ensures 0 <= Offset(GapStart(l[i], k) + 40) < 0x100
    ensures Owns(Insert(l, i, k, size, req), Aligned(GapStart(l[i], k) + 40), i, k)
  {
    var n := Minor(GapStart(l[i], k), size, req);
    InsertKeepsWellFormed(l, i, k, size, req);
    var p := Insert(l, i, k, size, req)[i];
    assert WellFormedMajor(p);
    assert p.minors[k] == n;
    MinorInside(p, k);
    UserRangeInside(n);
    AlignedSpot(n.Body());
  }

  lemma SettledLinked(s: Store, t: Store, l: Layout, i: nat, k: nat, size: nat, req: nat)
    requires WellFormed(l) && Linked(s, l) && Fits(l, i, k, size, req) && l[i].addr in s.majors
    requires Settled(s, t, l, i, k, size, req)
    ensures Linked(t, Insert(l, i, k, size, req))
  {
    var m := l[i];
    SettleMajors(s.majors, l, i, k, size, req, t.majors[m.addr]);
    SettleMinors(s.minors, l, i, k, size, req);
    if s.bestBet != NULL {
      IsMajorReplaced(l, i, Place(m, k, size, req), s.bestBet);
    }
    LinkInKeepsNull(s.minors, m, k, GapStart(m, k), MinorHeaderOf(Place(m, k, size, req), k));
  }

  lemma SettledRepresents(s: Store, t: Store, l: Layout, i: nat, k: nat, size: nat, req: nat)
    requires Represents(s, l) && Fits(l, i, k, size, req) && l[i].addr in s.majors
    requires Settled(s, t, l, i, k, size, req)
    ensures Represents(t, Insert(l, i, k, size, req))
  {
    InsertKeepsWellFormed(l, i, k, size, req);
    SettledLinked(s, t, l, i, k, size, req);
    SettleOffsets(s.bytes, l, i, k, size, req, Aligned(GapStart(l[i], k) + 40) - 16);
    InsertTotals(l, i, k, size, req);
  }

  /** What malloc reads of minor k tells it where gap k+1 lies. */
  lemma ReadMinor(t: MinorTable, m: Major, k: nat)
    requires WellFormedMajor(m) && MinorsLinked(t, m)
    requires k < |m.minors|
    ensures var a := m.minors[k].addr;
      && a in t && t[a] == MinorHeaderOf(m, k)
      && a + 40 + t[a].size == GapStart(m, k + 1)
      && if t[a].next == NULL then k + 1 == |m.minors| else
           k + 1 < |m.minors| && t[a].next == GapEnd(m, k + 1) && t[a].next in t
  {
    assert MinorLinked(t, m, k);
    if k + 1 < |m.minors| {
      assert MinorLinked(t, m, k + 1);
      MinorInside(m, k + 1);
    }
  }

  /** What malloc reads of a major's header. */
  lemma ReadMajor(s: Store, l: Layout, i: nat)
    requires Represents(s, l) && i < |l|
    ensures var a, t, n := l[i].addr, s.majors, s.minors;
      && NULL !in t && NULL !in n && a in t && t[a] == MajorHeaderOf(l, i)
      && if t[a].first == NULL then l[i].minors == [] else
           l[i].minors != [] && t[a].first == GapEnd(l[i], 0) && t[a].first in n && t[a].first == l[i].minors[0].addr
    ensures l[i].addr + 40 == GapStart(l[i], 0) <= GapEnd(l[i], 0)
    ensures WellFormedMajor(l[i]) && MinorsLinked(s.minors, l[i])
  {
    assert MajorLinked(s.majors, l, i);
    assert WellFormedMajor(l[i]);
    assert MinorsLinked(s.minors, l[i]);
    if l[i].minors != [] {
      ReadMinor(s.minors, l[i], 0);
      MinorInside(l[i], 0);
    }
  }

  lemma EmptyMajorFits(m: Major, need: nat)
    requires m.minors == [] && need <= Spare(m)
    ensures FirstGap(m, need) == 0
  {
    GapsAreFree(m);
    assert GapSum(m, 1) == GapLength(m, 0) + GapSum(m, 0);
  }

  /** What malloc may return, and the heap it leaves: the chosen spot holds the new block, or there
    * was no room and nothing changed but the best bet. */
  ghost predicate Malloced(before: Layout, bet: nat, req: nat, page: nat, after: Layout, p: nat, better: nat) {
    match Choose(before, bet, req, page)
    case NoRoom => p == NULL && after == before && BestSeen(before, 0, |before|, better)
    case Spot(i, k, base) =>
      && after == Placed(Spot(i, k, base), req) && Owns(after, p, i, k) && p != NULL
      && if base == before then BestSeen(before, PassStart(before, bet, NeedFor(req), i), i + 1, better)
         else BestSeen(base, 0, |before|, better)
  }

  /** The search found no room and fresh pages, now at index `cur`, have been linked in. */
  ghost predicate Extended(l: Layout, bet: nat, req: nat, page: nat, now: Layout, cur: nat, better: nat) {
    && page != NULL && now == l + [NewMajor(page, SizeFor(req))] && cur == |l|
    && Choose(l, bet, req, page) == Spot(|l|, 0, now)
    && BestSeen(now, 0, |l|, better)
  }

  /** t is what s becomes when minor k of major i is unlinked. */
  ghost predicate Dropped(s: Store, t: Store, l: Layout, i: nat, k: nat)
    requires i < |l| && k < |l[i].minors| && l[i].addr in s.majors && l[i].minors[k].addr in s.minors
  {
    var addr, m := l[i].addr, l[i];
    && t.majors.Keys == s.majors.Keys
    && t.majors == s.majors[addr := s.majors[addr].(
         usage := t.majors[addr].usage, first := if k == 0 then MinorAddr(m, 1) else s.majors[addr].first)]
    && t.majors[addr].usage + m.minors[k].size + 40 == s.majors[addr].usage
    && t.minors == LinkOut(s.minors, m, k)
    && t.inuse + m.minors[k].size == s.inuse
    && t.bytes == s.bytes && t.memRoot == s.memRoot && t.bestBet == s.bestBet && t.held == s.held
  }

  lemma DroppedOffsets(bytes: seq<Byte>, l: Layout, i: nat, k: nat)
    requires HasOffsets(bytes, l) && i < |l| && k < |l[i].minors|
    ensures HasOffsets(bytes, l[i := Drop(l[i], k)])
  {
    var r := l[i := Drop(l[i], k)];
    forall j: nat, q: nat | j < |r| && q < |r[j].minors| ensures OffsetStored(bytes, r, j, q) {
      assert OffsetStored(bytes, l, j, if j != i || q < k then q else q + 1);
    }
  }

  lemma DroppedLinked(s: Store, t: Store, l: Layout, i: nat, k: nat)
    requires WellFormed(l) && Linked(s, l) && i < |l| && k < |l[i].minors|
    requires l[i].addr in s.majors && l[i].minors[k].addr in s.minors
    requires Dropped(s, t, l, i, k)
    ensures Linked(t, l[i := Drop(l[i], k)])
  {
    var m, d := l[i], Drop(l[i], k);
    assert WellFormedMajor(m) && MinorsLinked(s.minors, m);
    assert MajorLinked(s.majors, l, i);
    LinkOutDrops(s.minors, m, k);
    ReplaceLinks(s.minors, t.minors, l, i, d);
    DropUsed(m, k);
    ReplaceMajorHeader(s.majors, l, i, d, t.majors[m.addr].usage, t.majors[m.addr].first);
    if s.bestBet != NULL {
      IsMajorReplaced(l, i, d, s.bestBet);
    }
  }

  lemma DroppedRepresents(s: Store, t: Store, l: Layout, i: nat, k: nat)
    requires Represents(s, l) && i < |l| && k < |l[i].minors|
    requires l[i].addr in s.majors && l[i].minors[k].addr in s.minors
    requires Dropped(s, t, l, i, k)
    ensures Represents(t, l[i := Drop(l[i], k)])
  {
    assert WellFormedMajor(l[i]);
    DropKeepsMajor(l[i], k);
    ReplaceKeepsWellFormed(l, i, Drop(l[i], k));
    DroppedLinked(s, t, l, i, k);
    DropUsed(l[i], k);
    ReplaceTotals(l, i, Drop(l[i], k));
    DroppedOffsets(s.bytes, l, i, k);
  }

  /** t is what s becomes when the empty major i is given back. */
  ghost predicate Released(s: Store, t: Store, l: Layout, i: nat)
    requires i < |l|
  {
    && t.majors == UnlinkMajor(s.majors, l, i) && t.minors == s.minors
    && t.memRoot == (if i == 0 then MajorAddr(l, 1) else s.memRoot)
    && t.bestBet == (if s.bestBet == l[i].addr then NULL else s.bestBet)
    && t.held + l[i].Size() == s.held && t.inuse == s.inuse && t.bytes == s.bytes
  }

  lemma ReleasedLinked(s: Store, t: Store, l: Layout, i: nat)
    requires WellFormed(l) && Linked(s, l) && i < |l| && Released(s, t, l, i)
    ensures Linked(t, l[..i] + l[i + 1..])
  {
    var r := l[..i] + l[i + 1..];
    UnlinkDropsMajor(s.majors, l, i);
    if t.bestBet != NULL {
      var b := IndexOf(l, t.bestBet);
      assert l[b] == r[if b < i then b else b - 1];
    }
    forall j: nat | j < |r| ensures MinorsLinked(t.minors, r[j]) {
      assert MinorsLinked(s.minors, l[Shifted(i, j)]);
    }
  }

  lemma ReleasedReads(s: Store, l: Layout, i: nat)
    requires Represents(s, l) && i < |l|
    ensures s.memRoot == l[i].addr <==> i == 0
    ensures MajorAddr(l, i - 1) == NULL <==> i == 0
    ensures MajorAddr(l, i + 1) == NULL <==> i + 1 == |l|
    ensures 0 < i ==> MajorAddr(l, i - 1) in s.majors
    ensures i + 1 < |l| ==> MajorAddr(l, i + 1) in s.majors
    ensures l[i].Size() <= s.held && l[i].addr != MajorAddr(l, i - 1)
  {
    AddressesDiffer(l, 0, i);
    if 0 < i {
      AddressesDiffer(l, i - 1, i);
      assert MajorLinked(s.majors, l, i - 1);
    }
    if i + 1 < |l| {
      AddressesDiffer(l, i + 1, i);
      assert MajorLinked(s.majors, l, i + 1);
    }
    RemoveMajorTotals(l, i);
  }

  lemma ReleasedOffsets(bytes: seq<Byte>, l: Layout, i: nat)
    requires HasOffsets(bytes, l) && i < |l|
    ensures HasOffsets(bytes, l[..i] + l[i + 1..])
  {
    var r := l[..i] + l[i + 1..];
    forall j: nat, q: nat | j < |r| && q < |r[j].minors| ensures OffsetStored(bytes, r, j, q) {
      assert OffsetStored(bytes, l, Shifted(i, j), q);
    }
  }

  lemma ReleasedRepresents(s: Store, t: Store, l: Layout, i: nat)
    requires Represents(s, l) && i < |l| && l[i].minors == []
    requires Released(s, t, l, i)
    ensures Represents(t, l[..i] + l[i + 1..])
  {
    WithoutKeepsWellFormed(l, i);
    RemoveMajorTotals(l, i);
    ReleasedLinked(s, t, l, i);
    ReleasedOffsets(s.bytes, l, i);
  }

  /** What free may do to the best bet: forget it with its major, or prefer the major it has just
    * enlarged, whichever has more free space as a signed 32-bit number. */
  ghost predicate FreedHint(before: Layout, i: nat, k: nat, bet: nat, better: nat)
    requires i < |before| && k < |before[i].minors|
  {
    var r := Remove(before, i, k);
    if |before[i].minors| == 1 then better == if bet == before[i].addr then NULL else bet
    else if bet == NULL then better == NULL
    else
      && (better == bet || better == before[i].addr)
      && AsInt(SpareAt(r, bet)) <= AsInt(SpareAt(r, better))
      && AsInt(SpareAt(r, before[i].addr)) <= AsInt(SpareAt(r, better))
  }

  /** The byte below a live pointer leads back to its header. */
  lemma ReadPointer(s: Store, l: Layout, ptr: nat, i: nat, k: nat)
    requires Represents(s, l) && Owns(l, ptr, i, k)
    ensures var n := l[i].minors[k];
      && 16 <= ptr && ptr - 16 < |s.bytes| && s.bytes[ptr - 16] < 32
      && ptr == Aligned(n.Body()) && s.bytes[ptr - 16] == Offset(n.Body()) && n.addr != NULL
  {
    var n := l[i].minors[k];
    assert OffsetStored(s.bytes, l, i, k);
    assert WellFormedMajor(l[i]);
    AlignedSpot(n.Body());
    UnalignUndoesAlign(n.Body());
    MinorInside(l[i], k);
  }

  /** What free reads of a live block's headers. */
  lemma ReadLive(s: Store, l: Layout, i: nat, k: nat)
    requires Represents(s, l) && i < |l| && k < |l[i].minors|
    ensures var m := l[i]; var n := m.minors[k];
      && WellFormed(l)
      && Holds(s.minors, n.addr, MinorHeaderOf(m, k))
      && Holds(s.majors, m.addr, MajorHeaderOf(l, i))
      && (MinorAddr(m, k - 1) == NULL <==> k == 0) && (MinorAddr(m, k + 1) == NULL <==> k + 1 == |m.minors|)
      && (0 < k ==> MinorAddr(m, k - 1) in s.minors) && (k + 1 < |m.minors| ==> MinorAddr(m, k + 1) in s.minors)
      && NULL !in s.minors && MinorAddr(m, k - 1) != n.addr && MinorAddr(m, k + 1) != n.addr
    ensures l[i].minors[k].size + 40 <= l[i].Usage() && l[i].minors[k].size <= s.inuse
  {
    var m := l[i];
    ReadMajor(s, l, i);
    ReadMinor(s.minors, m, k);
    if 0 < k {
      assert MinorLinked(s.minors, m, k - 1);
      MinorInside(m, k - 1);
      MinorsFollow(m, k - 1, k);
    }
    if k + 1 < |m.minors| {
      MinorInside(m, k + 1);
      MinorsFollow(m, k, k + 1);
    }
    DropUsed(m, k);
    ReplaceTotals(l, i, Drop(m, k));
  }

  lemma Freed(l: Layout, r: Layout, ptr: nat, i: nat, k: nat)
    requires WellFormed(l) && NoneEmpty(l) && Owns(l, ptr, i, k)
    requires r == if |l[i].minors| == 1 then l[..i] + l[i + 1..] else l[i := Drop(l[i], k)]
    ensures r == Remove(l, i, k) && NoneEmpty(r)
    ensures forall j: nat, n: nat :: Owns(l, ptr, j, n) ==> j == i && n == k
  {
    RemoveKeepsWellFormed(l, i, k);
    forall j: nat, n: nat | Owns(l, ptr, j, n) ensures j == i && n == k {
      OwnerIsUnique(l, ptr, i, k, j, n);
    }
  }

  /** Whatever a caller writes within its block, the heap stays consistent. */
  lemma UserWriteKeeps(s: Store, t: Store, l: Layout, i: nat, k: nat)
    requires Represents(s, l) && i < |l| && k < |l[i].minors|
    requires t == s.(bytes := t.bytes) && |t.bytes| == |s.bytes|
    requires forall a: nat :: a < |s.bytes| && t.bytes[a] != s.bytes[a] ==> InUserRange(l[i].minors[k], a)
    ensures Represents(t, l)
  {
    forall j: nat, n: nat | j < |l| && n < |l[j].minors| ensures OffsetStored(t.bytes, l, j, n) {
      var a := OffsetByte(l[j].minors[n]);
      assert OffsetStored(s.bytes, l, j, n);
      if InUserRange(l[i].minors[k], a) {
        UserRangesDisjoint(l, i, k, a);
      }
    }
  }

  /** The user ranges of two minors, offset bytes included, lie apart and in memory. */
  lemma RangesApart(s: Store, l: Layout, q: nat, j: nat, n: nat, p: nat, i: nat, k: nat)
    requires Represents(s, l) && Owns(l, q, j, n) && Owns(l, p, i, k) && (j, n) != (i, k)
    ensures var a, b := l[j].minors[n].req, l[i].minors[k].req;
      && q + a <= |s.bytes| && p + b <= |s.bytes| && 16 <= q && 16 <= p
      && (q + a <= p - 16 || p + b <= q - 16)
  {
    assert WellFormedMajor(l[i]) && WellFormedMajor(l[j]);
    MinorsApart(l, j, n, i, k);
    UserRangeInside(l[j].minors[n]);
    UserRangeInside(l[i].minors[k]);
    MinorInside(l[j], n);
    MinorInside(l[i], k);
  }

  lemma MovedBytes(b0: seq<Byte>, b1: seq<Byte>, b2: seq<Byte>, p: nat, q: nat, n: nat)
    requires q != NULL && BytesKept(b0, b1, q) && p + n <= |b1| && q + n <= |b1| && IsCopied(b1, b2, q, p, n)
    requires q + n <= p - 16 || p + n <= q - 16
    ensures BytesMoved(b0, b2, p, q, n)
  {
  }

  /** The n bytes at q are what the n bytes at p were. */
  ghost predicate SameContents(before: seq<Byte>, after: seq<Byte>, p: nat, q: nat, n: nat) {
    p + n <= |before| && q + n <= |after| && after[q..q + n] == before[p..p + n]
  }

  /** What a caller of realloc sees: the block moves from p to q, unless there is no room for it, with
    * as many of its bytes as fit, and every other block stays where it is with all its bytes. */
  ghost predicate BlockMoved(before: Layout, b0: seq<Byte>, after: Layout, b2: seq<Byte>, p: nat, q: nat, size: nat) {
    && (forall x: nat, r: nat :: IsBlock(after, x, r) <==>
         (q != NULL && x == q && r == size) || (x != p && IsBlock(before, x, r)))
    && (forall r: nat :: IsBlock(before, p, r) ==> SameContents(b0, b2, p, q, Min(r, size)))
    && forall x: nat, r: nat :: IsBlock(before, x, r) && x != p ==> SameContents(b0, b2, x, x, r)
  }

  lemma BlockInMemory(s: Store, l: Layout, x: nat, r: nat)
    requires Represents(s, l) && IsBlock(l, x, r)
    ensures x + r <= |s.bytes|
  {
    var i: nat, k: nat :| Owns(l, x, i, k) && l[i].minors[k].req == r;
    assert WellFormedMajor(l[i]);
    UserRangeInside(l[i].minors[k]);
    MinorInside(l[i], k);
  }

  /** The bytes of a block that was live before malloc lie apart from the block malloc returned. */
  lemma NewBlockApart(l: Layout, bet: nat, size: nat, page: nat, limit: nat, q: nat, x: nat, r: nat)
    requires WellFormed(l) && HookAnswer(l, size, page, limit)
    requires Choose(l, bet, size, page).Spot?
    requires var s := Choose(l, bet, size, page); Owns(Placed(s, size), q, s.index, s.gap)
    requires IsBlock(l, x, r)
    ensures x + r <= q - 16 || q + size <= x - 16
  {
    var s := Choose(l, bet, size, page);
    var now := Placed(s, size);
    ChosenGapFits(l, bet, size, page, limit);
    InsertKeepsWellFormed(s.base, s.index, s.gap, SizeFor(size), size);
    var i: nat, k: nat :| Owns(l, x, i, k) && l[i].minors[k].req == r;
    PlacedKeeps(l, bet, size, page, i, k);
    PlacedNew(l, bet, size, page);
    var k' := Moved(s, i, k);
    assert WellFormedMajor(now[i]) && WellFormedMajor(now[s.index]);
    MinorsApart(now, i, k', s.index, s.gap);
    UserRangeInside(now[i].minors[k']);
    UserRangeInside(now[s.index].minors[s.gap]);
  }

  /** What realloc does to the bytes. */
  ghost predicate ReallocBytes(before: seq<Byte>, after: seq<Byte>, p: nat, q: nat, req: nat, size: nat) {
    if size <= req then after == before && p == q
    else if q == NULL then after == before && req == 0
    else BytesMoved(before, after, p, q, req)
  }

  lemma ReallocCopies(b0: seq<Byte>, b2: seq<Byte>, p: nat, q: nat, req: nat, size: nat)
    requires ReallocBytes(b0, b2, p, q, req, size) && p + req <= |b0|
    ensures SameContents(b0, b2, p, q, Min(req, size))
  {
  }

  lemma ReallocSpares(s: Store, l: Layout, bet: nat, i: nat, k: nat, size: nat, page: nat, after: Layout,
      b2: seq<Byte>, p: nat, q: nat, x: nat, r: nat)
    requires Represents(s, l) && HookAnswer(l, size, page, |s.bytes|)
    requires Owns(l, p, i, k) && Realloced(l, bet, i, k, size, page, after, q)
    requires ReallocBytes(s.bytes, b2, p, q, l[i].minors[k].req, size)
    requires IsBlock(l, x, r)
    ensures SameContents(s.bytes, b2, x, x, r)
  {
    BlockInMemory(s, l, x, r);
    if l[i].minors[k].req < size && q != NULL {
      NewBlockApart(l, bet, size, page, |s.bytes|, q, x, r);
    }
  }

  lemma ReallocMoves(s: Store, l: Layout, bet: nat, p: nat, i: nat, k: nat, size: nat, page: nat,
      after: Layout, b2: seq<Byte>, q: nat)
    requires Represents(s, l) && WellFormed(l) && HookAnswer(l, size, page, |s.bytes|)
    requires Owns(l, p, i, k) && Realloced(l, bet, i, k, size, page, after, q)
    requires ReallocBytes(s.bytes, b2, p, q, l[i].minors[k].req, size)
    ensures BlockMoved(l, s.bytes, after, b2, p, q, size)
  {
    hide Represents, WellFormed, HookAnswer, Realloced, ReallocBytes, SameContents;
    forall x: nat, r: nat
      ensures IsBlock(after, x, r) <==> (q != NULL && x == q && r == size) || (x != p && IsBlock(l, x, r))
    {
      ReallocBlocks(l, bet, p, i, k, size, page, |s.bytes|, after, q, x, r);
    }
    forall r: nat | IsBlock(l, p, r) ensures SameContents(s.bytes, b2, p, q, Min(r, size)) {
      var j: nat, n: nat :| Owns(l, p, j, n) && l[j].minors[n].req == r;
      OwnerIsUnique(l, p, i, k, j, n);
      BlockInMemory(s, l, p, r);
      ReallocCopies(s.bytes, b2, p, q, r, size);
    }
    forall x: nat, r: nat | IsBlock(l, x, r) && x != p ensures SameContents(s.bytes, b2, x, x, r) {
      ReallocSpares(s, l, bet, i, k, size, page, after, b2, p, q, x, r);
    }
  }

  lemma ShrunkLinks(t: MinorTable, m: Major, k: nat, req: nat)
    requires WellFormedMajor(m) && MinorsLinked(t, m) && k < |m.minors| && m.minors[k].addr in t
    ensures var r := m.(minors := m.minors[k := m.minors[k].(req := req)]);
      var a := m.minors[k].addr;
      MinorsLinked(t[a := t[a].(req := req)], r) && SameOutside(t, t[a := t[a].(req := req)], m)
  {
    var a := m.minors[k].addr;
    var r := m.(minors := m.minors[k := m.minors[k].(req := req)]);
    var t' := t[a := t[a].(req := req)];
    forall j: nat | j < |r.minors| ensures MinorLinked(t', r, j) {
      assert MinorLinked(t, m, j);
      MinorAddressesDiffer(m, j, k);
    }
    MinorInside(m, k);
  }

  lemma ShrunkRepresents(s: Store, t: Store, l: Layout, i: nat, k: nat, req: nat)
    requires Represents(s, l) && i < |l| && k < |l[i].minors| && req <= l[i].minors[k].req
    requires l[i].minors[k].addr in s.minors
    requires var a := l[i].minors[k].addr; t == s.(minors := s.minors[a := s.minors[a].(req := req)])
    ensures Represents(t, Shrink(l, i, k, req))
  {
    var m, r := l[i], Shrink(l, i, k, req);
    ShrinkKeepsWellFormed(l, i, k, req);
    ReadMajor(s, l, i);
    ShrunkLinks(s.minors, m, k, req);
    ReplaceLinks(s.minors, t.minors, l, i, r[i]);
    ShrinkSizes(m.minors, k, req);
    ReplaceMajorHeader(s.majors, l, i, r[i], r[i].Usage(), MinorAddr(r[i], 0));
    assert s.majors[m.addr := s.majors[m.addr].(usage := r[i].Usage(), first := MinorAddr(r[i], 0))] == s.majors;
    ReplaceTotals(l, i, r[i]);
    if s.bestBet != NULL {
      IsMajorReplaced(l, i, r[i], s.bestBet);
    }
    ShrunkOffsets(s.bytes, l, i, k, req);
  }

  lemma ShrunkOffsets(bytes: seq<Byte>, l: Layout, i: nat, k: nat, req: nat)
    requires HasOffsets(bytes, l) && i < |l| && k < |l[i].minors|
    ensures HasOffsets(bytes, Shrink(l, i, k, req))
  {
    var r := Shrink(l, i, k, req);
    forall j: nat, n: nat | j < |r| && n < |r[j].minors| ensures OffsetStored(bytes, r, j, n) {
      assert OffsetStored(bytes, l, j, n);
    }
  }

  /** Where the search of malloc stands. */
  ghost predicate At(l: Layout, bet: nat, req: nat, page: nat, now: Layout, cur: nat, started: bool, grown: bool,
    better: nat)
  {
    if grown then Extended(l, bet, req, page, now, cur, better)
    else now == l && Searching(l, Start(l, bet, NeedFor(req)), NeedFor(req), cur, started, better)
  }

  lemma AtStart(l: Layout, bet: nat, req: nat, page: nat, limit: nat)
    requires WellFormed(l) && (bet == NULL || IsMajor(l, bet))
    requires HookAnswer(l, req, page, limit)
    ensures l != [] ==> At(l, bet, req, page, l, Start(l, bet, NeedFor(req)), true, false, bet)
    ensures l != [] && Start(l, bet, NeedFor(req)) == 0 ==> At(l, bet, req, page, l, 0, false, false, bet)
    ensures l == [] && page != NULL ==> At(l, bet, req, page, [NewMajor(page, SizeFor(req))], 0, false, true, bet)
    ensures l == [] && page != NULL ==> Start([NewMajor(page, SizeFor(req))], bet, NeedFor(req)) == 0
    ensures l == [] && page == NULL ==> Malloced(l, bet, req, page, l, NULL, bet)
  {
    var need := NeedFor(req);
    SearchBegins(l, Start(l, bet, need), need, bet);
    if l == [] {
      SearchFails(l, bet, req, page, bet);
      assert l + [NewMajor(page, SizeFor(req))] == [NewMajor(page, SizeFor(req))];
    }
  }

  lemma AtRemembers(l: Layout, bet: nat, req: nat, page: nat, now: Layout, cur: nat, started: bool, grown: bool,
      better: nat, best: nat)
    requires At(l, bet, req, page, now, cur, started, grown, better)
    requires SpareAt(now, better) <= SpareAt(now, best)
    ensures At(l, bet, req, page, now, cur, started, grown, best)
  {
  }

  /** A major without room is passed over: on to the next, back to the root, or to fresh pages. */
  lemma AtMoves(s: Store, l: Layout, bet: nat, req: nat, page: nat, now: Layout, cur: nat, started: bool, grown: bool,
      best: nat)
    requires Represents(s, now) && best == s.bestBet
    requires HookAnswer(l, req, page, |s.bytes|)
    requires At(l, bet, req, page, now, cur, started, grown, best) && cur < |now|
    requires !HasGap(now[cur], NeedFor(req)) && Spare(now[cur]) <= SpareAt(now, best)
    ensures !grown && now == l
    ensures cur + 1 < |l| ==> At(l, bet, req, page, l, cur + 1, started, false, best)
    ensures cur + 1 == |l| && started ==> At(l, bet, req, page, l, 0, false, false, best)
    ensures cur + 1 == |l| && !started && page == NULL ==> Malloced(l, bet, req, page, l, NULL, best)
    ensures cur + 1 == |l| && !started && page != NULL ==>
      var r := l + [NewMajor(page, SizeFor(req))];
      At(l, bet, req, page, r, cur + 1, started, true, best) && SpareAt(r, best) == SpareAt(l, best)
  {
    hide BestSeen, Held, InUse, Sizes;
    var start, need, limit := Start(l, bet, NeedFor(req)), NeedFor(req), |s.bytes|;
    SearchMoves(l, start, need, cur, started, best);
    if cur + 1 == |l| && started {
      SearchRestarts(l, start, need, best);
    }
    if cur + 1 == |l| && !started {
      SearchFails(l, bet, req, page, best);
      if page != NULL {
        GrownBest(l, NewMajor(page, SizeFor(req)), best);
        NewMajorTakes(l, req, page, limit);
      }
    }
  }

  lemma GrownBest(l: Layout, m: Major, best: nat)
    requires WellFormed(l) && WellFormed(l + [m]) && (best == NULL || IsMajor(l, best))
    ensures SpareAt(l + [m], best) == SpareAt(l, best)
    ensures BestSeen(l, 0, |l|, best) ==> BestSeen(l + [m], 0, |l|, best)
  {
    if best == NULL {
      NullIsNoMajor(l);
      NullIsNoMajor(l + [m]);
    } else {
      SpareAtAppend(l, m, best);
    }
    forall j: nat | j < |l| ensures (l + [m])[j] == l[j] {
    }
  }

  /** A new major has room for the request it was made for, at its very start. */
  lemma NewMajorTakes(l: Layout, req: nat, page: nat, limit: nat)
    requires PagesFresh(l, page, SizeFor(req), limit)
    ensures var m := NewMajor(page, SizeFor(req)); FirstGap(m, NeedFor(req)) == 0 && NeedFor(req) <= Spare(m)
    ensures WellFormed(l) ==> WellFormed(l + [NewMajor(page, SizeFor(req))])
  {
    PagesBounded(SizeFor(req));
    if WellFormed(l) {
      AppendKeepsWellFormed(l, page, SizeFor(req), limit);
    }
    EmptyMajorFits(NewMajor(page, SizeFor(req)), NeedFor(req));
  }

  lemma AtFreshPages(l: Layout, bet: nat, req: nat, page: nat, now: Layout, cur: nat, started: bool, best: nat,
      limit: nat)
    requires HookAnswer(l, req, page, limit)
    requires At(l, bet, req, page, now, cur, started, true, best) && cur < |now|
    ensures NeedFor(req) <= Spare(now[cur]) && HasGap(now[cur], NeedFor(req))
  {
    NewMajorTakes(l, req, page, limit);
  }

  lemma AtPlaces(l: Layout, bet: nat, req: nat, page: nat, now: Layout, cur: nat, started: bool, grown: bool,
      best: nat, limit: nat, after: Layout, p: nat)
    requires HookAnswer(l, req, page, limit)
    requires At(l, bet, req, page, now, cur, started, grown, best) && cur < |now|
    requires HasGap(now[cur], NeedFor(req)) && (!grown ==> Spare(now[cur]) <= SpareAt(now, best))
    requires after == Insert(now, cur, FirstGap(now[cur], NeedFor(req)), SizeFor(req), req)
    requires Owns(after, p, cur, FirstGap(now[cur], NeedFor(req))) && p != NULL
    ensures Malloced(l, bet, req, page, after, p, best)
  {
    if grown {
      NewMajorTakes(l, req, page, limit);
      assert |now| != |l|;
    } else {
      SearchEnds(l, bet, req, page, cur, started, best);
    }
  }

  /** The quick test: too little free space means no gap. */
  lemma TooLittleFreeHere(s: Store, l: Layout, i: nat, need: nat)
    requires Represents(s, l) && i < |l| && Spare(l[i]) < need
    ensures !HasGap(l[i], need)
  {
    assert WellFormedMajor(l[i]);
    TooLittleFree(l[i], need);
  }

  lemma TooLittleFree(m: Major, need: nat)
    requires WellFormedMajor(m) && Spare(m) < need
    ensures !HasGap(m, need)
  {
    if HasGap(m, need) {
      GapWithinFree(m, FirstGap(m, need));
    }
  }

  lemma RootOf(s: Store, l: Layout)
    requires Represents(s, l)
    ensures s.memRoot == MajorAddr(l, 0)
    ensures s.memRoot == NULL <==> l == []
  {
    if l != [] {
      SummaryOfMajor(s, l, 0);
    }
  }

  lemma SummaryOfMajor(s: Store, l: Layout, i: nat)
    requires Represents(s, l) && i < |l|
    ensures var a := l[i].addr;
      && a in s.majors && s.majors[a] == MajorHeaderOf(l, i)
      && SpareAt(l, a) == Spare(l[i]) && 0 <= Spare(l[i]) && IsMajor(l, a) && a != NULL
      && (s.majors[a].next == NULL <==> i == |l| - 1)
  {
    ReadMajor(s, l, i);
    IndexOfMajor(l, i);
    assert WellFormedMajor(l[i]);
    GapWithinFree(l[i], 0);
    if i + 1 < |l| {
      AddressesDiffer(l, i + 1, i + 1);
    }
  }

  /** t is what s becomes when fresh pages are linked in behind the last major. */
  ghost predicate Grown(s: Store, t: Store, l: Layout, m: Major) {
    var last := MajorAddr(l, |l| - 1);
    var t1 := s.majors[m.addr := MajorHeader(NULL, NULL, m.pages, m.Size(), 40, NULL)];
    && t.majors == (if l == [] then t1 else SetPrev(SetNext(t1, last, m.addr), m.addr, last))
    && t.minors == s.minors && t.bestBet == s.bestBet && t.bytes == s.bytes
    && t.memRoot == (if l == [] then m.addr else s.memRoot)
    && t.held == s.held + m.Size() && t.inuse == s.inuse
  }

  lemma GrownCounted(s: Store, t: Store, l: Layout, m: Major)
    requires Counted(s, l) && Grown(s, t, l, m) && m.minors == []
    ensures Counted(t, l + [m])
  {
    TotalsConcat(l, [m]);
    SingleTotals(m);
  }

  lemma GrownMinors(t: MinorTable, l: Layout, m: Major)
    requires AllMinorsLinked(t, l) && m.minors == []
    ensures AllMinorsLinked(t, l + [m])
  {
    forall i: nat | i < |l + [m]| ensures MinorsLinked(t, (l + [m])[i]) {
      if i < |l| {
        assert MinorsLinked(t, l[i]);
      }
    }
  }

  lemma GrownRepresents(s: Store, t: Store, l: Layout, page: nat, size: nat)
    requires Represents(s, l) && Grown(s, t, l, NewMajor(page, size))
    requires PagesFresh(l, page, size, |s.bytes|)
    ensures Represents(t, l + [NewMajor(page, size)])
  {
    hide AllMinorsLinked, Counted, HasOffsets;
    var m := NewMajor(page, size);
    NewMajorFits(size);
    AppendKeepsWellFormed(l, page, size, |s.bytes|);
    AppendMajorHeader(s.majors, l, m);
    GrownCounted(s, t, l, m);
    if s.bestBet != NULL {
      SpareAtAppend(l, m, s.bestBet);
    }
    GrownOffsets(s.bytes, l, m);
    GrownMinors(s.minors, l, m);
  }

  lemma GrownOffsets(bytes: seq<Byte>, l: Layout, m: Major)
    requires HasOffsets(bytes, l) && m.minors == []
    ensures HasOffsets(bytes, l + [m])
  {
    var r := l + [m];
    forall i: nat, k: nat | i < |r| && k < |r[i].minors| ensures OffsetStored(bytes, r, i, k) {
      assert OffsetStored(bytes, l, i, k);
    }
  }

  class Heap {
    /** Byte-addressed memory, and the header structs in it by address. */
    const mem: array<Byte>
    var majors: MajorTable
    var minors: MinorTable

    var memRoot: nat
    var bestBet: nat
    var held: nat
    var inuse: nat

    /** What the headers stand for. */
    ghost var layout: Layout

    ghost function Contents(): Store
      reads this, mem
    {
      Store(majors, minors, memRoot, bestBet, held, inuse, mem[..])
    }

    /** The headers, counters, offsets and cached pointers agree with a well-formed layout. */
    ghost predicate Sound()
      reads this, mem
    {
      Represents(Contents(), layout)
    }

    ghost predicate Valid()
      reads this, mem
    {
      Sound() && NoneEmpty(layout)
    }

    constructor (size: nat)
      ensures Valid() && layout == [] && mem.Length == size && fresh(mem)
    {
      mem := new Byte[size];
      majors, minors := map[], map[];
      memRoot, bestBet := NULL, NULL;
      held, inuse := 0, 0;
      layout := [];
    }

    method AllocateNewPage(size: nat, page: nat) returns (maj: nat)
      modifies `majors, `held
      ensures maj == page
      ensures majors == if page == NULL then old(majors)
        else old(majors)[page := MajorHeader(NULL, NULL, PagesAsked(size), Wrap(PagesAsked(size) * 4096), 40, NULL)]
      ensures held == if page == NULL then old(held) else old(held) + Wrap(PagesAsked(size) * 4096)
    {
      var st := CountPages(size);
      maj := page;
      if maj == NULL {
        return;
      }
      majors := majors[maj := MajorHeader(NULL, NULL, st, Wrap(st * 4096), 40, NULL)];
      held := held + majors[maj].size;
    }

    /** The number of pages to ask the hook for, in 32-bit arithmetic. */
    static method CountPages(size: nat) returns (st: nat)
      ensures st == PagesAsked(size)
    {
      st := Wrap(Wrap(size) + 40);
      st := Wrap(st + 40);
      assert st == Wrap(Wrap(size) + 80);
      if st % 4096 == 0 {
        st := st / 4096;
      } else {
        st := st / 4096 + 1;
      }
      if st < 16 {
        st := 16;
      }
    }

    /** ALIGN: moves a pointer up to a multiple of 16, at least 16 bytes, and keeps the distance in
      * the byte 16 below. */
    method Align(ptr: nat) returns (p: nat)
      requires ptr + 32 <= mem.Length
      modifies mem
      ensures p == Aligned(ptr)
      ensures p - 16 < mem.Length && mem[..] == old(mem[..])[p - 16 := Offset(ptr)]
    {
      AlignedSpot(ptr);
      p := ptr + 16;
      var diff := p % 16;
      if diff != 0 {
        diff := 16 - diff;
        p := p + diff;
      }
      mem[p - 16] := diff + 16;
    }

    /** UNALIGN: reads the distance back. From what ALIGN made and stored for an address it leads back
      * to that address; a byte of 32 or more is not a distance, and the pointer is left alone. */
    method Unalign(p: nat) returns (ptr: nat)
      requires 16 <= p && p - 16 < mem.Length && (mem[p - 16] < 32 ==> mem[p - 16] <= p)
      ensures forall b: nat :: p == Aligned(b) && mem[p - 16] == Offset(b) ==> ptr == b
      ensures mem[p - 16] >= 32 ==> ptr == p
    {
      var diff := mem[p - 16];
      ptr := if diff < 32 then p - diff else p;
      forall b: nat | p == Aligned(b) && mem[p - 16] == Offset(b) ensures ptr == b {
        UnalignUndoesAlign(b);
      }
    }

    /** The common end of every placement: charges the major and the heap, and aligns. The header of
      * the new minor has been linked into gap k of major i, and the major's first pointer set. */
    method Settle(maj: nat, min: nat, size: nat, req: nat, ghost i: nat, ghost k: nat, ghost s: Store)
      returns (p: nat)
      requires Represents(s, layout) && Fits(layout, i, k, size, req)
      requires maj == layout[i].addr && min == GapStart(layout[i], k) && maj in s.majors
      requires Contents() == s.(
        majors := s.majors[maj := s.majors[maj].(first := FirstAfter(s.majors, layout[i], k))],
        minors := WithMinor(s.minors, layout[i], k, size, req))
      modifies `majors, `inuse, `layout, mem
      ensures Sound()
      ensures layout == Insert(old(layout), i, k, size, req)
      ensures Owns(layout, p, i, k)
      ensures p != NULL && BytesKept(old(mem[..]), mem[..], p)
    {
      hide Represents, LinkIn, Place;
      majors := majors[maj := majors[maj].(usage := majors[maj].usage + size + 40)];
      inuse := inuse + size;
      SettledFits(s, layout, i, k, size, req);
      p := Align(min + 40);
      SettledRepresents(s, Contents(), layout, i, k, size, req);
      layout := Insert(layout, i, k, size, req);
    }

    /** CASE 2: the major has no minors. */
    method PlaceInEmpty(maj: nat, size: nat, req: nat, ghost i: nat) returns (p: nat)
      requires Sound()
      requires i < |layout| && layout[i].addr == maj && SizeFor(req) <= size
      requires layout[i].minors == [] && size + 40 <= GapLength(layout[i], 0)
      modifies `majors, `minors, `inuse, `layout, mem
      ensures Sound()
      ensures layout == Insert(old(layout), i, 0, size, req) && Owns(layout, p, i, 0)
      ensures p != NULL && BytesKept(old(mem[..]), mem[..], p)
    {
      hide Represents;
      ghost var s := Contents();
      ReadMajor(s, layout, i);
      var min := maj + 40;
      majors := majors[maj := majors[maj].(first := min)];
      minors := minors[min := MinorHeader(NULL, NULL, maj, MAGIC, size, req)];
      p := Settle(maj, min, size, req, i, 0, s);
    }

    /** CASE 3: there is room before the first minor. */
    method PlaceInFront(maj: nat, first: nat, size: nat, req: nat, ghost i: nat) returns (p: nat)
      requires Sound()
      requires i < |layout| && layout[i].addr == maj && SizeFor(req) <= size
      requires layout[i].minors != [] && first == layout[i].minors[0].addr && size + 40 <= GapLength(layout[i], 0)
      modifies `majors, `minors, `inuse, `layout, mem
      ensures Sound()
      ensures layout == Insert(old(layout), i, 0, size, req) && Owns(layout, p, i, 0)
      ensures p != NULL && BytesKept(old(mem[..]), mem[..], p)
    {
      hide Represents;
      ghost var s := Contents();
      ReadMajor(s, layout, i);
      var min := maj + 40;
      minors := minors[min := MinorHeader(NULL, first, maj, MAGIC, size, req)];
      minors := minors[first := minors[first].(prev := min)];
      majors := majors[maj := majors[maj].(first := min)];
      p := Settle(maj, min, size, req, i, 0, s);
    }

    /** CASE 4.1: there is room after the last minor. */
    method PlaceAtEnd(maj: nat, min: nat, size: nat, req: nat, ghost i: nat, ghost k: nat) returns (p: nat)
      requires Sound()
      requires i < |layout| && layout[i].addr == maj && SizeFor(req) <= size
      requires 0 < k == |layout[i].minors| && min == layout[i].minors[k - 1].addr
      requires size + 40 <= GapLength(layout[i], k)
      modifies `majors, `minors, `inuse, `layout, mem
      ensures Sound()
      ensures layout == Insert(old(layout), i, k, size, req) && Owns(layout, p, i, k)
      ensures p != NULL && BytesKept(old(mem[..]), mem[..], p)
    {
      hide Represents;
      ghost var s := Contents();
      ReadMajor(s, layout, i);
      ReadMinor(minors, layout[i], k - 1);
      var end := min + 40 + minors[min].size;
      minors := minors[min := minors[min].(next := end)];
      minors := minors[end := MinorHeader(min, NULL, maj, MAGIC, size, req)];
      p := Settle(maj, end, size, req, i, k, s);
    }

    /** CASE 4.2: there is room between two minors. */
    method PlaceBetween(maj: nat, min: nat, next: nat, size: nat, req: nat, ghost i: nat, ghost k: nat) returns (p: nat)
      requires Sound()
      requires i < |layout| && layout[i].addr == maj && SizeFor(req) <= size
      requires 0 < k < |layout[i].minors| && size + 40 <= GapLength(layout[i], k)
      requires min == layout[i].minors[k - 1].addr && next == layout[i].minors[k].addr
      modifies `majors, `minors, `inuse, `layout, mem
      ensures Sound()
      ensures layout == Insert(old(layout), i, k, size, req) && Owns(layout, p, i, k)
      ensures p != NULL && BytesKept(old(mem[..]), mem[..], p)
    {
      hide Represents;
      ghost var s := Contents();
      ReadMajor(s, layout, i);
      ReadMinor(minors, layout[i], k - 1);
      var end := min + 40 + minors[min].size;
      minors := minors[end := MinorHeader(min, next, maj, MAGIC, size, req)];
      minors := minors[next := minors[next].(prev := end)];
      minors := minors[min := minors[min].(next := end)];
      p := Settle(maj, end, size, req, i, k, s);
    }

    /** CASE 4.1 and CASE 4.2 for one minor: looks for room between it and what follows it. */
    method PlaceBehind(maj: nat, min: nat, next: nat, size: nat, req: nat, ghost i: nat, ghost k: nat) returns (p: nat)
      requires Sound()
      requires i < |layout| && layout[i].addr == maj && SizeFor(req) <= size && size + 40 < 0x1_0000_0000_0000_0000
      requires 0 < k <= |layout[i].minors| && min == layout[i].minors[k - 1].addr && next == MinorAddr(layout[i], k)
      modifies `majors, `minors, `inuse, `layout, mem
      ensures size + 40 <= GapLength(old(layout[i]), k) ==>
        Sound() && layout == Insert(old(layout), i, k, size, req) && Owns(layout, p, i, k)
      ensures size + 40 <= GapLength(old(layout[i]), k) ==> p != NULL && BytesKept(old(mem[..]), mem[..], p)
      ensures GapLength(old(layout[i]), k) < size + 40 ==>
        p == NULL && layout == old(layout) && Contents() == old(Contents())
    {
      hide Represents, Held, InUse, Sizes, Insert, BytesKept, Owns, IsLive;
      ReadMajor(Contents(), layout, i);
      ReadMinor(minors, layout[i], k - 1);
      if next == NULL {
        var diff := maj + majors[maj].size - min - 40 - minors[min].size;
        if diff >= Wrap64(size + 40) {
          p := PlaceAtEnd(maj, min, size, req, i, k);
          return;
        }
      }
      if next != NULL {
        var diff := next - min - 40 - minors[min].size;
        if diff >= Wrap64(size + 40) {
          p := PlaceBetween(maj, min, next, size, req, i, k);
          return;
        }
      }
      p := NULL;
    }

    /** CASE 4: looks for room after each minor in turn. */
    method PlaceAfter(maj: nat, first: nat, size: nat, req: nat, ghost i: nat, ghost k: nat) returns (p: nat)
      requires Sound()
      requires i < |layout| && layout[i].addr == maj && SizeFor(req) <= size && size + 40 < 0x1_0000_0000_0000_0000
      requires first != NULL && first == MinorAddr(layout[i], 0)
      requires k == FirstGapFrom(layout[i], size + 40, 1)
      modifies `majors, `minors, `inuse, `layout, mem
      ensures k <= |old(layout[i]).minors| ==>
        Sound() && layout == Insert(old(layout), i, k, size, req) && Owns(layout, p, i, k)
      ensures k <= |old(layout[i]).minors| ==>
        p != NULL && BytesKept(old(mem[..]), mem[..], p)
      ensures |old(layout[i]).minors| < k ==>
        p == NULL && layout == old(layout) && Contents() == old(Contents())
    {
      hide Represents, FirstGapFrom, Held, InUse, Sizes, Insert, BytesKept, Owns, IsLive, WellFormed, GapLength;
      ghost var m := layout[i];
      ReadMajor(Contents(), layout, i);
      var min := first;
      ghost var j := 0;
      p := NULL;
      while min != NULL
        invariant Contents() == old(Contents()) && layout == old(layout) && p == NULL
        invariant j <= |m.minors| && min == MinorAddr(m, j) && (min == NULL <==> j == |m.minors|)
        invariant FirstGapFrom(m, size + 40, j + 1) == k
        decreases |m.minors| - j
      {
        ReadMinor(minors, m, j);
        FirstGapStep(m, size + 40, j + 1);
        var next := minors[min].next;
        p := PlaceBehind(maj, min, next, size, req, i, j + 1);
        if p != NULL {
          return;
        }
        min := next;
        j := j + 1;
      }
    }

    /** The placement cases for one major that has enough free space in all. */
    method PlaceIn(maj: nat, size: nat, req: nat, ghost i: nat, ghost k: nat) returns (p: nat)
      requires Sound()
      requires i < |layout| && layout[i].addr == maj && SizeFor(req) <= size && size + 40 < 0x1_0000_0000_0000_0000
      requires size + 40 <= Spare(layout[i]) && k == FirstGap(layout[i], size + 40)
      modifies `majors, `minors, `inuse, `layout, mem
      ensures k <= |old(layout[i]).minors| ==>
        Sound() && layout == Insert(old(layout), i, k, size, req) && Owns(layout, p, i, k)
      ensures k <= |old(layout[i]).minors| ==>
        p != NULL && BytesKept(old(mem[..]), mem[..], p)
      ensures |old(layout[i]).minors| < k ==>
        p == NULL && layout == old(layout) && Contents() == old(Contents())
    {
      ReadMajor(Contents(), layout, i);
      if majors[maj].first == NULL {
        EmptyMajorFits(layout[i], size + 40);
        p := PlaceInEmpty(maj, size, req, i);
        return;
      }
      var first := majors[maj].first;
      var diff := first - maj - 40;
      FirstGapStep(layout[i], size + 40, 0);
      if diff >= Wrap64(size + 40) {
        p := PlaceInFront(maj, first, size, req, i);
        return;
      }
      p := PlaceAfter(maj, first, size, req, i, k);
    }

    /** Asks for fresh pages and links them in behind the last major. */
    method Grow(maj: nat, size: nat, page: nat) returns (next: nat)
      requires Sound() && layout != [] && maj == layout[|layout| - 1].addr
      requires page == NULL || PagesFresh(layout, page, size, mem.Length)
      modifies `majors, `held, `layout
      ensures Sound() && next == page
      ensures layout == if page == NULL then old(layout) else old(layout) + [NewMajor(page, size)]
    {
      hide Represents, PagesFor, PagesAsked;
      ghost var s := Contents();
      ReadMajor(s, layout, |layout| - 1);
      NewMajorFits(size);
      next := AllocateNewPage(size, page);
      if next == NULL {
        assert Contents() == s;
      } else {
        majors := majors[maj := majors[maj].(next := next)];
        majors := majors[next := majors[next].(prev := maj)];
        GrownRepresents(s, Contents(), layout, page, size);
        layout := layout + [NewMajor(page, size)];
      }
    }

    /** The first major of all: it becomes the root. */
    method AllocateRoot(size: nat, page: nat)
      requires Sound() && layout == [] && (page == NULL || PagesFresh(layout, page, size, mem.Length))
      modifies `majors, `held, `memRoot, `layout
      ensures Sound()
      ensures layout == if page == NULL then [] else [NewMajor(page, size)]
    {
      hide Represents, PagesFor, PagesAsked;
      ghost var s := Contents();
      RootOf(s, layout);
      NewMajorFits(size);
      memRoot := AllocateNewPage(size, page);
      if memRoot == NULL {
        assert Contents() == s;
      } else {
        GrownRepresents(s, Contents(), layout, page, size);
        layout := layout + [NewMajor(page, size)];
      }
    }

    /** The major to start at: the best bet when it looks large enough, else the root. */
    method Begin(size: nat, ghost cur: nat) returns (maj: nat, startedBet: bool, bestSize: int)
      requires Sound() && layout != [] && cur == Start(layout, bestBet, size + 40)
      requires size + 40 < 0x1_0000_0000_0000_0000
      ensures bestSize == SpareAt(layout, bestBet)
      ensures cur < |layout| && maj == layout[cur].addr && maj != NULL && (startedBet || cur == 0)
    {
      RootOf(Contents(), layout);
      maj, startedBet, bestSize := memRoot, false, 0;
      NullIsNoMajor(layout);
      if bestBet != NULL {
        SummaryOfMajor(Contents(), layout, IndexOf(layout, bestBet));
        bestSize := majors[bestBet].size - majors[bestBet].usage;
        if bestSize > Wrap64(size + 40) {
          maj := bestBet;
          startedBet := true;
        }
      }
    }

    /** Measures a major and remembers it when it is freer than the best bet. */
    method Measure(maj: nat, bestSize: int, ghost cur: nat) returns (diff: int, newBest: int)
      requires Sound() && cur < |layout| && maj == layout[cur].addr
      requires bestSize == SpareAt(layout, bestBet)
      modifies `bestBet
      ensures Sound()
      ensures diff == Spare(layout[cur]) <= newBest == SpareAt(layout, bestBet)
      ensures SpareAt(layout, old(bestBet)) <= newBest
    {
      SummaryOfMajor(Contents(), layout, cur);
      newBest := bestSize;
      diff := majors[maj].size - majors[maj].usage;
      if newBest < diff {
        bestBet := maj;
        newBest := diff;
      }
    }

    /** A major had no room: hop to the next one, start over at the root, or link in fresh pages. */
    method Advance(maj: nat, startedBet: bool, req: nat, page: nat,
        ghost l: Layout, ghost bet: nat, ghost cur: nat, ghost grown: bool)
      returns (next: nat, stillBet: bool, grew: bool, ghost at: nat)
      requires Sound() && Sized(req) && HookAnswer(l, req, page, mem.Length)
      requires cur < |layout| && maj == layout[cur].addr
      requires At(l, bet, req, page, layout, cur, startedBet, grown, bestBet)
      requires !HasGap(layout[cur], NeedFor(req)) && Spare(layout[cur]) <= SpareAt(layout, bestBet)
      modifies `majors, `held, `layout
      ensures Sound() && !grown
      ensures next == NULL ==> Malloced(l, bet, req, page, layout, NULL, bestBet)
      ensures next != NULL ==>
        && at < |layout| && at <= |l| && next == layout[at].addr
        && At(l, bet, req, page, layout, at, stillBet, grew, bestBet)
        && SpareAt(layout, bestBet) == old(SpareAt(layout, bestBet))
      ensures next != NULL && !grew ==> (startedBet && !stillBet) || (at == cur + 1 && stillBet == startedBet)
    {
      hide Malloced, At, Represents;
      AtMoves(Contents(), l, bet, req, page, layout, cur, startedBet, grown, bestBet);
      SummaryOfMajor(Contents(), layout, cur);
      next, stillBet, grew, at := majors[maj].next, startedBet, false, cur + 1;
      if next != NULL {
        return;
      }
      if startedBet {
        RootOf(Contents(), layout);
        next, stillBet, at := memRoot, false, 0;
        return;
      }
      NoWrap(req);
      next := Grow(maj, Wrap64(req + 16 + 16), page);
      grew := true;
    }

    /** Places the block in this major when one of its gaps takes it. */
    method Try(maj: nat, req: nat, page: nat,
        ghost l: Layout, ghost bet: nat, ghost cur: nat, ghost started: bool, ghost grown: bool)
      returns (p: nat)
      requires Sound() && Sized(req) && HookAnswer(l, req, page, mem.Length)
      requires cur < |layout| && maj == layout[cur].addr
      requires At(l, bet, req, page, layout, cur, started, grown, bestBet)
      requires NeedFor(req) <= Spare(layout[cur])
      requires !grown ==> Spare(layout[cur]) <= SpareAt(layout, bestBet)
      modifies `majors, `minors, `inuse, `layout, mem
      ensures Sound()
      ensures p != NULL ==> Malloced(l, bet, req, page, layout, p, bestBet)
      ensures p == NULL ==> layout == old(layout) && !HasGap(layout[cur], NeedFor(req))
      ensures BytesKept(old(mem[..]), mem[..], p)
    {
      hide Malloced, At, Represents;
      ghost var now, best := layout, bestBet;
      ghost var k := FirstGap(now[cur], NeedFor(req));
      NoWrap(req);
      p := PlaceIn(maj, Wrap64(req + 16 + 16), req, cur, k);
      if p != NULL {
        assert HasGap(now[cur], NeedFor(req));
        AtPlaces(l, bet, req, page, now, cur, started, grown, best, mem.Length, layout, p);
      }
    }

    /** Measures a major; when it has too little free space in all (CASE 1), goes on from it. Says
      * whether the major it ends at is to be tried. */
    method Consider(from: nat, fromBet: bool, bestSize: int, req: nat, page: nat,
        ghost l: Layout, ghost bet: nat, ghost at: nat, ghost rooted: bool)
      returns (maj: nat, startedBet: bool, newBest: int, enough: bool, ghost cur: nat, ghost grown: bool)
      requires Sound() && Sized(req) && HookAnswer(l, req, page, mem.Length)
      requires at < |layout| && from == layout[at].addr && bestSize == SpareAt(layout, bestBet)
      requires from != NULL && at <= |l| && At(l, bet, req, page, layout, at, fromBet, rooted, bestBet)
      modifies `majors, `bestBet, `held, `layout
      ensures Sound()
      ensures maj == NULL ==> !enough && Malloced(l, bet, req, page, layout, NULL, bestBet)
      ensures maj != NULL ==>
        && cur < |layout| && cur <= |l| && maj == layout[cur].addr && newBest == SpareAt(layout, bestBet)
        && At(l, bet, req, page, layout, cur, startedBet, grown, bestBet)
      ensures enough ==> NeedFor(req) <= Spare(layout[cur])
      ensures enough && grown ==> HasGap(layout[cur], NeedFor(req))
      ensures enough && !grown ==> Spare(layout[cur]) <= SpareAt(layout, bestBet)
      ensures maj != NULL && !enough ==> !rooted && !grown
      ensures maj != NULL && !enough ==> (fromBet && !startedBet) || (cur == at + 1 && startedBet == fromBet)
      ensures enough && !grown ==> cur == at && startedBet == fromBet
      ensures rooted ==> grown || maj == NULL
    {
      hide At, Malloced, Represents;
      ghost var before := bestBet;
      var diff: int;
      diff, newBest := Measure(from, bestSize, at);
      AtRemembers(l, bet, req, page, layout, at, fromBet, rooted, before, bestBet);
      if rooted {
        AtFreshPages(l, bet, req, page, layout, at, fromBet, bestBet, mem.Length);
      }
      maj, startedBet, enough, cur, grown := from, fromBet, true, at, rooted;
      NoWrap(req);
      if diff < Wrap64(Wrap64(req + 16 + 16) + 40) {
        TooLittleFreeHere(Contents(), layout, at, NeedFor(req));
        maj, startedBet, enough, cur := Advance(from, fromBet, req, page, l, bet, at, rooted);
        if maj == NULL {
          enough := false;
        }
        grown := enough;
        if enough {
          AtFreshPages(l, bet, req, page, layout, cur, startedBet, bestBet, mem.Length);
        }
      }
    }

    /** The search loop of malloc, from the given major on. `l` and `bet` are the layout and the best
      * bet that malloc found on entry. */
    method Search(from: nat, fromBet: bool, bestFree: int, req: nat, page: nat,
        ghost l: Layout, ghost bet: nat, ghost at: nat, ghost rooted: bool)
      returns (p: nat)
      requires Sound() && Sized(req) && HookAnswer(l, req, page, mem.Length)
      requires at < |layout| && from == layout[at].addr && from != NULL && bestFree == SpareAt(layout, bestBet)
      requires at <= |l| && At(l, bet, req, page, layout, at, fromBet, rooted, bestBet)
      modifies `majors, `minors, `bestBet, `held, `inuse, `layout, mem
      ensures Sound()
      ensures Malloced(l, bet, req, page, layout, p, bestBet)
      ensures BytesKept(old(mem[..]), mem[..], p)
    {
      hide Represents, Malloced, At;
      var maj, startedBet, bestSize, enough := from, fromBet, bestFree, false;
      ghost var cur: nat, grown := at, rooted;
      while maj != NULL
        invariant Sound() && mem[..] == old(mem[..])
        invariant if maj == NULL then Malloced(l, bet, req, page, layout, NULL, bestBet) else
            && cur < |layout| && cur <= |l| && maj == layout[cur].addr && bestSize == SpareAt(layout, bestBet)
            && At(l, bet, req, page, layout, cur, startedBet, grown, bestBet)
        decreases maj != NULL, !grown, startedBet, |l| - cur
      {
        maj, startedBet, bestSize, enough, cur, grown :=
          Consider(maj, startedBet, bestSize, req, page, l, bet, cur, grown);
        if enough {
          p := Try(maj, req, page, l, bet, cur, startedBet, grown);
          if p != NULL {
            return;
          }
          maj, startedBet, enough, cur := Advance(maj, startedBet, req, page, l, bet, cur, grown);
          grown := enough;
        }
      }
      p := NULL;
    }

    method Malloc(req: nat, page: nat) returns (p: nat)
      requires Valid() && Sized(req) && HookAnswer(layout, req, page, mem.Length)
      modifies this, mem
      ensures Valid()
      ensures Malloced(old(layout), old(bestBet), req, page, layout, p, bestBet)
      ensures BytesKept(old(mem[..]), mem[..], p)
    {
      ghost var l, bet := layout, bestBet;
      NoWrap(req);
      var size := Wrap64(req + 16 + 16);
      RootOf(Contents(), layout);
      AtStart(l, bet, req, page, mem.Length);
      if memRoot == NULL {
        AllocateRoot(size, page);
        if memRoot == NULL {
          return NULL;
        }
      }
      ghost var at := Start(layout, bestBet, NeedFor(req));
      var maj, startedBet, bestSize := Begin(size, at);
      p := Search(maj, startedBet, bestSize, req, page, l, bet, at, l == []);
      if p != NULL {
        MallocKeepsWellFormed(l, bet, req, page, mem.Length);
      }
    }

    /** Takes minor k of major i out of the lists and the counters. */
    method Unlink(min: nat, maj: nat, ghost i: nat, ghost k: nat)
      requires Sound() && i < |layout| && k < |layout[i].minors|
      requires min == layout[i].minors[k].addr && maj == layout[i].addr
      modifies `majors, `minors, `inuse, `layout
      ensures Sound() && layout == old(layout)[i := Drop(old(layout)[i], k)]
    {
      hide Represents;
      ghost var s, m := Contents(), layout[i];
      ReadLive(s, layout, i, k);
      inuse := inuse - minors[min].size;
      majors := majors[maj := majors[maj].(usage := majors[maj].usage - (minors[min].size + 40))];
      minors := minors[min := minors[min].(magic := DEAD)];
      var next, prev := minors[min].next, minors[min].prev;
      if next != NULL {
        minors := minors[next := minors[next].(prev := prev)];
      }
      if prev != NULL {
        minors := minors[prev := minors[prev].(next := next)];
      }
      if prev == NULL {
        majors := majors[maj := majors[maj].(first := next)];
      }
      DroppedRepresents(s, Contents(), layout, i, k);
      layout := layout[i := Drop(m, k)];
    }

    /** Gives an empty major back to the system. */
    method Release(maj: nat, ghost i: nat)
      requires Sound() && i < |layout| && maj == layout[i].addr && layout[i].minors == []
      modifies `majors, `memRoot, `bestBet, `held, `layout
      ensures Sound() && layout == old(layout)[..i] + old(layout)[i + 1..]
      ensures bestBet == if old(bestBet) == maj then NULL else old(bestBet)
    {
      hide Represents;
      ghost var s := Contents();
      ReadMajor(s, layout, i);
      ReleasedReads(s, layout, i);
      if memRoot == maj {
        memRoot := majors[maj].next;
      }
      if bestBet == maj {
        bestBet := NULL;
      }
      var next, prev := majors[maj].next, majors[maj].prev;
      if prev != NULL {
        majors := majors[prev := majors[prev].(next := next)];
      }
      if next != NULL {
        majors := majors[next := majors[next].(prev := prev)];
      }
      held := held - majors[maj].size;
      ReleasedRepresents(s, Contents(), layout, i);
      layout := layout[..i] + layout[i + 1..];
    }

    /** After a block in major i was freed and others remain in it: prefers that major when it is
      * freer than the best bet, both read as signed numbers. */
    method Prefer(maj: nat, ghost i: nat)
      requires Sound() && i < |layout| && maj == layout[i].addr
      modifies `bestBet
      ensures Sound()
      ensures old(bestBet) == NULL ==> bestBet == NULL
      ensures old(bestBet) != NULL ==>
        && (bestBet == old(bestBet) || bestBet == maj)
        && AsInt(SpareAt(layout, old(bestBet))) <= AsInt(SpareAt(layout, bestBet))
        && AsInt(SpareAt(layout, maj)) <= AsInt(SpareAt(layout, bestBet))
    {
      if bestBet != NULL {
        SummaryOfMajor(Contents(), layout, IndexOf(layout, bestBet));
        SummaryOfMajor(Contents(), layout, i);
        var bestSize := AsInt(majors[bestBet].size - majors[bestBet].usage);
        var majSize := AsInt(majors[maj].size - majors[maj].usage);
        if majSize > bestSize {
          bestBet := maj;
        }
      }
    }

    method Free(ptr: nat)
      requires Valid() && (ptr == NULL || IsLive(layout, ptr))
      modifies this
      ensures Valid()
      ensures ptr == NULL ==> layout == old(layout) && bestBet == old(bestBet)
      ensures ptr != NULL ==> forall i: nat, k: nat :: Owns(old(layout), ptr, i, k) ==>
        layout == Remove(old(layout), i, k) && FreedHint(old(layout), i, k, old(bestBet), bestBet)
    {
      hide Represents;
      if ptr == NULL {
        return;
      }
      ghost var l := layout;
      ghost var i: nat, k: nat :| Owns(l, ptr, i, k);
      ReadPointer(Contents(), l, ptr, i, k);
      ReadLive(Contents(), l, i, k);
      var body := Unalign(ptr);
      var min := body - 40;
      assert minors[min].magic == MAGIC;
      var maj := minors[min].block;
      Unlink(min, maj, i, k);
      ReadMajor(Contents(), layout, i);
      if majors[maj].first == NULL {
        Release(maj, i);
      } else {
        Prefer(maj, i);
      }
      Freed(l, layout, ptr, i, k);
    }

    /** Copies n bytes, four at a time and then one at a time. */
    method Memcpy(dst: nat, src: nat, n: nat)
      requires dst + n <= mem.Length && src + n <= mem.Length
      requires dst + n <= src || src + n <= dst
      modifies mem
      ensures IsCopied(old(mem[..]), mem[..], dst, src, n)
    {
      ghost var before := mem[..];
      var ldest, lsrc, left := dst, src, n;
      while left >= 4
        invariant ldest == dst + (n - left) && lsrc == src + (n - left) && 0 <= left <= n
        invariant IsCopied(before, mem[..], dst, src, n - left)
      {
        var word := (mem[lsrc], mem[lsrc + 1], mem[lsrc + 2], mem[lsrc + 3]);
        mem[ldest], mem[ldest + 1], mem[ldest + 2], mem[ldest + 3] := word.0, word.1, word.2, word.3;
        ldest, lsrc, left := ldest + 4, lsrc + 4, left - 4;
      }
      while left > 0
        invariant ldest == dst + (n - left) && lsrc == src + (n - left) && 0 <= left <= n
        invariant IsCopied(before, mem[..], dst, src, n - left)
      {
        mem[ldest] := mem[lsrc];
        ldest, lsrc, left := ldest + 1, lsrc + 1, left - 1;
      }
    }

    /** realloc of a live block to a size that is not zero. Growing a block with bytes requires room
      * for the new one: the original copies to whatever malloc returned. */
    method Resize(p: nat, size: nat, page: nat, ghost i: nat, ghost k: nat) returns (q: nat)
      requires Valid() && Owns(layout, p, i, k)
      requires Sized(size) && HookAnswer(layout, size, page, mem.Length)
      requires 0 < layout[i].minors[k].req < size ==> Choose(layout, bestBet, size, page).Spot?
      modifies this, mem
      ensures Valid()
      ensures Realloced(old(layout), old(bestBet), i, k, size, page, layout, q)
      ensures ReallocBytes(old(mem[..]), mem[..], p, q, old(layout)[i].minors[k].req, size)
    {
      hide Represents, WellFormed, Holds, Remove, Placed, Choose, BytesKept, BytesMoved;
      ghost var l, bet, b0 := layout, bestBet, mem[..];
      ReadPointer(Contents(), l, p, i, k);
      ReadLive(Contents(), l, i, k);
      var body := Unalign(p);
      var min := body - 40;
      assert minors[min].magic == MAGIC;
      var realSize := minors[min].req;
      if realSize >= size {
        ghost var s := Contents();
        minors := minors[min := minors[min].(req := size)];
        ShrunkRepresents(s, Contents(), l, i, k, size);
        ShrinkKeepsWellFormed(l, i, k, size);
        layout := Shrink(l, i, k, size);
        return p;
      }
      q := Malloc(size, page);
      ghost var spot, b1 := Choose(l, bet, size, page), mem[..];
      if q == NULL {
        assert realSize == 0;
        Free(p);
        return;
      }
      PlacedKeeps(l, bet, size, page, i, k);
      PlacedNew(l, bet, size, page);
      Move(p, q, realSize, i, Moved(spot, i, k), spot.index, spot.gap);
      MovedBytes(b0, b1, mem[..], p, q, realSize);
    }

    /** The bytes of one block go to another, no smaller one, and the first is freed. */
    method Move(p: nat, q: nat, n: nat, ghost i: nat, ghost k: nat, ghost j: nat, ghost m: nat)
      requires Valid() && Owns(layout, p, i, k) && Owns(layout, q, j, m) && (i, k) != (j, m)
      requires n == layout[i].minors[k].req <= layout[j].minors[m].req
      modifies this, mem
      ensures Valid() && layout == Remove(old(layout), i, k)
      ensures p + n <= mem.Length && q + n <= mem.Length && (q + n <= p - 16 || p + n <= q - 16)
      ensures IsCopied(old(mem[..]), mem[..], q, p, n)
    {
      hide Represents;
      ghost var l, s := layout, Contents();
      RangesApart(s, l, q, j, m, p, i, k);
      ReadLive(s, l, i, k);
      LiveNotNull(l, p, i, k);
      Memcpy(q, p, n);
      UserWriteKeeps(s, Contents(), l, j, m);
      assert Owns(l, p, i, k);
      Free(p);
    }

    method Realloc(p: nat, size: nat, page: nat) returns (q: nat)
      requires Valid() && (p == NULL || IsLive(layout, p))
      requires size != 0 ==> Sized(size) && HookAnswer(layout, size, page, mem.Length)
      requires forall r: nat :: IsBlock(layout, p, r) && 0 < r < size ==> Choose(layout, bestBet, size, page).Spot?
      modifies this, mem
      ensures Valid()
      ensures size == 0 && p == NULL ==> q == NULL && layout == old(layout)
      ensures size == 0 && p != NULL ==> q == NULL && forall i: nat, k: nat :: Owns(old(layout), p, i, k) ==>
        layout == Remove(old(layout), i, k)
      ensures size == 0 ==> mem[..] == old(mem[..])
      ensures size != 0 && p == NULL ==> Malloced(old(layout), old(bestBet), size, page, layout, q, bestBet)
      ensures size != 0 && p != NULL ==> forall i: nat, k: nat :: Owns(old(layout), p, i, k) ==>
        Realloced(old(layout), old(bestBet), i, k, size, page, layout, q)
      ensures size != 0 && p != NULL ==> BlockMoved(old(layout), old(mem[..]), layout, mem[..], p, q, size)
    {
      hide Represents, Malloced, Realloced, ReallocBytes, BlockMoved;
      if size == 0 {
        Free(p);
        return NULL;
      }
      if p == NULL {
        q := Malloc(size, page);
        return;
      }
      ghost var s, l, bet := Contents(), layout, bestBet;
      ghost var i: nat, k: nat :| Owns(l, p, i, k);
      assert IsBlock(l, p, l[i].minors[k].req);
      ReadLive(s, l, i, k);
      q := Resize(p, size, page, i, k);
      ReallocMoves(s, l, bet, p, i, k, size, page, layout, mem[..], q);
      forall j: nat, n: nat | Owns(l, p, j, n)
        ensures Realloced(l, bet, j, n, size, page, layout, q)
      {
        OwnerIsUnique(l, p, i, k, j, n);
      }
    }
  }
}
