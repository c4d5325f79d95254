/** Building the tables: pt_alloc, aarch64_map_init and the three nested loops of aarch64_map
(lib/aarch64/aarch64_map.c:79-301). */
module MapTables {
  import opened Align
  import opened Blocks
  import opened Options
  import opened Memory
  import opened Ram
  import opened PageTable

  /** One call of aarch64_map after its checks: pages page numbers from first on, starting at
  address va, go to physical addresses from base on, with or without the contiguous bursts. */
  datatype Job = Job(high: bool, va: nat, first: nat, pages: nat, base: nat, prot: Prot, bursts: bool) {
    predicate Sound() {
      && va % 4096 == 0 && base % 4096 == 0
      && first == PageNo(va) && first + pages <= 0x800_0000
      && base + pages * 4096 <= PADDR_LIMIT
    }

    /** The aligned group of 16 pages around n lies in the job and its outputs are aligned too. */
    predicate InBurst(n: nat) {
      var g := n - n % 16;
      bursts && first <= g && g + 16 <= first + pages && (base / 4096 + (g - first)) % 16 == 0
    }

    /** The level 3 descriptor page n gets. */
    function DescAt(n: nat): Desc
      requires first <= n
    {
      PageDesc(base + (n - first) * 4096, InBurst(n), prot)
    }

    predicate Covers(isHigh: bool, n: nat) {
      isHigh == high && first <= n < first + pages
    }

    /** The loops stand at page n: va and pa have moved on in step. */
    predicate Stands(n: nat, v: nat, pa: nat) {
      first <= n <= first + pages && v == va + (n - first) * 4096 && pa == base + (n - first) * 4096
    }

    function End(): nat {
      va + pages * 4096
    }

    /** No page of the job goes through a recursive self-map entry. */
    ghost predicate Plain(layout: Layout) {
      forall n :: first <= n < first + pages ==> layout.Plain(high, n)
    }
  }

  /** The tables t translate the job's pages before upto, and every other plain page as t0 does. */
  ghost predicate MappedUpTo(layout: Layout, t0: Tables, t: Tables, job: Job, upto: nat) {
    forall h, n :: 0 <= n < ROOT_PAGES && layout.Plain(h, n) ==>
      LeafAt(t, h, n) == if h == job.high && job.first <= n < upto then job.DescAt(n) else LeafAt(t0, h, n)
  }

  /** The USE_CONTIG macro for 16 pages of 4K. */
  predicate UseContig(va: nat, pa: nat, size: nat) {
    size >= 65536 && va % 65536 == 0 && pa % 65536 == 0
  }

  /** Storing the descriptor of page n in the table a walk to it ends in maps one page more. */
  lemma OneMore(layout: Layout, t0: Tables, t: Tables, owner: map<nat, Path>, job: Job, i: nat, j: nat, leaf: nat, k: nat, n: nat)
    requires layout.Sound() && Tree(layout, t, owner) && Reaches(layout, t, owner, job.high, i, j, leaf)
    requires k < ENTRIES && n == (i * 512 + j) * 512 + k && job.first <= n
    requires MappedUpTo(layout, t0, t, job, n)
    ensures var t' := Store(t, leaf, k, job.DescAt(n));
      Tree(layout, t', owner) && Reaches(layout, t', owner, job.high, i, j, leaf) && MappedUpTo(layout, t0, t', job, n + 1)
  {
    StoreLeaf(layout, t, owner, job.high, i, j, leaf, k, job.DescAt(n));
  }

  lemma Page16(p: nat)
    ensures p * 4096 % 65536 == 0 <==> p % 16 == 0
  {
    DivModUnique(p * 4096, 65536, p / 16, p % 16 * 4096);
  }

  /** Page numbers and addresses agree on the position inside a group of 16. */
  lemma PageMod16(va: nat, first: nat, d: nat)
    requires first == PageNo(va)
    ensures (va / 4096 + d) % 16 == (first + d) % 16
  {
    var p := va / 4096;
    var q, r := p / 0x800_0000, (first + d) % 16;
    assert p == q * 0x800_0000 + first;
    DivModUnique(p + d, 16, q * 0x80_0000 + (first + d) / 16, r);
  }

  /** USE_CONTIG at page n asks whether a burst starts there. */
  lemma BurstTest(job: Job, n: nat, va: nat, pa: nat)
    requires job.Sound() && job.Stands(n, va, pa) && n < job.first + job.pages
    ensures job.bursts && UseContig(va, pa, job.End() - va) <==> n % 16 == 0 && job.InBurst(n)
  {
    var p, q := job.va / 4096, job.base / 4096;
    var d := n - job.first;
    assert job.va == p * 4096 && job.base == q * 4096;
    assert va == (p + d) * 4096 && pa == (q + d) * 4096;
    Page16(p + d);
    Page16(q + d);
    PageMod16(job.va, job.first, d);
  }

  /** Page n is not in the middle of a burst. */
  predicate AtBurstEdge(job: Job, n: nat) {
    n % 16 != 0 ==> !job.InBurst(n)
  }

  lemma TableEdge(table: nat, l: nat)
    requires l < 512
    ensures (table * 512 + l) % 16 == l % 16
    ensures l % 16 == 0 ==> l + 16 <= 512
  {
    var q := table * 32;
    assert table * 512 + l == q * 16 + l;
  }

  lemma SameGroup(n: nat, m: nat)
    requires n - n % 16 <= m < n - n % 16 + 16
    ensures m - m % 16 == n - n % 16
  {
    var q := n / 16;
    DivModUnique(m, 16, q, m - q * 16);
  }

  lemma WholeBurst(job: Job, n: nat)
    requires n % 16 == 0 && job.InBurst(n)
    ensures n + 16 <= job.first + job.pages && forall m :: n <= m < n + 16 ==> job.InBurst(m)
    ensures AtBurstEdge(job, n + 16)
  {
    forall m | n <= m < n + 16
      ensures job.InBurst(m)
    {
      SameGroup(n, m);
    }
    DivModUnique(n + 16, 16, n / 16 + 1, 0);
  }

  lemma NextInGroup(n: nat)
    requires (n + 1) % 16 != 0
    ensures n % 16 < 15
  {
    if n % 16 == 15 {
      DivModUnique(n + 1, 16, n / 16 + 1, 0);
    }
  }

  lemma NoBurst(job: Job, n: nat)
    requires AtBurstEdge(job, n) && !(n % 16 == 0 && job.InBurst(n))
    ensures !job.InBurst(n) && AtBurstEdge(job, n + 1)
  {
    if (n + 1) % 16 != 0 {
      NextInGroup(n);
      SameGroup(n, n + 1);
    }
  }

  /** One turn of the innermost loop: all its descriptors agree on the contiguous bit, a burst stays
  inside the table, and afterwards the loop again stands at no middle of a burst. */
  lemma BurstStep(job: Job, n: nat, va: nat, pa: nat, table: nat, l: nat)
    requires job.Sound() && job.Stands(n, va, pa) && n < job.first + job.pages
    requires n == table * 512 + l && l < 512
    requires AtBurstEdge(job, n)
    ensures var contig := job.bursts && UseContig(va, pa, job.End() - va);
      var next := n + (if contig then 16 else 1);
      && (contig ==> l + 16 <= 512)
      && next <= job.first + job.pages
      && (forall m :: n <= m < next ==> job.InBurst(m) == contig)
      && AtBurstEdge(job, next)
  {
    BurstTest(job, n, va, pa);
    TableEdge(table, l);
    if job.bursts && UseContig(va, pa, job.End() - va) {
      WholeBurst(job, n);
    } else {
      NoBurst(job, n);
    }
  }

  /** A contiguous descriptor belongs to a full aligned group of 16 contiguous descriptors whose
  outputs are consecutive from an aligned address. */
  lemma ContigGroups(job: Job, n: nat)
    requires job.Sound() && job.first <= n < job.first + job.pages && job.DescAt(n).contig
    ensures var g := n - n % 16;
      && job.first <= g && g + 16 <= job.first + job.pages
      && job.DescAt(g).addr % 65536 == 0
      && forall m :: g <= m < g + 16 ==>
           job.DescAt(m) == PageDesc(job.DescAt(g).addr + (m - g) * 4096, true, job.prot)
  {
    var g := n - n % 16;
    var a := job.base / 4096 + (g - job.first);
    SameGroup(n, g);
    assert job.DescAt(g).addr == a * 4096;
    Page16(a);
    forall m | g <= m < g + 16
      ensures job.DescAt(m) == PageDesc(job.DescAt(g).addr + (m - g) * 4096, true, job.prot)
    {
      SameGroup(n, m);
    }
  }

  lemma PageAfter(va0: nat, first: nat, n: nat, va: nat)
    requires va0 % 4096 == 0 && first == PageNo(va0) && first <= n < ROOT_PAGES && va == va0 + (n - first) * 4096
    ensures PageNo(va) == n
  {
    var p := va0 / 4096;
    var q := p / 0x800_0000;
    assert va0 == p * 4096 && p == q * 0x800_0000 + first;
    assert va == (q * 0x800_0000 + n) * 4096;
    DivModUnique(va, 4096, q * 0x800_0000 + n, 0);
    DivModUnique(q * 0x800_0000 + n, 0x800_0000, q, n);
  }

  /** Page n is the page number of the address the loops stand at. */
  lemma PageOfStand(job: Job, n: nat, va: nat, pa: nat)
    requires job.Sound() && job.Stands(n, va, pa) && n < job.first + job.pages
    ensures PageNo(va) == n && n < ROOT_PAGES
    ensures L1Idx(va) == n / 0x4_0000 && L2Idx(va) == n / 512 % 512 && L3Idx(va) == n % 512
    ensures n / 0x4_0000 < 512 && n == n / 0x4_0000 * 0x4_0000 + n / 512 % 512 * 512 + n % 512
  {
    PageAfter(job.va, job.first, n, va);
    IndexOfPage(va);
    Digits(n);
  }

  /** Page n goes through entry j of the level 2 table i, which is none of the recursive ones. */
  lemma LeafOfStand(layout: Layout, job: Job, n: nat, va: nat, pa: nat, i: nat, j: nat)
    requires job.Sound() && job.Plain(layout) && job.Stands(n, va, pa) && n < job.first + job.pages
    requires n / 0x4_0000 == i && n / 512 % 512 == j
    ensures L3Idx(va) < 512 && n == (i * 512 + j) * 512 + L3Idx(va) && !SelfSlot(layout, Dir(job.high, i), j)
  {
    PageOfStand(job, n, va, pa);
    assert layout.Plain(job.high, n);
  }

  /** The first page of a level 3 table. */
  lemma TableStart(n: nat, i: nat, j: nat)
    requires j < 512 && n == (i * 512 + j) * 512
    ensures n / 0x4_0000 == i && n / 512 % 512 == j && n % 16 == 0
  {
    assert n / 512 == i * 512 + j;
  }

  /** Table dir is the level 2 table at entry i of a root. */
  ghost predicate HangsAt(layout: Layout, t: Tables, owner: map<nat, Path>, high: bool, i: nat, dir: nat) {
    && i < ENTRIES && !SelfSlot(layout, Top(high), i)
    && dir in owner && owner[dir] == Dir(high, i)
    && t.Entry(t.Root(high), i).PageDesc? && t.Entry(t.Root(high), i).addr == dir
  }

  /** Between two states of the tables only entries of the table leaf changed. */
  ghost predicate OnlyLeaf(t: Tables, t': Tables, leaf: nat) {
    && t'.mem.Keys == t.mem.Keys && t'.low == t.low && t'.high == t.high
    && forall a :: a in t.mem && a != leaf ==> t'.mem[a] == t.mem[a]
  }

  /** Stores into a level 3 table leave the level 2 table where it hangs. */
  lemma HangsStill(layout: Layout, t: Tables, t': Tables, owner: map<nat, Path>, high: bool, i: nat, dir: nat, leaf: nat)
    requires HangsAt(layout, t, owner, high, i, dir) && OnlyLeaf(t, t', leaf)
    requires t.Root(high) in owner && owner[t.Root(high)] == Top(high) && leaf in owner && owner[leaf].Leaf?
    ensures HangsAt(layout, t', owner, high, i, dir)
  {
  }

  /** Every address of [va, va + size) translates to its counterpart from pa on. */
  ghost predicate Translated(layout: Layout, t: Tables, va: nat, size: nat, pa: nat, prot: Prot) {
    forall a :: va <= a < va + size ==> Walk(layout, t, a) == At(pa + (a - va), prot)
  }

  /** Address a is looked up in a root table and not through a recursive entry. */
  predicate PlainAddress(layout: Layout, a: nat) {
    layout.Rooted(a) && layout.Plain(a >= layout.userEnd, PageNo(a))
  }

  ghost predicate OthersKept(layout: Layout, t0: Tables, t: Tables, va: nat, size: nat) {
    forall a: nat :: PlainAddress(layout, a) && !(va <= a < va + size) ==> Walk(layout, t, a) == Walk(layout, t0, a)
  }

  /** The range checks of aarch64_map, on the page range it is about to map. */
  predicate RangeCrash(layout: Layout, va: nat, size: nat) {
    || va + size >= TWO_64
    || (va < layout.userEnd && va + size >= layout.userEnd)
    || (va >= layout.userEnd && va < layout.startupBase)
  }

  /** The job of a call: size bytes from paddr on, at the page that holds va. */
  function JobOf(layout: Layout, va: nat, paddr: nat, size: nat, prot: Prot): Job {
    Job(va >= layout.userEnd, va, PageNo(va), RoundPg(size + paddr % 4096) / 4096, TruncPg(paddr), prot, true)
  }

  /** An address inside one root region and its page number determine each other. */
  lemma PageNoOfAddress(layout: Layout, a: nat)
    requires layout.Sound() && layout.Rooted(a)
    ensures a == PageNo(a) * 4096 + a % 4096 + (if a < layout.userEnd then 0 else TWO_64 - 0x80_0000_0000)
  {
    var p := a / 4096;
    assert a == p * 4096 + a % 4096;
    if a < layout.userEnd {
      assert p < 0x800_0000;
    } else {
      assert 0xF_FFFF_F800_0000 <= p < 0x10_0000_0000_0000;
      assert p == 0x1FF_FFFF * 0x800_0000 + (p - 0xF_FFFF_F800_0000);
    }
  }

  /** Pages of [va, va + bytes) avoid the recursive entries. */
  ghost predicate SpanPlain(layout: Layout, va: nat, bytes: nat) {
    var high := va >= layout.userEnd;
    forall n :: PageNo(va) <= n < PageNo(va) + bytes / 4096 ==> layout.Plain(high, n)
  }

  lemma SpanAddressesPlain(layout: Layout, va: nat, bytes: nat)
    requires layout.Sound() && va % 4096 == 0 && bytes % 4096 == 0
    requires SpanPlain(layout, va, bytes) && !RangeCrash(layout, va, bytes)
    ensures forall a :: va <= a < va + bytes ==> PlainAddress(layout, a)
  {
    PageNoOfAddress(layout, va);
    forall a | va <= a < va + bytes
      ensures PlainAddress(layout, a)
    {
      PageNoOfAddress(layout, a);
    }
  }

  /** The arguments of aarch64_map; vaddr is None for ~0, which takes the next free address. */
  datatype MapCall = MapCall(vaddr: Option<nat>, paddr: nat, size: nat, prot: Prot) {
    function Bytes(): nat {
      RoundPg(size + paddr % 4096)
    }

    /** The page-aligned virtual address the call starts at. */
    function Start(freeVaddr: nat): nat {
      if vaddr.None? then freeVaddr else TruncPg(vaddr.value)
    }
  }

  datatype MapState = MapState(tables: Tables, freeVaddr: nat)

  lemma SpanIsJob(layout: Layout, va: nat, pa: nat, size: nat, prot: Prot)
    requires SpanPlain(layout, va, RoundPg(size + pa % 4096))
    ensures JobOf(layout, va, pa, size, prot).Plain(layout)
  {
  }

  /** One call of aarch64_map that comes back. */
  ghost predicate MapStep(layout: Layout, s: MapState, c: MapCall, s': MapState) {
    var va := c.Start(s.freeVaddr);
    && va % 4096 == 0 && !RangeCrash(layout, va, c.Bytes()) && SpanPlain(layout, va, c.Bytes())
    && Translated(layout, s'.tables, va, c.Bytes(), TruncPg(c.paddr), c.prot)
    && OthersKept(layout, s.tables, s'.tables, va, c.Bytes())
    && s'.freeVaddr == s.freeVaddr + (if c.vaddr.None? then c.Bytes() else 0)
  }

  lemma StepMade(layout: Layout, s: MapState, c: MapCall, s': MapState, va: nat, bytes: nat)
    requires va == c.Start(s.freeVaddr) && bytes == c.Bytes() && va % 4096 == 0
    requires !RangeCrash(layout, va, bytes) && SpanPlain(layout, va, bytes)
    requires Translated(layout, s'.tables, va, bytes, TruncPg(c.paddr), c.prot)
    requires OthersKept(layout, s.tables, s'.tables, va, bytes)
    requires s'.freeVaddr == s.freeVaddr + (if c.vaddr.None? then bytes else 0)
    ensures MapStep(layout, s, c, s')
  {
  }

  ghost predicate MapRun(layout: Layout, states: seq<MapState>, calls: seq<MapCall>) {
    && |states| == |calls| + 1
    && forall i :: 0 <= i < |calls| ==> MapStep(layout, states[i], calls[i], states[i + 1])
  }

  /** Two automatic mappings of a run never overlap: the later one starts behind the earlier one. */
  lemma {:induction false} AutoNeverOverlaps(layout: Layout, states: seq<MapState>, calls: seq<MapCall>, i: nat, j: nat)
    requires MapRun(layout, states, calls) && i < j <= |calls| && calls[i].vaddr.None?
    ensures calls[i].Start(states[i].freeVaddr) + calls[i].Bytes() <= states[j].freeVaddr
    decreases j
  {
    assert MapStep(layout, states[j - 1], calls[j - 1], states[j]);
    if i < j - 1 {
      AutoNeverOverlaps(layout, states, calls, i, j - 1);
    }
  }

  /** The ranges of calls i and k share no address. */
  predicate Apart(states: seq<MapState>, calls: seq<MapCall>, i: nat, k: nat)
    requires i < |calls| <= |states| && k < |calls|
  {
    var a, b := calls[i].Start(states[i].freeVaddr), calls[k].Start(states[k].freeVaddr);
    a + calls[i].Bytes() <= b || b + calls[k].Bytes() <= a
  }

  /** A call keeps an earlier automatic mapping that lies apart from it. */
  lemma StepKeeps(layout: Layout, va: nat, c: MapCall, s: MapState, c': MapCall, s': MapState)
    requires layout.Sound() && MapStep(layout, s, c', s') && va % 4096 == 0
    requires SpanPlain(layout, va, c.Bytes()) && !RangeCrash(layout, va, c.Bytes())
    requires Translated(layout, s.tables, va, c.Bytes(), TruncPg(c.paddr), c.prot)
    requires va + c.Bytes() <= c'.Start(s.freeVaddr) || c'.Start(s.freeVaddr) + c'.Bytes() <= va
    ensures Translated(layout, s'.tables, va, c.Bytes(), TruncPg(c.paddr), c.prot)
  {
    SpanAddressesPlain(layout, va, c.Bytes());
    forall a | va <= a < va + c.Bytes()
      ensures Walk(layout, s'.tables, a) == At(TruncPg(c.paddr) + (a - va), c.prot)
    {
      assert Walk(layout, s'.tables, a) == Walk(layout, s.tables, a);
    }
  }

  /** An automatic mapping lasts for as long as no call that names its own address hits it. */
  lemma {:induction false} AutoStays(layout: Layout, states: seq<MapState>, calls: seq<MapCall>, i: nat, j: nat)
    requires layout.Sound() && MapRun(layout, states, calls) && i < j <= |calls| && calls[i].vaddr.None?
    requires forall k :: i < k < j && calls[k].vaddr.Some? ==> Apart(states, calls, i, k)
    ensures Translated(layout, states[j].tables, calls[i].Start(states[i].freeVaddr), calls[i].Bytes(), TruncPg(calls[i].paddr), calls[i].prot)
    decreases j
  {
    assert MapStep(layout, states[i], calls[i], states[i + 1]);
    if i < j - 1 {
      AutoStays(layout, states, calls, i, j - 1);
      if calls[j - 1].vaddr.None? {
        AutoNeverOverlaps(layout, states, calls, i, j - 1);
      }
      StepKeeps(layout, states[i].freeVaddr, calls[i], states[j - 1], calls[j - 1], states[j]);
    }
  }

  lemma JobFits(layout: Layout, va: nat, pages: nat)
    requires layout.Sound() && va % 4096 == 0 && !RangeCrash(layout, va, pages * 4096)
    ensures layout.Rooted(va) && PageNo(va) + pages <= 0x800_0000
  {
    PageNoOfAddress(layout, va);
  }

  lemma JobSound(layout: Layout, va: nat, paddr: nat, size: nat, prot: Prot)
    requires layout.Sound() && va % 4096 == 0
    requires !RangeCrash(layout, va, RoundPg(size + paddr % 4096))
    requires TruncPg(paddr) + RoundPg(size + paddr % 4096) <= PADDR_LIMIT
    ensures var job := JobOf(layout, va, paddr, size, prot);
      job.Sound() && job.End() == va + RoundPg(size + paddr % 4096) && layout.Rooted(va)
  {
    var pages := RoundPg(size + paddr % 4096) / 4096;
    JobFits(layout, va, pages);
  }

  /** Once all pages of the job are mapped its addresses translate, and all others as before. */
  lemma JobTranslates(layout: Layout, t0: Tables, owner0: map<nat, Path>, t: Tables, owner: map<nat, Path>, job: Job)
    requires layout.Sound() && Tree(layout, t0, owner0) && Tree(layout, t, owner)
    requires job.Sound() && job.Plain(layout) && layout.Rooted(job.va) && job.high == (job.va >= layout.userEnd)
    requires if job.high then job.End() < TWO_64 else job.End() < layout.userEnd
    requires MappedUpTo(layout, t0, t, job, job.first + job.pages)
    ensures Translated(layout, t, job.va, job.pages * 4096, job.base, job.prot)
    ensures OthersKept(layout, t0, t, job.va, job.pages * 4096)
  {
    PageNoOfAddress(layout, job.va);
    forall a | job.va <= a < job.End()
      ensures Walk(layout, t, a) == At(job.base + (a - job.va), job.prot)
    {
      PageNoOfAddress(layout, a);
      IndexOfPage(a);
      assert job.first <= PageNo(a) < job.first + job.pages;
      assert layout.Plain(job.high, PageNo(a));
      WalkIsLeaf(layout, t, owner, a);
    }
    forall a: nat | PlainAddress(layout, a) && !(job.va <= a < job.End())
      ensures Walk(layout, t, a) == Walk(layout, t0, a)
    {
      PageNoOfAddress(layout, a);
      IndexOfPage(a);
      WalkIsLeaf(layout, t, owner, a);
      WalkIsLeaf(layout, t0, owner0, a);
    }
  }

  predicate IsContig(d: Desc) {
    d.PageDesc? && d.contig
  }

  /** The 16 pages from g on are contiguous descriptors with consecutive outputs from an aligned address. */
  ghost predicate WholeGroup(t: Tables, h: bool, g: nat) {
    var d := LeafAt(t, h, g);
    && d.PageDesc? && d.addr % 65536 == 0
    && forall m :: g <= m < g + 16 ==> LeafAt(t, h, m) == PageDesc(d.addr + (m - g) * 4096, true, d.prot)
  }

  /** The contiguous fast path refines the page-at-a-time loops: running the job with bursts and
  running it without them translates every address to the same physical address with the same permissions. */
  lemma BurstsRefineSinglePages(layout: Layout, t0: Tables, job: Job, t: Tables, owner: map<nat, Path>, t1: Tables, owner1: map<nat, Path>)
    requires layout.Sound() && Tree(layout, t, owner) && Tree(layout, t1, owner1) && job.Sound()
    requires MappedUpTo(layout, t0, t, job, job.first + job.pages)
    requires MappedUpTo(layout, t0, t1, job.(bursts := false), job.first + job.pages)
    ensures forall a: nat :: PlainAddress(layout, a) ==> Walk(layout, t, a) == Walk(layout, t1, a)
    ensures forall h, n :: 0 <= n < ROOT_PAGES && layout.Plain(h, n) && job.Covers(h, n) ==> !IsContig(LeafAt(t1, h, n))
  {
    forall a: nat | PlainAddress(layout, a)
      ensures Walk(layout, t, a) == Walk(layout, t1, a)
    {
      IndexOfPage(a);
      WalkIsLeaf(layout, t, owner, a);
      WalkIsLeaf(layout, t1, owner1, a);
    }
  }

  /** A contiguous descriptor of page n belongs to a whole aligned group. */
  ghost predicate GroupSound(layout: Layout, t: Tables, h: bool, n: nat) {
    n < ROOT_PAGES && layout.Plain(h, n) && IsContig(LeafAt(t, h, n)) ==> WholeGroup(t, h, n - n % 16)
  }

  ghost predicate ContigSound(layout: Layout, t: Tables) {
    forall h, n: nat :: GroupSound(layout, t, h, n)
  }

  /** No page of the job is mapped in t. */
  ghost predicate JobUnmapped(t: Tables, job: Job) {
    forall n :: job.first <= n < job.first + job.pages ==> !LeafAt(t, job.high, n).PageDesc?
  }

  lemma SameTable(n: nat, m: nat)
    requires n - n % 16 <= m < n - n % 16 + 16
    ensures m / 512 == n / 512
  {
    var g := n / 16;
    DivModUnique(m, 16, g, m - g * 16);
    DivModUnique(m, 512, g / 32, g % 32 * 16 + m % 16);
    DivModUnique(n, 512, g / 32, g % 32 * 16 + n % 16);
  }

  lemma DirOfTable(n: nat)
    ensures n / 0x4_0000 == n / 512 / 512
  {
    var d, r := n / 512, n % 512;
    DivModUnique(n, 0x4_0000, d / 512, d % 512 * 512 + r);
  }

  lemma GroupPlain(layout: Layout, h: bool, n: nat, m: nat)
    requires n < ROOT_PAGES && layout.Plain(h, n) && n - n % 16 <= m < n - n % 16 + 16
    ensures m < ROOT_PAGES && layout.Plain(h, m)
  {
    SameTable(n, m);
    DirOfTable(n);
    DirOfTable(m);
  }

  lemma ContigKeptInside(layout: Layout, t0: Tables, t: Tables, job: Job, n: nat)
    requires layout.Sound() && job.Sound() && job.Plain(layout) && MappedUpTo(layout, t0, t, job, job.first + job.pages)
    requires job.first <= n < job.first + job.pages && job.InBurst(n)
    ensures WholeGroup(t, job.high, n - n % 16)
  {
    ContigGroups(job, n);
    var g := n - n % 16;
    forall m | g <= m < g + 16
      ensures LeafAt(t, job.high, m) == job.DescAt(m)
    {
      assert layout.Plain(job.high, m);
    }
  }

  lemma ContigKeptOutside(layout: Layout, t0: Tables, t: Tables, job: Job, h: bool, n: nat)
    requires layout.Sound() && job.Sound() && MappedUpTo(layout, t0, t, job, job.first + job.pages)
    requires JobUnmapped(t0, job) && n < ROOT_PAGES && layout.Plain(h, n)
    requires WholeGroup(t0, h, n - n % 16)
    ensures WholeGroup(t, h, n - n % 16)
  {
    forall m | n - n % 16 <= m < n - n % 16 + 16
      ensures LeafAt(t, h, m) == LeafAt(t0, h, m)
    {
      GroupPlain(layout, h, n, m);
      assert LeafAt(t0, h, m).PageDesc?;
    }
  }

  lemma ContigKeptAt(layout: Layout, t0: Tables, t: Tables, job: Job, h: bool, n: nat)
    requires layout.Sound() && job.Sound() && job.Plain(layout) && MappedUpTo(layout, t0, t, job, job.first + job.pages)
    requires ContigSound(layout, t0) && JobUnmapped(t0, job)
    ensures GroupSound(layout, t, h, n)
  {
    if n < ROOT_PAGES && layout.Plain(h, n) && IsContig(LeafAt(t, h, n)) {
      if job.Covers(h, n) {
        ContigKeptInside(layout, t0, t, job, n);
      } else {
        assert GroupSound(layout, t0, h, n);
        ContigKeptOutside(layout, t0, t, job, h, n);
      }
    }
  }

  /** Mapping pages that were unmapped keeps every contiguous group whole. */
  lemma ContigKept(layout: Layout, t0: Tables, t: Tables, job: Job)
    requires layout.Sound() && job.Sound() && job.Plain(layout) && MappedUpTo(layout, t0, t, job, job.first + job.pages)
    requires ContigSound(layout, t0) && JobUnmapped(t0, job)
    ensures ContigSound(layout, t)
  {
    forall h, n: nat
      ensures GroupSound(layout, t, h, n)
    {
      ContigKeptAt(layout, t0, t, job, h, n);
    }
  }

  /** What a call works on: the tables, the free list and the memory that also holds the tables. */
  datatype Machine = Machine(tables: Tables, free: seq<Block>, mem: seq<byte>)

  /** Address x lies in the page of a table. */
  predicate InTables(t: Tables, x: nat) {
    TruncPg(x) in t.mem
  }

  /** A byte that neither the allocator nor the tables may touch. */
  ghost predicate Untouchable(m: Machine, x: nat) {
    !Covers(m.free, x) && !InTables(m.tables, x)
  }

  /** Between two points of a run memory was only taken: the free set shrank, tables were only added
  and in pages that were free, and no byte changed that was neither free nor in a table. */
  ghost predicate Grew(m: Machine, m': Machine) {
    && (forall x: nat :: Covers(m'.free, x) ==> Covers(m.free, x))
    && (forall x: nat :: InTables(m.tables, x) ==> InTables(m'.tables, x))
    && (forall x: nat :: InTables(m'.tables, x) ==> InTables(m.tables, x) || Covers(m.free, x))
    && |m'.mem| == |m.mem|
    && forall x: nat :: x < |m.mem| && Untouchable(m, x) ==> m'.mem[x] == m.mem[x]
  }

  lemma GrewTrans(m: Machine, m': Machine, m'': Machine)
    requires Grew(m, m') && Grew(m', m'')
    ensures Grew(m, m'')
  {
    forall x: nat | x < |m.mem| && Untouchable(m, x)
      ensures m''.mem[x] == m.mem[x]
    {
      assert Untouchable(m', x);
    }
  }

  /** What taking memory does while the tables stay. */
  lemma TookGrew(s: RamState, s': RamState, t: Tables, mem: seq<byte>, mem': seq<byte>)
    requires OnlyTook(s, s', mem, mem')
    ensures Grew(Machine(t, s.free, mem), Machine(t, s'.free, mem'))
  {
  }

  /** How set_pte makes the bytes of a descriptor, and how a walk reads them. */
  datatype Coding = Coding(encode: Desc -> seq<byte>, decode: seq<byte> -> Desc)

  /** The address field of a descriptor has bits 12 to 47. */
  predicate Fits(d: Desc) {
    match d
    case Zero => true
    case PageDesc(addr, _, _) => addr % 4096 == 0 && addr < PADDR_LIMIT
    case BlockDesc(addr, _) => addr % 0x20_0000 == 0 && addr < PADDR_LIMIT
  }

  /** Every descriptor has eight bytes, the empty one is all zero, and those whose address fits can be
  told from their bytes. */
  ghost predicate Encodes(bits: Coding) {
    && (forall d :: |bits.encode(d)| == 8) && (forall i :: 0 <= i < 8 ==> bits.encode(Zero)[i] == 0)
    && forall d :: Fits(d) ==> bits.decode(bits.encode(d)) == d
  }

  /** Descriptor d stands at address at. */
  ghost predicate Stored(bits: Coding, mem: seq<byte>, at: nat, d: Desc) {
    at + 8 <= |mem| && mem[at..at + 8] == bits.encode(d)
  }

  ghost predicate TableStored(bits: Coding, mem: seq<byte>, a: nat, table: seq<Desc>) {
    |table| == ENTRIES && forall k :: 0 <= k < ENTRIES ==> Stored(bits, mem, a + 8 * k, table[k])
  }

  ghost predicate AllFit(table: seq<Desc>) {
    forall k :: 0 <= k < |table| ==> Fits(table[k])
  }

  /** Memory holds the tables, in pages that are not free. */
  ghost predicate Backed(bits: Coding, m: Machine) {
    forall a :: a in m.tables.mem ==>
      && a % 4096 == 0 && a + 4096 <= PADDR_LIMIT
      && Reserved(m.free, a, 4096)
      && TableStored(bits, m.mem, a, m.tables.mem[a]) && AllFit(m.tables.mem[a])
  }

  lemma TableStays(bits: Coding, mem: seq<byte>, mem': seq<byte>, a: nat, table: seq<Desc>)
    requires TableStored(bits, mem, a, table) && |mem'| == |mem|
    requires forall x :: a <= x < a + 4096 && x < |mem| ==> mem'[x] == mem[x]
    ensures TableStored(bits, mem', a, table)
  {
    forall k | 0 <= k < ENTRIES
      ensures Stored(bits, mem', a + 8 * k, table[k])
    {
      assert Stored(bits, mem, a + 8 * k, table[k]);
    }
  }

  /** Taking memory leaves the tables in place. */
  lemma BackedStays(bits: Coding, t: Tables, s: RamState, s': RamState, mem: seq<byte>, mem': seq<byte>)
    requires Backed(bits, Machine(t, s.free, mem)) && OnlyTook(s, s', mem, mem')
    ensures Backed(bits, Machine(t, s'.free, mem'))
  {
    forall a | a in t.mem
      ensures Reserved(s'.free, a, 4096) && TableStored(bits, mem', a, t.mem[a])
    {
      assert Reserved(s.free, a, 4096);
      TableStays(bits, mem, mem', a, t.mem[a]);
    }
  }

  lemma ZerosStored(bits: Coding, mem: seq<byte>, a: nat)
    requires Encodes(bits) && a + 4096 <= |mem| && forall x :: a <= x < a + 4096 ==> mem[x] == 0
    ensures TableStored(bits, mem, a, seq(ENTRIES, _ => Zero))
  {
    forall k | 0 <= k < ENTRIES
      ensures Stored(bits, mem, a + 8 * k, Zero)
    {
      assert mem[a + 8 * k..a + 8 * k + 8] == bits.encode(Zero);
    }
  }

  /** Writing one descriptor. */
  lemma EntryStored(bits: Coding, mem: seq<byte>, mem': seq<byte>, a: nat, table: seq<Desc>, idx: nat, d: Desc)
    requires Encodes(bits) && TableStored(bits, mem, a, table) && idx < ENTRIES && a + 4096 <= |mem| == |mem'|
    requires forall i :: 0 <= i < 8 ==> mem'[a + 8 * idx + i] == bits.encode(d)[i]
    requires forall x :: 0 <= x < |mem| && !(a + 8 * idx <= x < a + 8 * idx + 8) ==> mem'[x] == mem[x]
    ensures TableStored(bits, mem', a, table[idx := d])
  {
    forall k | 0 <= k < ENTRIES
      ensures Stored(bits, mem', a + 8 * k, table[idx := d][k])
    {
      assert Stored(bits, mem, a + 8 * k, table[k]);
      if k == idx {
        assert mem'[a + 8 * k..a + 8 * k + 8] == bits.encode(d);
      } else {
        assert mem'[a + 8 * k..a + 8 * k + 8] == mem[a + 8 * k..a + 8 * k + 8];
      }
    }
  }

  /** One read of a walk. */
  function EntryIn(bits: Coding, mem: seq<byte>, table: nat, idx: nat): Desc {
    var at := table + 8 * idx;
    if at + 8 <= |mem| then bits.decode(mem[at..at + 8]) else Zero
  }

  /** elf_vaddr_to_paddr on the bytes of memory, with the tables at low and high as roots. */
  function WalkIn(layout: Layout, bits: Coding, mem: seq<byte>, low: nat, high: nat, va: nat): Walked {
    if !layout.Rooted(va) then BadAddress
    else
      var d1 := EntryIn(bits, mem, if va >= layout.userEnd then high else low, L1Idx(va));
      match d1
      case Zero => Unmapped
      case BlockDesc(addr, prot) => At(addr + va % 0x4000_0000, prot)
      case PageDesc(t2, _, _) =>
        var d2 := EntryIn(bits, mem, t2, L2Idx(va));
        match d2
        case Zero => Unmapped
        case BlockDesc(addr, prot) => At(addr + va % 0x20_0000, prot)
        case PageDesc(t3, _, _) =>
          var d3 := EntryIn(bits, mem, t3, L3Idx(va));
          if d3.PageDesc? then At(d3.addr + va % 4096, d3.prot) else Unmapped
  }

  /** A read of a stored table gives the entry. */
  lemma EntryRead(bits: Coding, m: Machine, a: nat, idx: nat)
    requires Encodes(bits) && Backed(bits, m) && a in m.tables.mem && idx < ENTRIES
    ensures EntryIn(bits, m.mem, a, idx) == m.tables.Entry(a, idx)
  {
    assert Stored(bits, m.mem, a + 8 * idx, m.tables.mem[a][idx]);
  }

  /** The walk through memory gives what the tables say, block descriptors included, if each table on
  its way is there. */
  lemma WalkInAgrees(layout: Layout, bits: Coding, m: Machine, va: nat)
    requires Encodes(bits) && Backed(bits, m) && m.tables.Root(va >= layout.userEnd) in m.tables.mem
    requires var d1 := m.tables.Entry(m.tables.Root(va >= layout.userEnd), L1Idx(va));
      d1.PageDesc? ==>
        && d1.addr in m.tables.mem
        && var d2 := m.tables.Entry(d1.addr, L2Idx(va)); d2.PageDesc? ==> d2.addr in m.tables.mem
    ensures WalkIn(layout, bits, m.mem, m.tables.low, m.tables.high, va) == Walk(layout, m.tables, va)
  {
    var root := m.tables.Root(va >= layout.userEnd);
    EntryRead(bits, m, root, L1Idx(va));
    var d1 := m.tables.Entry(root, L1Idx(va));
    if d1.PageDesc? {
      EntryRead(bits, m, d1.addr, L2Idx(va));
      var d2 := m.tables.Entry(d1.addr, L2Idx(va));
      if d2.PageDesc? {
        EntryRead(bits, m, d2.addr, L3Idx(va));
      }
    }
  }

  /** Walking a plain address through memory gives what the tables say. */
  lemma WalkReadsTables(layout: Layout, bits: Coding, m: Machine, owner: map<nat, Path>, va: nat)
    requires layout.Sound() && Encodes(bits) && Backed(bits, m) && Tree(layout, m.tables, owner) && layout.Rooted(va)
    requires layout.Plain(va >= layout.userEnd, PageNo(va))
    ensures WalkIn(layout, bits, m.mem, m.tables.low, m.tables.high, va) == Walk(layout, m.tables, va)
  {
    var t, high := m.tables, va >= layout.userEnd;
    IndexOfPage(va);
    var root := t.Root(high);
    assert owner[root] == Top(high);
    var d1 := t.Entry(root, L1Idx(va));
    if d1 != Zero {
      PathOwner(layout, t, owner, root, L1Idx(va));
      var d2 := t.Entry(d1.addr, L2Idx(va));
      if d2 != Zero {
        PathOwner(layout, t, owner, d1.addr, L2Idx(va));
      }
    }
    WalkInAgrees(layout, bits, m, va);
  }

  lemma PagesApart(a: nat, b: nat)
    requires a % 4096 == 0 && b % 4096 == 0 && a != b
    ensures a + 4096 <= b || b + 4096 <= a
  {
  }

  lemma InPage(a: nat, x: nat)
    requires a % 4096 == 0 && a <= x < a + 4096
    ensures TruncPg(x) == a
  {
  }

  /** A store into one table keeps the others, which lie in other pages. */
  lemma StoreBacked(bits: Coding, m: Machine, mem': seq<byte>, a: nat, idx: nat, d: Desc)
    requires Encodes(bits) && Backed(bits, m) && a in m.tables.mem && idx < ENTRIES && |mem'| == |m.mem|
    requires a + 4096 <= |m.mem| && Fits(d)
    requires forall i :: 0 <= i < 8 ==> mem'[a + 8 * idx + i] == bits.encode(d)[i]
    requires forall x :: 0 <= x < |m.mem| && !(a + 8 * idx <= x < a + 8 * idx + 8) ==> mem'[x] == m.mem[x]
    ensures var m' := Machine(Store(m.tables, a, idx, d), m.free, mem'); Backed(bits, m') && Grew(m, m')
  {
    var m' := Machine(Store(m.tables, a, idx, d), m.free, mem');
    forall b | b in m'.tables.mem
      ensures TableStored(bits, mem', b, m'.tables.mem[b])
    {
      if b == a {
        EntryStored(bits, m.mem, mem', a, m.tables.mem[a], idx, d);
      } else {
        PagesApart(a, b);
        TableStays(bits, m.mem, mem', b, m.tables.mem[b]);
      }
    }
    forall x: nat | x < |m.mem| && Untouchable(m, x)
      ensures mem'[x] == m.mem[x]
    {
      if a <= x < a + 4096 {
        InPage(a, x);
      }
    }
  }

  /** A page taken from the free list becomes an empty table. */
  lemma NewBacked(bits: Coding, t: Tables, s: RamState, s': RamState, mem: seq<byte>, mem': seq<byte>, pa: nat)
    requires Encodes(bits) && Backed(bits, Machine(t, s.free, mem)) && OnlyTook(s, s', mem, mem')
    requires pa % 4096 == 0 && pa + 4096 <= PADDR_LIMIT == |mem| && Reserved(s'.free, pa, 4096)
    requires forall x: nat :: pa <= x < pa + 4096 ==> Covers(s.free, x)
    requires forall x :: pa <= x < pa + 4096 ==> mem'[x] == 0
    ensures pa !in t.mem
    ensures Backed(bits, Machine(NewTable(t, pa), s'.free, mem'))
    ensures Grew(Machine(t, s.free, mem), Machine(NewTable(t, pa), s'.free, mem'))
  {
    assert Covers(s.free, pa);
    BackedStays(bits, t, s, s', mem, mem');
    ZerosStored(bits, mem', pa);
    forall x: nat | InTables(NewTable(t, pa), x)
      ensures InTables(t, x) || Covers(s.free, x)
    {
      assert TruncPg(x) <= x < TruncPg(x) + 4096;
    }
  }

  /** Choosing the roots changes nothing in memory. */
  lemma SetRoots(bits: Coding, m0: Machine, m: Machine, low: nat, high: nat)
    requires Backed(bits, m) && Grew(m0, m)
    ensures var m' := Machine(m.tables.(low := low, high := high), m.free, m.mem); Backed(bits, m') && Grew(m0, m')
  {
  }

  const TABLE_PROT := Prot(true, false, false, false, false)

  function EmptyTables(): Tables {
    Tables(map[], 0, 0)
  }

  /** The two roots, the second with its recursive entry. */
  function InitialRoots(layout: Layout, ttbr0: nat, l1: nat): Tables
    requires layout.Sound()
  {
    Store(NewTable(NewTable(EmptyTables(), ttbr0), l1), l1, layout.l1Self, PageDesc(l1, false, TABLE_PROT))
  }

  /** The tables aarch64_map_init makes, before they become the roots. */
  function InitTables(layout: Layout, ttbr0: nat, l1: nat, l2: nat): Tables
    requires layout.Sound() && l1 != l2
  {
    var own := Store(NewTable(InitialRoots(layout, ttbr0, l1), l2), l1, layout.l1Sys, PageDesc(l2, false, TABLE_PROT));
    Store(own, l2, layout.l2Self, PageDesc(l1, false, TABLE_PROT))
  }

  /** The upper root and the level 2 table for startup's own mappings lead back to the root, where
  tables are looked up as if they were of the next level. */
  predicate Recursive(layout: Layout, t: Tables) {
    var self, sys := t.Entry(t.high, layout.l1Self), t.Entry(t.high, layout.l1Sys);
    && Pointer(self) && self.addr == t.high
    && Pointer(sys) && sys.addr != t.high && sys.addr != t.low
    && var back := t.Entry(sys.addr, layout.l2Self); Pointer(back) && back.addr == t.high
  }

  ghost predicate NothingMapped(layout: Layout, t: Tables) {
    forall h, n :: 0 <= n < ROOT_PAGES && layout.Plain(h, n) ==> LeafAt(t, h, n) == Zero
  }

  lemma InitTablesTree(layout: Layout, ttbr0: nat, l1: nat, l2: nat)
    requires layout.Sound() && ttbr0 != l1 && ttbr0 != l2 && l1 != l2
    ensures var t := InitTables(layout, ttbr0, l1, l2).(low := ttbr0, high := l1);
      && Tree(layout, t, map[ttbr0 := Top(false), l1 := Top(true), l2 := Dir(true, layout.l1Sys)])
      && Recursive(layout, t) && NothingMapped(layout, t)
  {
    var t := InitTables(layout, ttbr0, l1, l2).(low := ttbr0, high := l1);
    assert forall k :: t.Entry(ttbr0, k) == Zero;
    assert forall k :: k != layout.l1Self && k != layout.l1Sys ==> t.Entry(l1, k) == Zero;
    assert forall k :: k != layout.l2Self ==> t.Entry(l2, k) == Zero;
    forall h, n | 0 <= n < ROOT_PAGES && layout.Plain(h, n)
      ensures LeafAt(t, h, n) == Zero
    {
      Digits(n);
    }
  }

  /** Hanging a table changes one entry. */
  lemma HangEntries(t: Tables, parent: nat, idx: nat, table: nat, d: Desc)
    requires parent in t.mem && idx < |t.mem[parent]| && table !in t.mem
    ensures var t' := Store(NewTable(t, table), parent, idx, d);
      && t'.Entry(parent, idx) == d
      && forall a, k :: a in t.mem && 0 <= k < ENTRIES && !(a == parent && k == idx) ==> t'.Entry(a, k) == t.Entry(a, k)
  {
  }

  lemma NextFree(va: nat, bytes: nat)
    requires va % 4096 == 0 && bytes % 4096 == 0
    ensures (va + bytes) % TWO_64 % 4096 == 0
  {
    var p, q := va / 4096 + bytes / 4096, (va + bytes) / TWO_64;
    assert va + bytes == p * 4096;
    var r := (va + bytes) % TWO_64;
    assert va + bytes == q * TWO_64 + r;
    assert r == (p - q * 0x10_0000_0000_0000) * 4096;
  }

  lemma PageStart(va: nat)
    ensures va == TruncPg(va) + va % 4096
  {
  }

  /** Where the loops stand, the frame is a page below the limit or its end. */
  lemma FrameOfStand(job: Job, n: nat, va: nat, pa: nat)
    requires job.Sound() && job.Stands(n, va, pa)
    ensures pa % 4096 == 0 && pa <= PADDR_LIMIT
  {
  }

  lemma NextFrame(pa: nat, c: nat)
    requires pa % 4096 == 0
    ensures (pa + c * 4096) % 4096 == 0
  {
  }

  lemma OnlyLeafTrans(t: Tables, t': Tables, t'': Tables, leaf: nat)
    requires OnlyLeaf(t, t', leaf) && OnlyLeaf(t', t'', leaf)
    ensures OnlyLeaf(t, t'', leaf)
  {
  }

  class PageTables {
    const ram: RamAllocator
    const layout: Layout

    /** set_pte, and how the bytes it makes are read. */
    const bits: Coding

    var tables: Tables
    var freeVaddr: nat

    /** Where each table hangs. */
    ghost var owner: map<nat, Path>

    constructor (ram: RamAllocator, layout: Layout, bits: Coding)
      ensures this.ram == ram && this.layout == layout && this.bits == bits && tables == EmptyTables()
    {
      this.ram, this.layout, this.bits := ram, layout, bits;
      tables, freeVaddr, owner := EmptyTables(), 0, map[];
    }

    ghost function State(): Machine
      reads this, ram, ram.mem
    {
      Machine(tables, ram.ramList, ram.mem[..])
    }

    ghost function Mapping(): MapState
      reads this
    {
      MapState(tables, freeVaddr)
    }

    /** The tables alone: they form a tree and stand in memory. */
    ghost predicate Standing()
      reads this, ram, ram.mem
    {
      && layout.Sound() && Encodes(bits) && ram.mem.Length == PADDR_LIMIT
      && Tree(layout, tables, owner)
      && Backed(bits, State())
    }

    ghost predicate Valid()
      reads this, ram, ram.asinfo, ram.mem
    {
      ram.Valid() && Standing() && freeVaddr % 4096 == 0 && freeVaddr < TWO_64
    }

    /** calloc_ram(__PAGESIZE, __PAGESIZE); ok is false when there is no page left. */
    method ZeroPage() returns (ok: bool, pa: nat)
      requires ram.Valid()
      modifies ram`ramList, ram.asinfo, ram.mem
      ensures !ok ==> ram.asinfo.Valid() && ram.Refuses(PAGE, PAGE)
      ensures ok ==> ram.Valid() && pa % 4096 == 0 && pa + 4096 <= PADDR_LIMIT
      ensures ok ==> Reserved(ram.ramList, pa, 4096)
      ensures ok ==> forall x: nat :: pa <= x < pa + 4096 ==> Covers(old(ram.ramList), x)
      ensures ok ==> forall x :: pa <= x < pa + 4096 ==> ram.mem[..][x] == 0
      ensures ok ==> OnlyTook(old(ram.State()), ram.State(), old(ram.mem[..]), ram.mem[..])
    {
      PageIsPowerOfTwo();
      var res;
      ok, res := ram.CallocRam(PAGE, PAGE);
      if !ok || res.None? {
        return false, 0;
      }
      pa := res.value;
    }

    /** pt_alloc: an empty table in a page that was free, so it is none of the tables so far. */
    method PtAlloc() returns (ok: bool, pa: nat)
      requires ram.Valid() && Encodes(bits) && Backed(bits, State())
      modifies this`tables, ram`ramList, ram.asinfo, ram.mem
      ensures !ok ==> ram.asinfo.Valid() && ram.Refuses(PAGE, PAGE)
      ensures ok ==> ram.Valid() && Backed(bits, State()) && Grew(old(State()), State())
      ensures ok ==> pa !in old(tables.mem) && tables == NewTable(old(tables), pa) && Fits(PageDesc(pa, false, TABLE_PROT))
    {
      ghost var t, s, mem := tables, ram.State(), ram.mem[..];
      ok, pa := ZeroPage();
      if ok {
        assert Covers(s.free, pa);
        tables := NewTable(tables, pa);
        NewBacked(bits, t, s, ram.State(), mem, ram.mem[..], pa);
      }
    }

    /** A 64-bit store into a table. */
    method StoreDesc(table: nat, idx: nat, d: Desc)
      requires Encodes(bits) && Backed(bits, State()) && ram.mem.Length == PADDR_LIMIT
      requires table in tables.mem && idx < ENTRIES && Fits(d)
      modifies this`tables, ram.mem
      ensures Backed(bits, State()) && Grew(old(State()), State())
      ensures tables == Store(old(tables), table, idx, d)
    {
      ghost var m := State();
      var at, code := table + 8 * idx, bits.encode(d);
      forall i | 0 <= i < 8 {
        ram.mem[at + i] := code[i];
      }
      tables := Store(tables, table, idx, d);
      StoreBacked(bits, m, ram.mem[..], table, idx, d);
    }

    /** The first half of aarch64_map_init: two empty roots and the recursive entry of the second. */
    method InitRoots() returns (ok: bool, ttbr0: nat, l1: nat)
      requires ram.Valid() && layout.Sound() && Encodes(bits) && tables == EmptyTables()
      modifies this`tables, ram`ramList, ram.asinfo, ram.mem
      ensures !ok ==> ram.asinfo.Valid() && ram.Refuses(PAGE, PAGE)
      ensures ok ==> ram.Valid() && Backed(bits, State()) && Grew(old(State()), State()) && ttbr0 != l1
      ensures ok ==> tables == InitialRoots(layout, ttbr0, l1)
    {
      l1 := 0;
      ghost var m0 := State();
      ok, ttbr0 := PtAlloc();
      if !ok {
        return;
      }
      ghost var m1 := State();
      ok, l1 := PtAlloc();
      if !ok {
        return;
      }
      ghost var m2 := State();
      StoreDesc(l1, layout.l1Self, PageDesc(l1, false, TABLE_PROT));
      GrewTrans(m0, m1, m2);
      GrewTrans(m0, m2, State());
    }

    /** The second half: the level 2 table for startup's own mappings. */
    method InitStartup(ttbr0: nat, l1: nat) returns (ok: bool, l2: nat)
      requires ram.Valid() && layout.Sound() && Encodes(bits) && Backed(bits, State())
      requires ttbr0 != l1 && tables == InitialRoots(layout, ttbr0, l1)
      modifies this`tables, ram`ramList, ram.asinfo, ram.mem
      ensures !ok ==> ram.asinfo.Valid() && ram.Refuses(PAGE, PAGE)
      ensures ok ==> ram.Valid() && Backed(bits, State()) && Grew(old(State()), State()) && ttbr0 != l2 && l1 != l2
      ensures ok ==> tables == InitTables(layout, ttbr0, l1, l2)
    {
      ghost var m0 := State();
      assert l1 in tables.mem;
      ok, l2 := PtAlloc();
      if !ok {
        return;
      }
      ghost var m1 := State();
      StoreDesc(l1, layout.l1Sys, PageDesc(l2, false, TABLE_PROT));
      ghost var m2 := State();
      StoreDesc(l2, layout.l2Self, PageDesc(l1, false, TABLE_PROT));
      GrewTrans(m0, m1, m2);
      GrewTrans(m0, m2, State());
    }

    /** All three tables. */
    method MakeTables() returns (ok: bool, ttbr0: nat, l1: nat, l2: nat)
      requires ram.Valid() && layout.Sound() && Encodes(bits) && tables == EmptyTables()
      modifies this`tables, ram`ramList, ram.asinfo, ram.mem
      ensures !ok ==> ram.asinfo.Valid() && ram.Refuses(PAGE, PAGE)
      ensures ok ==> ram.Valid() && Backed(bits, State()) && Grew(old(State()), State()) && ttbr0 != l1 && ttbr0 != l2 && l1 != l2
      ensures ok ==> tables == InitTables(layout, ttbr0, l1, l2)
    {
      l2 := 0;
      ghost var m0 := State();
      ok, ttbr0, l1 := InitRoots();
      if !ok {
        return;
      }
      ghost var m1 := State();
      ok, l2 := InitStartup(ttbr0, l1);
      if ok {
        GrewTrans(m0, m1, State());
      }
    }

    /** aarch64_map_init up to the per-cpu L0 tables: two empty roots, a level 2 table for startup's
    own mappings, and the recursive entries. */
    method MapInit() returns (ok: bool)
      requires ram.Valid() && layout.Sound() && Encodes(bits) && tables == EmptyTables()
      modifies this, ram`ramList, ram.asinfo, ram.mem
      ensures !ok ==> ram.asinfo.Valid() && ram.Refuses(PAGE, PAGE)
      ensures ok ==> Valid() && freeVaddr == layout.startupBase
      ensures ok ==> Grew(old(State()), State())
      ensures ok ==> NothingMapped(layout, tables) && Recursive(layout, tables)
    {
      ghost var m0 := State();
      var ttbr0, l1, l2;
      ok, ttbr0, l1, l2 := MakeTables();
      if !ok {
        return;
      }
      InitTablesTree(layout, ttbr0, l1, l2);
      SetRoots(bits, m0, State(), ttbr0, l1);
      tables := tables.(low := ttbr0, high := l1);
      owner := map[ttbr0 := Top(false), l1 := Top(true), l2 := Dir(true, layout.l1Sys)];
      freeVaddr := layout.startupBase;
    }

    /** `table[idx] = pt_alloc()` in memory. */
    method StoreNewTable(parent: nat, idx: nat) returns (ok: bool, pa: nat)
      requires ram.Valid() && Encodes(bits) && Backed(bits, State()) && parent in tables.mem && idx < ENTRIES
      modifies this`tables, ram`ramList, ram.asinfo, ram.mem
      ensures !ok ==> ram.asinfo.Valid() && ram.Refuses(PAGE, PAGE)
      ensures ok ==> ram.Valid() && Backed(bits, State()) && Grew(old(State()), State()) && pa !in old(tables.mem)
      ensures ok ==> |old(tables).mem[parent]| == ENTRIES
      ensures ok ==> tables == Store(NewTable(old(tables), pa), parent, idx, PageDesc(pa, false, TABLE_PROT))
    {
      ghost var m0 := State();
      ok, pa := PtAlloc();
      if !ok {
        return;
      }
      ghost var m1 := State();
      StoreDesc(parent, idx, PageDesc(pa, false, TABLE_PROT));
      GrewTrans(m0, m1, State());
    }

    /** `table[idx] = pt_alloc()` for an empty entry. */
    method HangNewTable(parent: nat, idx: nat) returns (ok: bool)
      requires Valid() && parent in tables.mem && idx < ENTRIES && tables.mem[parent][idx] == Zero
      requires !owner[parent].Leaf? && !SelfSlot(layout, owner[parent], idx)
      modifies this`tables, this`owner, ram`ramList, ram.asinfo, ram.mem
      ensures !ok ==> ram.asinfo.Valid() && ram.Refuses(PAGE, PAGE)
      ensures ok ==> Valid() && Grew(old(State()), State())
      ensures ok ==> tables.low == old(tables.low) && tables.high == old(tables.high)
      ensures ok ==> forall h, n :: 0 <= n < ROOT_PAGES && layout.Plain(h, n) ==> LeafAt(tables, h, n) == LeafAt(old(tables), h, n)
      ensures ok ==> tables.Entry(parent, idx).PageDesc?
      ensures ok ==> forall a :: a in old(owner) ==> a in owner && owner[a] == old(owner)[a]
      ensures ok ==> forall a, k :: a in old(tables.mem) && 0 <= k < ENTRIES && !(a == parent && k == idx) ==> tables.Entry(a, k) == old(tables).Entry(a, k)
    {
      ghost var t := tables;
      var pa;
      ok, pa := StoreNewTable(parent, idx);
      if !ok {
        return;
      }
      HangTable(layout, t, owner, parent, idx, pa, TABLE_PROT);
      HangEntries(t, parent, idx, pa, PageDesc(pa, false, TABLE_PROT));
      owner := owner[pa := Child(owner[parent], idx)];
    }

    /** `if (table[idx] == 0) table[idx] = pt_alloc()`, then the table that hangs there. */
    method EnsureTable(parent: nat, idx: nat, ghost t0: Tables, ghost job: Job, ghost n: nat) returns (ok: bool, table: nat)
      requires Valid() && parent in tables.mem && idx < ENTRIES
      requires !owner[parent].Leaf? && !SelfSlot(layout, owner[parent], idx)
      requires MappedUpTo(layout, t0, tables, job, n)
      modifies this`tables, this`owner, ram`ramList, ram.asinfo, ram.mem
      ensures !ok ==> ram.asinfo.Valid() && ram.Refuses(PAGE, PAGE)
      ensures ok ==> Valid() && Grew(old(State()), State())
      ensures ok ==> tables.low == old(tables.low) && tables.high == old(tables.high)
      ensures ok ==> MappedUpTo(layout, t0, tables, job, n)
      ensures ok ==> parent in owner && owner[parent] == old(owner)[parent]
      ensures ok ==> table in owner && owner[table] == Child(owner[parent], idx)
      ensures ok ==> tables.Entry(parent, idx).PageDesc? && tables.Entry(parent, idx).addr == table
      ensures ok ==> forall a :: a in old(owner) ==> a in owner && owner[a] == old(owner)[a]
      ensures ok ==> forall a, k :: a in old(tables.mem) && 0 <= k < ENTRIES && !(a == parent && k == idx) ==> tables.Entry(a, k) == old(tables).Entry(a, k)
    {
      ok, table := true, 0;
      if tables.mem[parent][idx] == Zero {
        ok := HangNewTable(parent, idx);
        if !ok {
          return;
        }
      }
      PathOwner(layout, tables, owner, parent, idx);
      table := tables.mem[parent][idx].addr;
    }

    /** set_pte for one descriptor of a run. */
    method StoreOne(leaf: nat, l3: nat, pa: nat, contig: bool, prot: Prot,
                    ghost t0: Tables, ghost job: Job, ghost i: nat, ghost j: nat, ghost n: nat)
      requires Standing()
      requires Reaches(layout, tables, owner, job.high, i, j, leaf)
      requires l3 < ENTRIES && n == (i * 512 + j) * 512 + l3 && job.first <= n
      requires PageDesc(pa, contig, prot) == job.DescAt(n) && pa % 4096 == 0 && pa < PADDR_LIMIT
      requires MappedUpTo(layout, t0, tables, job, n)
      modifies this`tables, ram.mem
      ensures Standing() && Grew(old(State()), State()) && OnlyLeaf(old(tables), tables, leaf)
      ensures Reaches(layout, tables, owner, job.high, i, j, leaf)
      ensures MappedUpTo(layout, t0, tables, job, n + 1)
    {
      OneMore(layout, t0, tables, owner, job, i, j, leaf, l3, n);
      StoreDesc(leaf, l3, PageDesc(pa, contig, prot));
    }

    /** The inner for loop: count descriptors of the level 3 table from index l3 on. */
    method StoreRun(leaf: nat, l3: nat, pa: nat, contig: bool, prot: Prot, count: nat,
                    ghost t0: Tables, ghost job: Job, ghost i: nat, ghost j: nat, ghost n: nat)
      requires Standing()
      requires Reaches(layout, tables, owner, job.high, i, j, leaf)
      requires l3 + count <= ENTRIES && n == (i * 512 + j) * 512 + l3 && job.first <= n
      requires pa == job.base + (n - job.first) * 4096 && prot == job.prot
      requires pa % 4096 == 0 && pa + count * 4096 <= PADDR_LIMIT
      requires forall m :: n <= m < n + count ==> job.InBurst(m) == contig
      requires MappedUpTo(layout, t0, tables, job, n)
      modifies this`tables, ram.mem
      ensures Standing() && Grew(old(State()), State()) && OnlyLeaf(old(tables), tables, leaf)
      ensures Reaches(layout, tables, owner, job.high, i, j, leaf)
      ensures MappedUpTo(layout, t0, tables, job, n + count)
    {
      for c := 0 to count
        invariant Standing() && Grew(old(State()), State()) && OnlyLeaf(old(tables), tables, leaf)
        invariant Reaches(layout, tables, owner, job.high, i, j, leaf)
        invariant MappedUpTo(layout, t0, tables, job, n + c)
      {
        ghost var m, t := State(), tables;
        NextFrame(pa, c);
        StoreOne(leaf, l3 + c, pa + c * 4096, contig, prot, t0, job, i, j, n + c);
        GrewTrans(old(State()), m, State());
        OnlyLeafTrans(old(tables), t, tables, leaf);
      }
    }

    /** How many descriptors the next round stores, and with which contiguous bit. */
    method ChooseBurst(va: nat, pa: nat, end: nat, bursts: bool, ghost job: Job, ghost n: nat, ghost table: nat, ghost l: nat)
        returns (contig: bool, count: nat, ghost next: nat)
      requires job.Sound() && job.Stands(n, va, pa) && n < job.first + job.pages && end == job.End() && bursts == job.bursts
      requires n == table * 512 + l && l < 512 && AtBurstEdge(job, n)
      ensures 0 < count && l + count <= 512 && next == n + count
      ensures job.Stands(next, va + count * 4096, pa + count * 4096)
      ensures (forall m :: n <= m < next ==> job.InBurst(m) == contig) && AtBurstEdge(job, next)
    {
      BurstStep(job, n, va, pa, table, l);
      contig := bursts && UseContig(va, pa, end - va);
      count := if contig then CONTIG_PAGES else 1;
      next := n + count;
    }

    /** One turn of the innermost while loop: a burst of 16 descriptors or a single one. */
    method FillBurst(leaf: nat, l0: nat, va0: nat, pa0: nat, end: nat, prot: Prot, bursts: bool,
                     ghost t0: Tables, ghost job: Job, ghost i: nat, ghost j: nat, ghost n0: nat)
      returns (l: nat, va: nat, pa: nat, ghost n: nat)
      requires Standing() && Reaches(layout, tables, owner, job.high, i, j, leaf)
      requires job.Sound() && end == job.End() && prot == job.prot && bursts == job.bursts && job.Stands(n0, va0, pa0)
      requires l0 < ENTRIES && n0 == (i * 512 + j) * 512 + l0 && va0 < end && AtBurstEdge(job, n0)
      requires MappedUpTo(layout, t0, tables, job, n0)
      modifies this`tables, ram.mem
      ensures Standing() && Grew(old(State()), State()) && OnlyLeaf(old(tables), tables, leaf)
      ensures Reaches(layout, tables, owner, job.high, i, j, leaf)
      ensures n0 < n && job.Stands(n, va, pa) && MappedUpTo(layout, t0, tables, job, n)
      ensures l0 < l <= ENTRIES && n == (i * 512 + j) * 512 + l && AtBurstEdge(job, n)
    {
      var contig, count;
      contig, count, n := ChooseBurst(va0, pa0, end, bursts, job, n0, i * 512 + j, l0);
      FrameOfStand(job, n0, va0, pa0);
      FrameOfStand(job, n, va0 + count * 4096, pa0 + count * 4096);
      StoreRun(leaf, l0, pa0, contig, prot, count, t0, job, i, j, n0);
      l, va, pa := l0 + count, va0 + count * 4096, pa0 + count * 4096;
    }

    /** The innermost while loop: fill one level 3 table, in bursts of 16 where possible. */
    method FillLeaf(leaf: nat, l3: nat, va0: nat, pa0: nat, end: nat, prot: Prot, bursts: bool,
                    ghost t0: Tables, ghost job: Job, ghost i: nat, ghost j: nat, ghost n0: nat)
      returns (va: nat, pa: nat, ghost n: nat)
      requires Standing() && Reaches(layout, tables, owner, job.high, i, j, leaf)
      requires job.Sound() && end == job.End() && prot == job.prot && bursts == job.bursts && job.Stands(n0, va0, pa0)
      requires l3 < ENTRIES && n0 == (i * 512 + j) * 512 + l3
      requires AtBurstEdge(job, n0)
      requires MappedUpTo(layout, t0, tables, job, n0)
      modifies this`tables, ram.mem
      ensures Standing() && Grew(old(State()), State()) && OnlyLeaf(old(tables), tables, leaf)
      ensures n0 <= n && job.Stands(n, va, pa) && MappedUpTo(layout, t0, tables, job, n)
      ensures va >= end || n == (i * 512 + j + 1) * 512
    {
      va, pa, n := va0, pa0, n0;
      var l := l3;
      while l < ENTRIES && va < end
        invariant Standing() && Grew(old(State()), State()) && OnlyLeaf(old(tables), tables, leaf)
        invariant Reaches(layout, tables, owner, job.high, i, j, leaf)
        invariant n0 <= n && job.Stands(n, va, pa) && MappedUpTo(layout, t0, tables, job, n)
        invariant l <= ENTRIES && n == (i * 512 + j) * 512 + l && AtBurstEdge(job, n)
        decreases ENTRIES - l
      {
        ghost var m, t := State(), tables;
        l, va, pa, n := FillBurst(leaf, l, va, pa, end, prot, bursts, t0, job, i, j, n);
        GrewTrans(old(State()), m, State());
        OnlyLeafTrans(old(tables), t, tables, leaf);
      }
    }

    /** It leaves the level 2 table where it hangs. */
    method FillHanging(dir: nat, leaf: nat, l3: nat, va0: nat, pa0: nat, end: nat, prot: Prot, bursts: bool,
                       ghost t0: Tables, ghost job: Job, ghost i: nat, ghost j: nat, ghost n0: nat)
      returns (va: nat, pa: nat, ghost n: nat)
      requires Valid() && HangsAt(layout, tables, owner, job.high, i, dir) && Reaches(layout, tables, owner, job.high, i, j, leaf)
      requires job.Sound() && end == job.End() && prot == job.prot && bursts == job.bursts && job.Stands(n0, va0, pa0)
      requires l3 < ENTRIES && n0 == (i * 512 + j) * 512 + l3
      requires AtBurstEdge(job, n0) && MappedUpTo(layout, t0, tables, job, n0)
      modifies this`tables, ram.mem
      ensures Valid() && Grew(old(State()), State())
      ensures HangsAt(layout, tables, owner, job.high, i, dir)
      ensures tables.low == old(tables.low) && tables.high == old(tables.high)
      ensures n0 <= n && job.Stands(n, va, pa) && MappedUpTo(layout, t0, tables, job, n)
      ensures va >= end || n == (i * 512 + j + 1) * 512
    {
      ghost var t := tables;
      va, pa, n := FillLeaf(leaf, l3, va0, pa0, end, prot, bursts, t0, job, i, j, n0);
      HangsStill(layout, t, tables, owner, job.high, i, dir, leaf);
    }

    /** The level 3 table that page n is looked up in, made if it is not there. */
    method LeafTable(dir: nat, l2: nat, ghost t0: Tables, ghost job: Job, ghost i: nat, ghost n: nat) returns (ok: bool, leaf: nat)
      requires Valid() && HangsAt(layout, tables, owner, job.high, i, dir)
      requires l2 < ENTRIES && !SelfSlot(layout, Dir(job.high, i), l2)
      requires MappedUpTo(layout, t0, tables, job, n)
      modifies this`tables, this`owner, ram`ramList, ram.asinfo, ram.mem
      ensures !ok ==> ram.asinfo.Valid() && ram.Refuses(PAGE, PAGE)
      ensures ok ==> Valid() && Grew(old(State()), State()) && MappedUpTo(layout, t0, tables, job, n)
      ensures ok ==> HangsAt(layout, tables, owner, job.high, i, dir) && Reaches(layout, tables, owner, job.high, i, l2, leaf)
      ensures ok ==> tables.low == old(tables.low) && tables.high == old(tables.high)
    {
      ok, leaf := EnsureTable(dir, l2, t0, job, n);
      assert ok ==> owner[tables.Root(job.high)] == Top(job.high);
    }

    /** One turn of the middle loop: the level 3 table under entry l2 of a level 2 table. */
    method FillOneLeaf(dir: nat, l2: nat, va0: nat, pa0: nat, end: nat, prot: Prot, bursts: bool,
                       ghost t0: Tables, ghost job: Job, ghost i: nat, ghost n0: nat)
      returns (ok: bool, va: nat, pa: nat, ghost n: nat)
      requires Valid() && job.Sound() && job.Plain(layout) && end == job.End() && prot == job.prot && bursts == job.bursts && job.Stands(n0, va0, pa0)
      requires va0 < end && l2 < ENTRIES && L3Idx(va0) < ENTRIES && n0 == (i * 512 + l2) * 512 + L3Idx(va0)
      requires HangsAt(layout, tables, owner, job.high, i, dir) && !SelfSlot(layout, Dir(job.high, i), l2)
      requires AtBurstEdge(job, n0)
      requires MappedUpTo(layout, t0, tables, job, n0)
      modifies this`tables, this`owner, ram`ramList, ram.asinfo, ram.mem
      ensures !ok ==> ram.asinfo.Valid() && ram.Refuses(PAGE, PAGE)
      ensures ok ==> Valid() && Grew(old(State()), State())
      ensures ok ==> HangsAt(layout, tables, owner, job.high, i, dir)
      ensures ok ==> tables.low == old(tables.low) && tables.high == old(tables.high)
      ensures ok ==> n0 <= n && job.Stands(n, va, pa) && MappedUpTo(layout, t0, tables, job, n)
      ensures ok ==> va >= end || n == (i * 512 + l2 + 1) * 512
    {
      va, pa, n := va0, pa0, n0;
      ghost var m0 := State();
      var leaf;
      ok, leaf := LeafTable(dir, l2, t0, job, i, n0);
      if !ok {
        return;
      }
      ghost var m1 := State();
      va, pa, n := FillHanging(dir, leaf, L3Idx(va0), va0, pa0, end, prot, bursts, t0, job, i, l2, n0);
      GrewTrans(m0, m1, State());
    }

    /** The middle loop: the level 3 tables under one level 2 table. */
    method FillDir(dir: nat, va0: nat, pa0: nat, end: nat, prot: Prot, bursts: bool,
                   ghost t0: Tables, ghost job: Job, ghost i: nat, ghost n0: nat)
      returns (ok: bool, va: nat, pa: nat, ghost n: nat)
      requires Valid() && job.Sound() && job.Plain(layout) && end == job.End() && prot == job.prot && bursts == job.bursts && job.Stands(n0, va0, pa0)
      requires va0 < end && n0 / 0x4_0000 == i && HangsAt(layout, tables, owner, job.high, i, dir)
      requires AtBurstEdge(job, n0)
      requires MappedUpTo(layout, t0, tables, job, n0)
      modifies this`tables, this`owner, ram`ramList, ram.asinfo, ram.mem
      ensures !ok ==> ram.asinfo.Valid() && ram.Refuses(PAGE, PAGE)
      ensures ok ==> Valid() && Grew(old(State()), State())
      ensures ok ==> n0 <= n && job.Stands(n, va, pa) && MappedUpTo(layout, t0, tables, job, n)
      ensures ok ==> va >= end || n == (i + 1) * 0x4_0000
      ensures ok ==> tables.low == old(tables.low) && tables.high == old(tables.high)
    {
      ok, va, pa, n := true, va0, pa0, n0;
      PageOfStand(job, n, va, pa);
      var l2 := L2Idx(va);
      ghost var first := l2;
      while l2 < ENTRIES && va < end
        invariant Valid() && Grew(old(State()), State())
        invariant n0 <= n && job.Stands(n, va, pa) && MappedUpTo(layout, t0, tables, job, n)
        invariant HangsAt(layout, tables, owner, job.high, i, dir)
        invariant tables.low == old(tables.low) && tables.high == old(tables.high)
        invariant first <= l2 <= ENTRIES
        invariant if l2 == first then n == n0 else va >= end || n == (i * 512 + l2) * 512
        decreases ENTRIES - l2
      {
        if l2 > first {
          TableStart(n, i, l2);
        }
        LeafOfStand(layout, job, n, va, pa, i, l2);
        ghost var m := State();
        ok, va, pa, n := FillOneLeaf(dir, l2, va, pa, end, prot, bursts, t0, job, i, n);
        if !ok {
          return;
        }
        GrewTrans(old(State()), m, State());
        l2 := l2 + 1;
      }
    }

    /** One turn of the outer loop: everything under entry l1 of the root. */
    method FillOneDir(root: nat, l1: nat, va0: nat, pa0: nat, end: nat, prot: Prot, bursts: bool,
                      ghost t0: Tables, ghost job: Job, ghost n0: nat)
      returns (ok: bool, va: nat, pa: nat, ghost n: nat)
      requires Valid() && job.Sound() && job.Plain(layout) && end == job.End() && prot == job.prot && bursts == job.bursts && job.Stands(n0, va0, pa0)
      requires va0 < end && n0 / 0x4_0000 == l1 && root == tables.Root(job.high)
      requires AtBurstEdge(job, n0)
      requires MappedUpTo(layout, t0, tables, job, n0)
      modifies this`tables, this`owner, ram`ramList, ram.asinfo, ram.mem
      ensures !ok ==> ram.asinfo.Valid() && ram.Refuses(PAGE, PAGE)
      ensures ok ==> Valid() && Grew(old(State()), State())
      ensures ok ==> root == tables.Root(job.high)
      ensures ok ==> n0 <= n && job.Stands(n, va, pa) && MappedUpTo(layout, t0, tables, job, n)
      ensures ok ==> va >= end || n == (l1 + 1) * 0x4_0000
    {
      va, pa, n := va0, pa0, n0;
      PageOfStand(job, n0, va0, pa0);
      assert layout.Plain(job.high, n0);
      ghost var m0 := State();
      var dir;
      ok, dir := EnsureTable(root, l1, t0, job, n0);
      if !ok {
        return;
      }
      ghost var m1 := State();
      ok, va, pa, n := FillDir(dir, va0, pa0, end, prot, bursts, t0, job, l1, n0);
      if ok {
        GrewTrans(m0, m1, State());
      }
    }

    /** The outer loop of aarch64_map, from the checked range on. */
    method FillRange(va0: nat, pa0: nat, end: nat, prot: Prot, bursts: bool, ghost job: Job)
      returns (ok: bool)
      requires Valid() && job.Sound() && job.Plain(layout)
      requires va0 == job.va && pa0 == job.base && end == job.End() && prot == job.prot && bursts == job.bursts
      requires job.high == (va0 >= layout.userEnd)
      modifies this`tables, this`owner, ram`ramList, ram.asinfo, ram.mem
      ensures !ok ==> ram.asinfo.Valid() && ram.Refuses(PAGE, PAGE)
      ensures ok ==> Valid() && Grew(old(State()), State())
      ensures ok ==> MappedUpTo(layout, old(tables), tables, job, job.first + job.pages)
    {
      var va: nat, pa: nat := va0, pa0;
      ghost var n: nat := job.first;
      var root := tables.Root(va0 >= layout.userEnd);
      var l1 := L1Idx(va);
      if va < end {
        PageOfStand(job, n, va, pa);
      }
      ghost var first := l1;
      ok := true;
      while l1 < ENTRIES && va < end
        invariant Valid() && Grew(old(State()), State())
        invariant root == tables.Root(job.high)
        invariant job.Stands(n, va, pa) && MappedUpTo(layout, old(tables), tables, job, n)
        invariant first <= l1 <= ENTRIES
        invariant if l1 == first then n == job.first else va >= end || n == l1 * 0x4_0000
        decreases ENTRIES - l1
      {
        if l1 > first {
          TableStart(n, l1, 0);
        }
        ghost var m := State();
        ok, va, pa, n := FillOneDir(root, l1, va, pa, end, prot, bursts, old(tables), job, n);
        if !ok {
          return;
        }
        GrewTrans(old(State()), m, State());
        l1 := l1 + 1;
      }
    }

    /** aarch64_map behind its checks: map bytes from the page of paddr at the page address va. */
    method MapChecked(va: nat, end: nat, prot: Prot, paddr: nat, ghost size: nat)
      returns (ok: bool)
      requires Valid() && va % 4096 == 0
      requires !RangeCrash(layout, va, RoundPg(size + paddr % 4096))
      requires end == va + RoundPg(size + paddr % 4096) && TruncPg(paddr) + RoundPg(size + paddr % 4096) <= PADDR_LIMIT
      requires SpanPlain(layout, va, RoundPg(size + paddr % 4096))
      modifies this`tables, this`owner, ram`ramList, ram.asinfo, ram.mem
      ensures !ok ==> ram.asinfo.Valid() && ram.Refuses(PAGE, PAGE)
      ensures ok ==> Valid() && Grew(old(State()), State())
      ensures ok ==> Translated(layout, tables, va, RoundPg(size + paddr % 4096), TruncPg(paddr), prot)
      ensures ok ==> OthersKept(layout, old(tables), tables, va, RoundPg(size + paddr % 4096))
      ensures ok && ContigSound(layout, old(tables)) && JobUnmapped(old(tables), JobOf(layout, va, paddr, size, prot)) ==>
        ContigSound(layout, tables)
    {
      ghost var job := JobOf(layout, va, paddr, size, prot);
      JobSound(layout, va, paddr, size, prot);
      SpanIsJob(layout, va, paddr, size, prot);
      ghost var t0, owner0 := tables, owner;
      ok := FillRange(va, TruncPg(paddr), end, prot, true, job);
      if !ok {
        return;
      }
      JobTranslates(layout, t0, owner0, tables, owner, job);
      if ContigSound(layout, t0) && JobUnmapped(t0, job) {
        ContigKept(layout, t0, tables, job);
      }
    }

    /** The address a call starts at, the next free one or the given one if its offset fits, and the
    page it lies in. */
    method TakeAddress(vaddr: Option<nat>, off: nat, bytes: nat) returns (ok: bool, va0: nat, va: nat)
      requires off < 4096 && bytes % 4096 == 0 && bytes <= PADDR_LIMIT && freeVaddr % 4096 == 0 && freeVaddr < TWO_64
      modifies this`freeVaddr
      ensures ok <==> vaddr.None? || vaddr.value % 4096 == off
      ensures ok ==> va == (if vaddr.None? then old(freeVaddr) else TruncPg(vaddr.value)) && va % 4096 == 0 && va0 == if vaddr.None? then va else va + off
      ensures freeVaddr % 4096 == 0 && freeVaddr < TWO_64
      ensures vaddr.Some? ==> freeVaddr == old(freeVaddr)
      ensures vaddr.None? ==> freeVaddr == old(freeVaddr) + bytes - if old(freeVaddr) + bytes < TWO_64 then 0 else TWO_64
    {
      if vaddr.None? {
        va0 := freeVaddr;
        NextFree(freeVaddr, bytes);
        freeVaddr := (freeVaddr + bytes) % TWO_64;
      } else {
        va0 := vaddr.value;
        if va0 % 4096 != off {
          return false, 0, 0;
        }
      }
      ok, va := true, TruncPg(va0);
      PageStart(va0);
    }

    /** The crash tests of aarch64_map on the range it is about to map; end wraps at 64 bits. */
    method CheckRange(va: nat, bytes: nat) returns (ok: bool, end: nat)
      requires bytes <= PADDR_LIMIT
      ensures ok <==> va + bytes < TWO_64 && if va < layout.userEnd then va + bytes < layout.userEnd else layout.startupBase <= va
      ensures ok <==> !RangeCrash(layout, va, bytes)
      ensures ok ==> end == va + bytes
    {
      end := (va + bytes) % TWO_64;
      if end < va {
        return false, end;
      }
      if va < layout.userEnd {
        if end >= layout.userEnd {
          return false, end;
        }
      } else if va < layout.startupBase {
        return false, end;
      }
      ok := true;
    }

    /** aarch64_map in a virtual system; vaddr is None for ~0, which takes the next free address. */
    method Map(vaddr: Option<nat>, paddr: nat, size: nat, prot: Prot) returns (ok: bool, ret: nat)
      requires Valid() && (vaddr.Some? ==> vaddr.value < TWO_64)
      requires TruncPg(paddr) + RoundPg(size + paddr % 4096) <= PADDR_LIMIT
      requires SpanPlain(layout, MapCall(vaddr, paddr, size, prot).Start(freeVaddr), RoundPg(size + paddr % 4096))
      modifies this`tables, this`owner, this`freeVaddr, ram`ramList, ram.asinfo, ram.mem
      ensures ok ==> Valid() && Grew(old(State()), State())
      ensures ok ==> MapStep(layout, old(Mapping()), MapCall(vaddr, paddr, size, prot), Mapping())
      ensures ok && vaddr.Some? ==> vaddr.value % 4096 == paddr % 4096
      ensures var va := MapCall(vaddr, paddr, size, prot).Start(old(freeVaddr));
        && (ok && ContigSound(layout, old(tables)) && JobUnmapped(old(tables), JobOf(layout, va, paddr, size, prot)) ==>
              ContigSound(layout, tables))
        && (ok ==> ret == paddr % 4096 + if vaddr.None? then va else vaddr.value)
      ensures var va, bytes := MapCall(vaddr, paddr, size, prot).Start(old(freeVaddr)), RoundPg(size + paddr % 4096);
        !ok ==>
          || (vaddr.Some? && vaddr.value % 4096 != paddr % 4096)
          || !(va + bytes < TWO_64 && if va < layout.userEnd then va + bytes < layout.userEnd else layout.startupBase <= va)
          || (ram.asinfo.Valid() && ram.Refuses(PAGE, PAGE))
    {
      ghost var s, c := Mapping(), MapCall(vaddr, paddr, size, prot);
      var off := paddr % 4096;
      var bytes := RoundPg(size + off);
      assert bytes == c.Bytes();
      var va0, va;
      ok, va0, va := TakeAddress(vaddr, off, bytes);
      if !ok {
        return false, 0;
      }
      var end;
      ok, end := CheckRange(va, bytes);
      if !ok {
        return false, 0;
      }
      ok := MapChecked(va, end, prot, paddr, size);
      ret := va0 + off;
      if ok {
        StepMade(layout, s, c, Mapping(), va, bytes);
      }
    }
  }
}
