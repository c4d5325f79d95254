/** The physical RAM allocator (lib/ram.c): a sorted, merged free list edited in place, an avoid
list that is only ever searched around, and a bump pointer for the time before any RAM is known.

A call to crash() is an outcome: methods that can crash return ok == false. */
module Ram {
  import opened Align
  import opened Blocks
  import opened Options
  import opened AsInfo
  import opened Avoids
  import opened Sysram
  import opened Memory

  /** 3K of 16-byte entries, one of them the sentinel, and add_mem wants one more to spare. */
  const MAX_RAM_ENTRIES: nat := 191

  /** 1K of 16-byte entries, one of them the terminator. */
  const MAX_AVOID_ENTRIES: nat := 63

  const TEMP_SYSPAGE_SIZE: nat := 48 * 1024

  /** The state the allocator keeps between calls. */
  datatype RamState = RamState(free: seq<Block>, avoid: seq<Avoid>, early: nat)

  ghost predicate SameAvoid(s: RamState, s': RamState) {
    s'.avoid == s.avoid && s'.early == s.early
  }

  /** What ws_init leaves. */
  function InitialState(imageStart: nat, imageSize: nat, startupSize: nat): RamState {
    RamState([], InitialAvoids(imageStart, imageSize, startupSize), Round(imageStart + imageSize, 8) + 4096)
  }

  /** A canonical free list with every block inside the physical address space. */
  ghost predicate Sane(s: RamState) {
    && Canonical(s.free)
    && (forall i :: 0 <= i < |s.free| ==> s.free[i].End() <= PADDR_LIMIT)
  }

  ghost predicate Union(s: RamState, start: nat, size: nat, s': RamState) {
    forall x: nat :: Covers(s'.free, x) <==> Covers(s.free, x) || start <= x < start + size
  }

  ghost predicate Difference(s: RamState, start: nat, size: nat, s': RamState) {
    forall x: nat :: Covers(s'.free, x) <==> Covers(s.free, x) && !(start <= x < start + size)
  }

  /** Between two points of a run memory was only taken: the free set shrank, and no byte that was
  not free changed. */
  ghost predicate OnlyTook(s: RamState, s': RamState, m: seq<byte>, m': seq<byte>) {
    && (forall x: nat :: Covers(s'.free, x) ==> Covers(s.free, x))
    && |m'| == |m|
    && forall x: nat :: x < |m| && !Covers(s.free, x) ==> m'[x] == m[x]
  }

  /** No byte of [a, a + size) is free. */
  ghost predicate Reserved(free: seq<Block>, a: nat, size: nat) {
    forall x: nat :: a <= x < a + size ==> !Covers(free, x)
  }

  /** [a, a + size) lies inside one free block and clear of every avoid range that searches see. */
  ghost predicate Available(s: RamState, a: nat, size: nat) {
    && (exists i :: 0 <= i < |s.free| && s.free[i].addr <= a && a + size <= s.free[i].End())
    && forall x: nat :: a <= x < a + size ==> Covers(s.free, x) && !InAvoid(Visible(s.avoid), x)
  }

  /** Positive sizes in address order, overlaps allowed. */
  ghost predicate Ordered(l: seq<Block>) {
    && (forall i :: 0 <= i < |l| ==> l[i].size > 0)
    && (forall i, j :: 0 <= i < j < |l| ==> l[i].addr <= l[j].addr)
  }

  lemma CoversInsert(l: seq<Block>, r: nat, b: Block, x: nat)
    requires r <= |l|
    ensures Covers(l[..r] + [b] + l[r..], x) <==> Covers(l, x) || b.Has(x)
  {
    CoversConcat(l[..r] + [b], l[r..], x);
    CoversConcat(l[..r], [b], x);
    CoversConcat(l[..r], l[r..], x);
    assert l == l[..r] + l[r..];
    assert Covers([b], x) <==> [b][0].Has(x);
  }

  lemma CoversMerge(l: seq<Block>, r: nat, b: Block, x: nat)
    requires r + 1 < |l|
    requires forall y: nat :: b.Has(y) <==> l[r].Has(y) || l[r + 1].Has(y)
    ensures Covers((l[..r + 1] + l[r + 2..])[r := b], x) <==> Covers(l, x)
  {
    var l' := (l[..r + 1] + l[r + 2..])[r := b];
    CoversSplit(l', r, x);
    assert l'[..r] == l[..r] && l'[r + 1..] == l[r + 2..];
    CoversSplit(l, r, x);
    CoversSplit(l[r + 1..], 0, x);
    assert l[r + 1..][1..] == l[r + 2..];
  }

  /** A gap before entry r: the canonical front grows by it. */
  lemma GapKeeps(l: seq<Block>, r: nat)
    requires 0 < r < |l| && Ordered(l) && Canonical(l[..r]) && l[r - 1].End() < l[r].addr
    ensures Canonical(l[..r + 1])
  {
    var front := l[..r];
    forall i | 0 <= i < r
      ensures l[i].End() < l[r].addr && front[i] == l[i]
    {
      assert i < r - 1 ==> front[i].End() < front[r - 1].addr;
    }
    assert forall i, j :: 0 <= i < j < r ==> l[i] == front[i] && l[j] == front[j];
  }

  /** The list after entry r was merged into the one before it, up to their common end e. */
  function Merged(l: seq<Block>, r: nat, e: nat): seq<Block>
    requires 0 < r < |l| && l[r - 1].addr <= e
  {
    (l[..r] + l[r + 1..])[r - 1 := Block(l[r - 1].addr, e - l[r - 1].addr)]
  }

  /** Merging entry r, which touches the one before it, keeps the order ... */
  lemma MergeKeepsOrder(l: seq<Block>, r: nat, e: nat)
    requires 0 < r < |l| && Ordered(l) && Canonical(l[..r]) && l[r - 1].End() <= e
    ensures Ordered(Merged(l, r, e)) && Canonical(Merged(l, r, e)[..r])
  {
    var l' := Merged(l, r, e);
    forall i, j | 0 <= i < j < |l'|
      ensures l'[i].addr <= l'[j].addr
    {
      assert l'[i].addr == l[if i < r then i else i + 1].addr && l'[j].addr == l[if j < r then j else j + 1].addr;
    }
    assert forall i :: 0 <= i < r - 1 ==> l'[i] == l[..r][i];
  }

  /** ... and the covered set. */
  lemma MergeKeepsSet(l: seq<Block>, r: nat, e: nat)
    requires 0 < r < |l| && Ordered(l) && l[r].addr <= l[r - 1].End()
    requires e == if l[r].End() > l[r - 1].End() then l[r].End() else l[r - 1].End()
    ensures forall x: nat :: Covers(Merged(l, r, e), x) <==> Covers(l, x)
  {
    var b := Block(l[r - 1].addr, e - l[r - 1].addr);
    assert l[..r - 1 + 1] == l[..r] && l[r - 1 + 2..] == l[r + 1..];
    forall x: nat
      ensures Covers(Merged(l, r, e), x) <==> Covers(l, x)
    {
      CoversMerge(l, r - 1, b, x);
    }
  }

  /** The range [addr, end) shares an address with the block. */
  predicate Meets(addr: nat, end: nat, b: Block) {
    addr < end && addr < b.End() && b.addr < end
  }

  /** Both ends of the block stick out: removing the range would leave two blocks. */
  predicate StrictlyInside(addr: nat, end: nat, b: Block) {
    b.addr < addr <= end < b.End()
  }

  /** A canonical block shares no address with the rest of the list. */
  lemma OnlyBlock(l: seq<Block>, r: nat, x: nat)
    requires Canonical(l) && r < |l| && l[r].Has(x)
    ensures !Covers(l[..r], x) && !Covers(l[r + 1..], x)
  {
  }

  /** Shrinking a block keeps the list canonical. */
  lemma ReplaceCovers(l: seq<Block>, r: nat, b: Block)
    requires Canonical(l) && r < |l|
    requires b.size > 0 && l[r].addr <= b.addr && b.End() <= l[r].End()
    ensures Canonical(l[r := b])
    ensures forall x: nat :: Covers(l[r := b], x) <==> Covers(l, x) && (l[r].Has(x) ==> b.Has(x))
  {
    var l' := l[r := b];
    forall x: nat
      ensures Covers(l', x) <==> Covers(l, x) && (l[r].Has(x) ==> b.Has(x))
    {
      CoversSplit(l, r, x);
      CoversSplit(l', r, x);
      assert l'[..r] == l[..r] && l'[r + 1..] == l[r + 1..];
      if l[r].Has(x) {
        OnlyBlock(l, r, x);
      }
    }
  }

  /** Splitting block r of l: the list l' still has to cover exactly the two remaining pieces. */
  lemma SplitBlock(l: seq<Block>, l': seq<Block>, r: nat, addr: nat, end: nat)
    requires Canonical(l) && Canonical(l') && r < |l| && StrictlyInside(addr, end, l[r])
    requires forall x: nat :: Covers(l', x) <==>
      Covers(l[r := Block(l[r].addr, addr - l[r].addr)], x) || end <= x < l[r].End()
    ensures forall x: nat :: Covers(l', x) <==> Covers(l, x) && !(l[r].Has(x) && addr <= x < end)
    ensures addr == end ==> l' == l
  {
    var b := Block(l[r].addr, addr - l[r].addr);
    ReplaceCovers(l, r, b);
    forall x: nat
      ensures Covers(l', x) <==> Covers(l, x) && !(l[r].Has(x) && addr <= x < end)
    {
      if end <= x < l[r].End() {
        assert l[r].Has(x);
      }
    }
    if addr == end {
      CanonicalUnique(l', l);
    }
  }

  ghost predicate AnySplit(addr: nat, end: nat, l: seq<Block>) {
    exists i :: 0 <= i < |l| && StrictlyInside(addr, end, l[i])
  }

  /** When block r meets the range no other block can hold the range on both sides. */
  lemma MeetsExcludesOtherSplit(l: seq<Block>, r: nat, addr: nat, end: nat)
    requires Canonical(l) && r < |l| && Meets(addr, end, l[r])
    ensures AnySplit(addr, end, l) ==> StrictlyInside(addr, end, l[r])
    ensures forall i :: r < i < |l| ==> addr <= l[i].addr
  {
  }

  lemma OnlyBlockMeets(l: seq<Block>, r: nat, addr: nat, end: nat)
    requires Canonical(l) && r < |l| && StrictlyInside(addr, end, l[r])
    ensures forall x: nat :: addr <= x < end ==> l[r].Has(x)
  {
  }

  lemma DisjointFromRange(l: seq<Block>, addr: nat, end: nat)
    requires Canonical(l)
    requires forall x: nat :: addr <= x < end ==> !Covers(l, x)
    ensures forall i :: 0 <= i < |l| ==> !Meets(addr, end, l[i])
  {
    forall i | 0 <= i < |l|
      ensures !Meets(addr, end, l[i])
    {
      var x := if l[i].addr < addr then addr else l[i].addr;
      assert l[i].Has(x) ==> Covers(l, x);
    }
  }

  /** How far the free-list loop of alloc_ram has come: nothing met the range so far, blocks were
  trimmed, or the one block around the range was split. */
  datatype Stage = Whole | Trimmed | Split

  /** Splitting a block of a full list. */
  ghost predicate FullSplit(l: seq<Block>, addr: nat, end: nat) {
    |l| == MAX_RAM_ENTRIES && AnySplit(addr, end, l)
  }

  /** The free-list loop of alloc_ram stands at block r of l, having started with l0. */
  ghost predicate Carving(l0: seq<Block>, l: seq<Block>, addr: nat, end: nat, r: nat, stage: Stage) {
    && Canonical(l)
    && (forall x: nat :: Covers(l, x) ==> Covers(l0, x))
    && (forall x: nat :: Covers(l0, x) && !(addr <= x < end) ==> Covers(l, x))
    && (forall i :: 0 <= i < r && i < |l| ==> !Meets(addr, end, l[i]))
    && match stage {
         case Whole => l == l0 && (|l0| == MAX_RAM_ENTRIES ==> forall i :: 0 <= i < r && i < |l0| ==> !StrictlyInside(addr, end, l0[i]))
         case Trimmed => !FullSplit(l0, addr, end) && forall i :: r <= i < |l| ==> addr <= l[i].addr
         case Split => !FullSplit(l0, addr, end) && addr < end && forall x: nat :: addr <= x < end ==> !Covers(l, x)
       }
  }

  /** Only a block of the list the loop started with can be split. */
  lemma CarveFull(l0: seq<Block>, l: seq<Block>, addr: nat, end: nat, r: nat, stage: Stage)
    requires Carving(l0, l, addr, end, r, stage) && r < |l| == MAX_RAM_ENTRIES && StrictlyInside(addr, end, l[r])
    ensures FullSplit(l0, addr, end)
  {
    if stage.Split? {
      DisjointFromRange(l, addr, end);
    }
  }

  lemma CarveMissed(l0: seq<Block>, l: seq<Block>, addr: nat, end: nat, r: nat, stage: Stage)
    requires Carving(l0, l, addr, end, r, stage) && r < |l| && !Meets(addr, end, l[r])
    requires |l| == MAX_RAM_ENTRIES ==> !StrictlyInside(addr, end, l[r])
    ensures Carving(l0, l, addr, end, r + 1, stage)
  {
  }

  lemma CarveSplit(l0: seq<Block>, l: seq<Block>, l': seq<Block>, addr: nat, end: nat, r: nat, stage: Stage)
    requires Carving(l0, l, addr, end, r, stage) && r < |l| && Meets(addr, end, l[r]) && StrictlyInside(addr, end, l[r])
    requires |l| != MAX_RAM_ENTRIES && Canonical(l')
    requires forall x: nat :: Covers(l', x) <==> Covers(l, x) && !(l[r].Has(x) && addr <= x < end)
    ensures stage == Whole && Carving(l0, l', addr, end, r + 1, Split)
  {
    OnlyBlockMeets(l, r, addr, end);
    DisjointFromRange(l', addr, end);
    assert Covers(l, addr);
  }

  /** A block that meets the range without sticking out on both sides: the list was not split yet, and
  neither the range nor an earlier list can be. */
  lemma CarveMet(l0: seq<Block>, l: seq<Block>, addr: nat, end: nat, r: nat, stage: Stage)
    requires Carving(l0, l, addr, end, r, stage) && r < |l| && Meets(addr, end, l[r]) && !StrictlyInside(addr, end, l[r])
    ensures !stage.Split? && !FullSplit(l0, addr, end) && forall i :: r < i < |l| ==> addr <= l[i].addr
  {
    MeetsExcludesOtherSplit(l, r, addr, end);
    var x := if l[r].addr < addr then addr else l[r].addr;
    assert l[r].Has(x) && Covers(l, x);
  }

  lemma CarveRemoved(l0: seq<Block>, l: seq<Block>, l': seq<Block>, addr: nat, end: nat, r: nat, stage: Stage)
    requires Carving(l0, l, addr, end, r, stage) && r < |l| && Meets(addr, end, l[r]) && !StrictlyInside(addr, end, l[r])
    requires Canonical(l') && l' == l[..r] + l[r + 1..]
    requires forall x: nat :: Covers(l', x) <==> Covers(l, x) && !(l[r].Has(x) && addr <= x < end)
    ensures !stage.Split? && Carving(l0, l', addr, end, r, Trimmed)
  {
    CarveMet(l0, l, addr, end, r, stage);
    assert forall i :: 0 <= i < |l'| ==> l'[i] == l[if i < r then i else i + 1];
  }

  lemma CarveTrimmed(l0: seq<Block>, l: seq<Block>, l': seq<Block>, addr: nat, end: nat, r: nat, stage: Stage)
    requires Carving(l0, l, addr, end, r, stage) && r < |l| && Meets(addr, end, l[r]) && !StrictlyInside(addr, end, l[r])
    requires Canonical(l') && |l'| == |l| && !Meets(addr, end, l'[r])
    requires forall i :: 0 <= i < |l| && i != r ==> l'[i] == l[i]
    requires forall x: nat :: Covers(l', x) <==> Covers(l, x) && !(l[r].Has(x) && addr <= x < end)
    ensures !stage.Split? && Carving(l0, l', addr, end, r + 1, Trimmed)
  {
    CarveMet(l0, l, addr, end, r, stage);
  }

  lemma CarveDone(l0: seq<Block>, l: seq<Block>, addr: nat, end: nat, r: nat, stage: Stage)
    requires Carving(l0, l, addr, end, r, stage) && |l| <= r
    ensures !FullSplit(l0, addr, end)
    ensures forall x: nat :: Covers(l, x) <==> Covers(l0, x) && !(addr <= x < end)
  {
    assert forall i :: 0 <= i < |l| ==> !Meets(addr, end, l[i]);
  }

  lemma RemoveCovers(l: seq<Block>, r: nat)
    requires Canonical(l) && r < |l|
    ensures Canonical(l[..r] + l[r + 1..])
    ensures forall x: nat :: Covers(l[..r] + l[r + 1..], x) <==> Covers(l, x) && !l[r].Has(x)
  {
    forall x: nat
      ensures Covers(l[..r] + l[r + 1..], x) <==> Covers(l, x) && !l[r].Has(x)
    {
      CoversSplit(l, r, x);
      CoversConcat(l[..r], l[r + 1..], x);
      if l[r].Has(x) {
        OnlyBlock(l, r, x);
      }
    }
  }

  lemma PageIsPowerOfTwo()
    ensures PowerOfTwo(PAGE)
  {
    assert PowerOfTwo(1) && PowerOfTwo(2) && PowerOfTwo(4) && PowerOfTwo(8);
    assert PowerOfTwo(16) && PowerOfTwo(32) && PowerOfTwo(64) && PowerOfTwo(128);
    assert PowerOfTwo(256) && PowerOfTwo(512) && PowerOfTwo(1024) && PowerOfTwo(2048);
  }

  lemma BlocksBounded(l: seq<Block>, limit: nat)
    requires Canonical(l) && forall x: nat :: Covers(l, x) ==> x < limit
    ensures forall i :: 0 <= i < |l| ==> l[i].End() <= limit
  {
    forall i | 0 <= i < |l|
      ensures l[i].End() <= limit
    {
      assert l[i].Has(l[i].End() - 1);
      assert Covers(l, l[i].End() - 1);
    }
  }

  lemma CoveredBounded(l: seq<Block>, limit: nat)
    requires forall i :: 0 <= i < |l| ==> l[i].End() <= limit
    ensures forall x: nat :: Covers(l, x) ==> x < limit
  {
  }

  /** The unavoided part of block b, as the searches see it. */
  function Candidate(avoid: seq<Avoid>, b: Block): Option<Span> {
    Remainder(Visible(avoid), Span(b.addr, b.End()))
  }

  /** What the avoid list leaves of a block is available. */
  lemma CandidateAvailable(s: RamState, i: nat, a: nat, size: nat)
    requires Sane(s) && i < |s.free| && Candidate(s.avoid, s.free[i]).Some?
    requires var c := Candidate(s.avoid, s.free[i]).value; c.s <= a && a + size <= c.e
    ensures Available(s, a, size)
  {
    var b := s.free[i];
    RemainderSound(Visible(s.avoid), Span(b.addr, b.End()));
    forall x: nat | a <= x < a + size
      ensures Covers(s.free, x) && !InAvoid(Visible(s.avoid), x)
    {
      assert b.Has(x);
    }
  }

  predicate FitsIn(c: Span, a: nat, size: nat) {
    c.s <= a < c.e && a + size <= c.e
  }

  predicate Aligned(a: nat, align: nat) {
    align > 0 ==> a % align == 0
  }

  /** A place for size bytes at a, aligned unless align is 0, in what the avoid list leaves of b. */
  ghost predicate Room(avoid: seq<Avoid>, b: Block, a: nat, size: nat, align: nat) {
    && Candidate(avoid, b).Some? && Aligned(a, align)
    && Candidate(avoid, b).value.s <= a && a + size <= Candidate(avoid, b).value.e
  }

  /** No place below limit in block b starts higher than top. */
  ghost predicate BlockLower(avoid: seq<Avoid>, b: Block, top: nat, size: nat, align: nat, limit: nat) {
    forall a: nat :: Room(avoid, b, a, size, align) && a + size <= limit ==> a <= top
  }

  /** No place below limit in the first n blocks starts higher than top. */
  ghost predicate NoneHigher(s: RamState, n: nat, top: nat, size: nat, align: nat, limit: nat) {
    forall i :: 0 <= i < n && i < |s.free| ==> BlockLower(s.avoid, s.free[i], top, size, align, limit)
  }

  /** chk is the highest place in block b that is left, if there is one. */
  ghost predicate IsTop(avoid: seq<Avoid>, b: Block, chk: Option<nat>, size: nat, align: nat) {
    && (chk.Some? ==> Room(avoid, b, chk.value, size, align))
    && forall a: nat :: Room(avoid, b, a, size, align) ==> chk.Some? && a <= chk.value
  }

  /** The highest place of block i, the end of what lies below limit, or the old top when the block
  has no place below limit, goes on as top. */
  lemma HigherBlock(s: RamState, i: nat, top: nat, chk: Option<nat>, top': nat, size: nat, align: nat, limit: nat)
    requires i < |s.free| && NoneHigher(s, i, top, size, align, limit) && IsTop(s.avoid, s.free[i], chk, size, align)
    requires top <= top' && (chk.Some? ==> chk.value <= top' || limit <= top' + size || limit < Candidate(s.avoid, s.free[i]).value.s + size)
    ensures NoneHigher(s, i + 1, top', size, align, limit)
  {
    forall j | 0 <= j < i && j < |s.free|
      ensures BlockLower(s.avoid, s.free[j], top', size, align, limit)
    {
      assert BlockLower(s.avoid, s.free[j], top, size, align, limit);
    }
  }

  /** Once a candidate reaches limit, the blocks behind it have no place below it. */
  lemma RestIsHigher(s: RamState, i: nat, top: nat, size: nat, align: nat, limit: nat)
    requires Sane(s) && i < |s.free| && NoneHigher(s, i + 1, top, size, align, limit) && Candidate(s.avoid, s.free[i]).Some?
    requires limit <= Candidate(s.avoid, s.free[i]).value.e
    ensures NoneHigher(s, |s.free|, top, size, align, limit)
  {
    var b := s.free[i];
    RemainderSound(Visible(s.avoid), Span(b.addr, b.End()));
    forall j | i < j < |s.free|
      ensures BlockLower(s.avoid, s.free[j], top, size, align, limit)
    {
      assert b.End() < s.free[j].addr;
      RemainderSound(Visible(s.avoid), Span(s.free[j].addr, s.free[j].End()));
    }
  }

  /** A place where a search may put size bytes in block b: aligned, and in what the avoid list leaves. */
  ghost predicate Place(avoid: seq<Avoid>, b: Block, a: nat, size: nat, align: nat) {
    Candidate(avoid, b).Some? && Aligned(a, align) && FitsIn(Candidate(avoid, b).value, a, size)
  }

  /** a is the lowest place of all. */
  ghost predicate Lowest(s: RamState, a: nat, size: nat, align: nat) {
    && (exists i :: 0 <= i < |s.free| && Place(s.avoid, s.free[i], a, size, align))
    && forall i, x: nat :: 0 <= i < |s.free| && Place(s.avoid, s.free[i], x, size, align) ==> a <= x
  }

  /** Rounding up the start of what is left gives the lowest place in a block, if there is one. */
  lemma LowestInBlock(avoid: seq<Avoid>, b: Block, size: nat, align: nat, x: nat)
    requires align > 0 && Place(avoid, b, x, size, align)
    ensures var c := Candidate(avoid, b).value; Round(c.s, align) <= x && Place(avoid, b, Round(c.s, align), size, align)
  {
    RoundIsCeiling(Candidate(avoid, b).value.s, align);
    assert x == x / align * align;
  }

  /** Block j has no place, or reaches beyond the end of the range that is searched. */
  ghost predicate Passed(avoid: seq<Avoid>, b: Block, size: nat, align: nat, rangeEnd: nat) {
    (0 < rangeEnd < b.End()) || forall x: nat :: !Place(avoid, b, x, size, align)
  }

  lemma NotHere(avoid: seq<Avoid>, b: Block, size: nat, align: nat, rangeEnd: nat)
    requires align > 0 && b.size > 0 && Candidate(avoid, b).Some?
    requires var c := Candidate(avoid, b).value;
      var e := if 0 < rangeEnd < c.e then rangeEnd else c.e;
      !(Round(c.s, align) < e && size <= e - Round(c.s, align))
    ensures Passed(avoid, b, size, align, rangeEnd)
  {
    RemainderSound(Visible(avoid), Span(b.addr, b.End()));
    forall x: nat | !(0 < rangeEnd < b.End())
      ensures !Place(avoid, b, x, size, align)
    {
      if Place(avoid, b, x, size, align) {
        LowestInBlock(avoid, b, size, align, x);
      }
    }
  }

  /** The first block with a place below the end of the range has the lowest place of all. */
  lemma FirstIsLowest(s: RamState, i: nat, a: nat, size: nat, align: nat, rangeEnd: nat)
    requires Sane(s) && i < |s.free| && align > 0 && Place(s.avoid, s.free[i], a, size, align) && (rangeEnd > 0 ==> a < rangeEnd)
    requires a == Round(Candidate(s.avoid, s.free[i]).value.s, align)
    requires forall j :: 0 <= j < i ==> Passed(s.avoid, s.free[j], size, align, rangeEnd)
    ensures Lowest(s, a, size, align)
  {
    var b := s.free[i];
    RemainderSound(Visible(s.avoid), Span(b.addr, b.End()));
    forall j | 0 <= j < i
      ensures forall x: nat :: !Place(s.avoid, s.free[j], x, size, align)
    {
      assert Passed(s.avoid, s.free[j], size, align, rangeEnd) && s.free[j].End() < b.addr;
    }
    forall j, x: nat | i <= j < |s.free| && Place(s.avoid, s.free[j], x, size, align)
      ensures a <= x
    {
      var o := s.free[j];
      RemainderSound(Visible(s.avoid), Span(o.addr, o.End()));
      if j == i {
        LowestInBlock(s.avoid, b, size, align, x);
      } else {
        assert b.End() < o.addr;
      }
    }
  }

  predicate Below(l: seq<Block>, limit: nat) {
    forall i :: 0 <= i < |l| ==> l[i].End() <= limit
  }

  ghost predicate BlockFull(avoid: seq<Avoid>, b: Block, size: nat, align: nat) {
    Candidate(avoid, b).Some? ==>
      var c := Candidate(avoid, b).value;
      if align == 0 then size > c.e else forall k: nat :: !FitsIn(c, k * align, size)
  }

  /** No candidate has room for size bytes at a multiple of align; ROUND(s, 0) is always 0. */
  ghost predicate NoRoom(s: RamState, size: nat, align: nat) {
    forall i :: 0 <= i < |s.free| ==> BlockFull(s.avoid, s.free[i], size, align)
  }

  ghost predicate AvoidAdded(s: RamState, start: nat, size: nat, s': RamState) {
    forall x: nat :: InAvoid(s'.avoid, x) <==> InAvoid(s.avoid, x) || start <= x < start + size
  }

  /** One call of ws_alloc that returns res. */
  ghost predicate WsAllocStep(s: RamState, size: nat, res: Option<nat>, s': RamState) {
    var n := Round(size, 8);
    && s'.free == s.free
    && (s.free == [] ==> res == Some(s.early) && s'.early == s.early + n)
    && (s.free != [] ==> s'.early == s.early)
    && (s.free != [] && res.Some? ==> Available(s, res.value, n) && res.value % 8 == 0 && Lowest(s, res.value, n, 8))
    && (res.None? ==> NoRoom(s, n, 8))
    && s'.avoid == if res.Some? then AvoidStep(s.avoid, res.value, n) else s.avoid
  }

  /** One call of alloc_ram that returns res; req is None for NULL_PADDR. */
  ghost predicate AllocStep(s: RamState, req: Option<nat>, size: nat, align: nat, res: Option<nat>, s': RamState) {
    && SameAvoid(s, s')
    && (req.Some? ==> res == req)
    && (res.None? ==> s' == s && NoRoom(s, size, align))
    && (res.Some? ==> Difference(s, res.value, size, s'))
    && (res.Some? && req.None? && align > 0 ==>
          Available(s, res.value, size) && res.value % align == 0 && Lowest(s, res.value, size, align))
  }

  /** One call of add_ram; image is the part of the boot image that must stay, wanted says that there is
  no temporary system page yet, and temp is the place it found for one. */
  ghost predicate AddRamStep(s: RamState, start: nat, size: nat, image: Block, wanted: bool, temp: Option<nat>, s': RamState) {
    && s'.early == s.early && (temp.Some? ==> wanted)
    && (forall x: nat :: Covers(s'.free, x) <==> (Covers(s.free, x) || start <= x < start + size) && !image.Has(x))
    && (temp.None? ==> s'.avoid == s.avoid && (wanted ==> NoRoom(s', TEMP_SYSPAGE_SIZE, PAGE)))
    && (temp.Some? ==>
          && Available(s'.(avoid := s.avoid), temp.value, TEMP_SYSPAGE_SIZE)
          && Lowest(s'.(avoid := s.avoid), temp.value, TEMP_SYSPAGE_SIZE, PAGE)
          && s'.avoid == AvoidStep(s.avoid, temp.value, TEMP_SYSPAGE_SIZE))
  }

  /** x lies in the physical address space that add_ram carves its "ram" entries from: an empty
  table first gets a "memory" entry up to memoryEnd, and one inside it for the lowest 4G. */
  ghost predicate InMemory(entries: seq<AsEntry>, memoryEnd: nat, x: int)
    requires OwnersBelow(entries)
  {
    if entries == [] then 0 <= x && (x <= memoryEnd || x <= 0xFFFF_FFFF) else NameCovers(entries, "memory", x)
  }

  lemma FirstCover(e: seq<AsEntry>, memoryEnd: nat)
    requires OwnersBelow(e) && |e| == 2 && e[0].name == "memory" && e[1].name == "below4G" && e[0].owner.None? && e[1].owner == Some(0)
    requires e[0].start == e[1].start == 0 && e[0].end == memoryEnd && e[1].end == 0xFFFF_FFFF
    ensures forall x :: NameCovers(e, "memory", x) <==> InMemory([], memoryEnd, x)
    ensures forall x :: !NameCovers(e, "ram", x)
  {
    assert MatchName(e, 0, "memory") && MatchName(e, 1, "memory") && !MatchName(e, 0, "ram") && !MatchName(e, 1, "ram");
    assert forall x :: e[0].Has(x) <==> 0 <= x <= memoryEnd;
    assert forall x :: e[1].Has(x) <==> 0 <= x <= 0xFFFF_FFFF;
  }

  /** After add_sysram has dealt with the blocks done: what "sysram" and "ram" cover. */
  ghost predicate SysramSoFar(e0: seq<AsEntry>, now: seq<AsEntry>, done: seq<Block>)
    requires OwnersBelow(e0) && OwnersBelow(now)
  {
    && (forall x :: NameCovers(now, "ram", x) <==> NameCovers(e0, "ram", x))
    && forall x :: NameCovers(now, "sysram", x) <==>
         || NameCovers(e0, "sysram", x)
         || (x >= 0 && Covers(done, x) && NameCovers(e0, "ram", x))
  }

  lemma SysramStep(e0: seq<AsEntry>, before: seq<AsEntry>, after: seq<AsEntry>, done: seq<Block>, b: Block, pieces: seq<AsRange>, attr: Attr)
    requires OwnersBelow(e0) && OwnersBelow(before) && OwnersBelow(after)
    requires SysramSoFar(e0, before, done)
    requires Extends(before, after) && |after| == |before| + |pieces| && Chain(after, |before|, pieces, "sysram", attr)
    requires OwnersMatch(before, pieces, "ram")
    requires forall x :: RangeCovers(pieces, x) <==> b.addr <= x <= b.End() - 1 && NameCovers(before, "ram", x)
    ensures SysramSoFar(e0, after, done + [b])
  {
    forall x
      ensures NameCovers(after, "ram", x) <==> NameCovers(e0, "ram", x)
      ensures NameCovers(after, "sysram", x) <==>
        NameCovers(e0, "sysram", x) || (x >= 0 && Covers(done + [b], x) && NameCovers(e0, "ram", x))
    {
      CoversAfterPieces(before, after, pieces, "sysram", attr, "ram", x);
      CoversAfterPieces(before, after, pieces, "sysram", attr, "sysram", x);
      assert RangeCovers(pieces, x) <==> exists i :: 0 <= i < |pieces| && pieces[i].Has(x);
      if x >= 0 {
        CoversConcat(done, [b], x);
        assert Covers([b], x) <==> [b][0].Has(x);
      }
    }
  }

  /** "sysram" covers exactly the free list. */
  ghost predicate SysramIs(entries: seq<AsEntry>, free: seq<Block>)
    requires OwnersBelow(entries)
  {
    forall x: int :: NameCovers(entries, "sysram", x) <==> x >= 0 && Covers(free, x)
  }

  lemma SoFarInStep(e0: seq<AsEntry>, now: seq<AsEntry>, free: seq<Block>)
    requires OwnersBelow(e0) && OwnersBelow(now) && SysramSoFar(e0, now, free)
    requires forall x: nat :: Covers(free, x) ==> NameCovers(e0, "ram", x)
    requires forall x :: !NameCovers(e0, "sysram", x)
    ensures SysramIs(now, free)
  {
  }

  /** The inclusive end of [addr, addr + size) in 64 bits: with nothing in front of it, it wraps. */
  function LastByte(addr: nat, size: nat): int {
    if addr + size == 0 then TWO_64 - 1 else addr + size - 1
  }

  lemma EntryInside(entries: seq<AsEntry>, free: seq<Block>, i: nat)
    requires OwnersBelow(entries) && SysramIs(entries, free) && forall k :: 0 <= k < |free| ==> free[k].End() <= PADDR_LIMIT
    requires i < |entries| && MatchName(entries, i, "sysram") && entries[i].start <= entries[i].end
    ensures Swallows(0, TWO_64 - 1, entries[i])
  {
    var e := entries[i];
    assert e.Has(e.start) && e.Has(e.end);
    assert NameCovers(entries, "sysram", e.start) && NameCovers(entries, "sysram", e.end);
    CoveredBounded(free, PADDR_LIMIT);
  }

  /** If "sysram" is in step and no entry lies inside the whole address space, there is none. */
  lemma NothingLeft(entries: seq<AsEntry>, free: seq<Block>)
    requires OwnersBelow(entries) && !AnySwallowed(entries, 0, TWO_64 - 1)
    requires forall i :: 0 <= i < |free| ==> free[i].End() <= PADDR_LIMIT
    ensures SysramIs(entries, free) ==> forall x: int :: !NameCovers(entries, "sysram", x)
  {
    if SysramIs(entries, free) {
      forall i | 0 <= i < |entries| && MatchName(entries, i, "sysram")
        ensures entries[i].start > entries[i].end
      {
        if entries[i].start <= entries[i].end {
          EntryInside(entries, free, i);
        }
      }
    }
  }

  /** The highest start a search from the top tries. */
  method AlignDown(x: nat, align: nat) returns (chk: nat)
    ensures chk <= x && Aligned(chk, align)
    ensures forall a: nat :: a <= x && Aligned(a, align) ==> a <= chk
  {
    if align > 0 {
      TruncIsFloor(x, align);
      forall a: nat | a <= x && Aligned(a, align)
        ensures a <= Trunc(x, align)
      {
        assert a == a / align * align;
      }
    }
    chk := if align > 0 then Trunc(x, align) else x;
  }

  class RamAllocator {
    /** Memory itself, and the table that "ram" and "sysram" entries go to. */
    const mem: array<byte>

    const asinfo: AsTable

    /** The boot image: full_ram_paddr, shdr->ram_size and shdr->startup_size. */
    const imageStart: nat

    const imageSize: nat
    const startupSize: nat

    var ramList: seq<Block>
    var avoidList: seq<Avoid>
    var earlyNext: nat
    var tempSyspage: Option<nat>
    var sysramAdded: bool

    constructor (mem: array<byte>, asinfo: AsTable, imageStart: nat, imageSize: nat, startupSize: nat)
      ensures this.mem == mem && this.asinfo == asinfo
      ensures this.imageStart == imageStart && this.imageSize == imageSize && this.startupSize == startupSize
      ensures ramList == [] && avoidList == [] && earlyNext == 0 && !sysramAdded && tempSyspage.None?
    {
      this.mem, this.asinfo := mem, asinfo;
      this.imageStart, this.imageSize, this.startupSize := imageStart, imageSize, startupSize;
      ramList, avoidList, earlyNext, tempSyspage, sysramAdded := [], [], 0, None, false;
    }

    ghost function State(): RamState
      reads this
    {
      RamState(ramList, avoidList, earlyNext)
    }

    /** The list edit of avoid_ram: extend the last entry when the new range starts where it ends, else
    append. */
    method PutAvoid(start: nat, size: nat)
      modifies this`avoidList
      ensures avoidList == AvoidStep(old(avoidList), start, size)
    {
      var n := |avoidList|;
      if n > 0 && avoidList[n - 1].end == start {
        avoidList := avoidList[n - 1 := Avoid(avoidList[n - 1].start, Wrap64(avoidList[n - 1].end + size))];
      } else {
        avoidList := avoidList + [Avoid(start, Wrap64(start + size))];
      }
    }

    /** avoid_ram */
    method AvoidRam(start: nat, size: nat) returns (ok: bool)
      modifies this`avoidList
      ensures ok <==> 16 * (|avoidList| + 1) <= 1024
      ensures avoidList == AvoidStep(old(avoidList), start, size)
      ensures start + size < TWO_64 && (forall i :: 0 <= i < |old(avoidList)| ==> old(avoidList)[i].start <= old(avoidList)[i].end) ==>
        AvoidAdded(old(State()), start, size, State())
      ensures start + size < TWO_64 && Shown(old(avoidList)) ==> (Shown(avoidList) <==> start + size != 0)
    {
      ghost var l0 := avoidList;
      PutAvoid(start, size);
      if start + size < TWO_64 {
        if forall i :: 0 <= i < |l0| ==> l0[i].start <= l0[i].end {
          StepAdds(l0, start, size);
        }
        assert avoidList[|avoidList| - 1].end == start + size;
      }
      ok := |avoidList| <= MAX_AVOID_ENTRIES;
    }

    ghost predicate Valid()
      reads this, asinfo
    {
      && Sane(State())
      && |ramList| <= MAX_RAM_ENTRIES
      && |avoidList| <= MAX_AVOID_ENTRIES
      && mem.Length == PADDR_LIMIT
      && startupSize <= imageSize && imageStart + imageSize <= PADDR_LIMIT
      && asinfo.Valid()
    }

    /** ws_init: the two lists come first in the RAM behind the boot image, and neither they nor the
    startup program itself must be handed out. */
    method WsInit()
      requires mem.Length == PADDR_LIMIT && asinfo.Valid() && ramList == []
      requires 0 < startupSize <= imageSize && imageStart + imageSize <= PADDR_LIMIT
      modifies this`avoidList, this`earlyNext
      ensures Valid() && State() == InitialState(imageStart, imageSize, startupSize)
    {
      var next := Round(imageStart + imageSize, 8);
      earlyNext := next + 1024;
      avoidList := [Avoid(next, next + 1024)];
      PutAvoid(earlyNext, 3 * 1024);
      earlyNext := earlyNext + 3 * 1024;
      PutAvoid(imageStart, startupSize);
      InitialAvoidsSound(imageStart, imageSize, startupSize);
    }

    /** The part of the boot image that add_ram never leaves free. */
    ghost function Image(): Block
      requires startupSize <= imageSize
    {
      Block(imageStart + startupSize, imageSize - startupSize)
    }

    /** The new entry goes before entry r. */
    method Insert(r: nat, start: nat, size: nat)
      requires Canonical(ramList) && r <= |ramList| && size > 0
      requires forall i :: 0 <= i < r ==> ramList[i].addr <= start
      requires r < |ramList| ==> ramList[r].addr > start
      modifies this`ramList
      ensures Ordered(ramList) && |ramList| == |old(ramList)| + 1
      ensures Union(old(State()), start, size, State())
    {
      ghost var l0 := ramList;
      ramList := ramList[..r] + [Block(start, size)] + ramList[r..];
      forall x: nat
        ensures Covers(ramList, x) <==> Covers(l0, x) || start <= x < start + size
      {
        CoversInsert(l0, r, Block(start, size), x);
      }
    }

    /** One turn: block r joins the one before it, or stays. */
    method MergeAt(r0: nat) returns (r: nat)
      requires 1 <= r0 < |ramList| && Ordered(ramList) && Canonical(ramList[..r0])
      modifies this`ramList
      ensures 1 <= r <= |ramList| <= |old(ramList)| && |ramList| - r < |old(ramList)| - r0
      ensures Ordered(ramList) && Canonical(ramList[..r])
      ensures forall x: nat :: Covers(ramList, x) <==> Covers(old(ramList), x)
    {
      r := r0;
      var e := ramList[r - 1].End();
      var s := ramList[r].addr;
      if s <= e {
        if s + ramList[r].size > e {
          e := s + ramList[r].size;
        }
        ghost var l, m := ramList, r;
        MergeKeepsOrder(l, m, e);
        MergeKeepsSet(l, m, e);
        ramList := ramList[..r] + ramList[r + 1..];
        r := r - 1;
        assert ramList[r] == l[r];
        ramList := ramList[r := Block(ramList[r].addr, e - ramList[r].addr)];
        assert ramList == Merged(l, m, e);
      } else {
        GapKeeps(ramList, r);
      }
      r := r + 1;
    }

    /** The merging loop of add_mem. */
    method Coalesce()
      requires Ordered(ramList)
      modifies this`ramList
      ensures Canonical(ramList) && |ramList| <= |old(ramList)|
      ensures forall x: nat :: Covers(ramList, x) <==> Covers(old(ramList), x)
    {
      var r := 1;
      while r < |ramList|
        invariant 1 <= r && |ramList| <= |old(ramList)|
        invariant r <= |ramList| || |ramList| == 0
        invariant Ordered(ramList)
        invariant Canonical(ramList[..if r <= |ramList| then r else 0])
        invariant forall x: nat :: Covers(ramList, x) <==> Covers(old(ramList), x)
        decreases |ramList| - r
      {
        r := MergeAt(r);
      }
    }

    /** add_mem: insert in address order, then merge every pair that touches or overlaps. */
    method AddMem(start: nat, size: nat) returns (ok: bool)
      requires Canonical(ramList) && |ramList| <= MAX_RAM_ENTRIES
      modifies this`ramList
      ensures Canonical(ramList) && |ramList| <= MAX_RAM_ENTRIES && |ramList| <= |old(ramList)| + 1
      ensures ok <==> size == 0 || 16 * (|old(ramList)| + 1) <= 3 * 1024 - 16
      ensures !ok ==> ramList == old(ramList)
      ensures ok ==> Union(old(State()), start, size, State())
    {
      ok := true;
      if size > 0 {
        var r := 0;
        while r < |ramList| && ramList[r].addr <= start
          invariant 0 <= r <= |ramList|
          invariant forall i :: 0 <= i < r ==> ramList[i].addr <= start
        {
          r := r + 1;
        }
        if |ramList| >= MAX_RAM_ENTRIES {
          return false;
        }
        Insert(r, start, size);
        Coalesce();
      }
    }

    /** One turn of the free-list loop of alloc_ram: take [addr, end) out of block r. */
    method CarveBlock(r: nat, addr: nat, end: nat) returns (ok: bool, removed: bool)
      requires Canonical(ramList) && |ramList| <= MAX_RAM_ENTRIES && addr <= end && r < |ramList|
      modifies this`ramList
      ensures Canonical(ramList) && |ramList| <= MAX_RAM_ENTRIES
      ensures !ok <==> |old(ramList)| == MAX_RAM_ENTRIES && StrictlyInside(addr, end, old(ramList)[r])
      ensures !ok ==> |ramList| == MAX_RAM_ENTRIES
      ensures ok ==> forall x: nat :: Covers(ramList, x) <==>
        Covers(old(ramList), x) && !(old(ramList)[r].Has(x) && addr <= x < end)
      ensures ok && !Meets(addr, end, old(ramList)[r]) ==> ramList == old(ramList) && !removed
      ensures ok && removed ==> ramList == old(ramList)[..r] + old(ramList)[r + 1..]
      ensures ok && !removed && !StrictlyInside(addr, end, old(ramList)[r]) ==>
        && |ramList| == |old(ramList)| && !Meets(addr, end, ramList[r])
        && forall i :: 0 <= i < |ramList| && i != r ==> ramList[i] == old(ramList)[i]
    {
      ok, removed := true, false;
      var s := ramList[r].addr;
      var e := ramList[r].End();
      if (addr <= s && end > s) || (addr >= s && addr < e) || (end >= s && end < e) {
        if end > e { e := end; }
        if addr < s { s := addr; }
        ghost var l := ramList;
        if addr == s && end == e {
          ramList := ramList[..r] + ramList[r + 1..];
          RemoveCovers(l, r);
          removed := true;
        } else if addr == s {
          ramList := ramList[r := Block(end, e - end)];
          ReplaceCovers(l, r, Block(end, e - end));
        } else {
          ramList := ramList[r := Block(s, addr - s)];
          ReplaceCovers(l, r, Block(s, addr - s));
          if e != end {
            ok := AddMem(end, e - end);
            if ok {
              SplitBlock(l, ramList, r, addr, end);
            }
          }
        }
      }
    }

    /** The free-list loop of alloc_ram: take [addr, end) out of every block it meets. */
    method Carve(addr: nat, end: nat) returns (ok: bool)
      requires Canonical(ramList) && |ramList| <= MAX_RAM_ENTRIES && addr <= end
      modifies this`ramList
      ensures Canonical(ramList) && |ramList| <= MAX_RAM_ENTRIES
      ensures !ok <==> FullSplit(old(ramList), addr, end)
      ensures !ok ==> |ramList| == MAX_RAM_ENTRIES
      ensures ok ==> Difference(old(State()), addr, end - addr, State())
    {
      ok := true;
      var r := 0;
      ghost var l0 := ramList;
      ghost var stage := Whole;
      while r < |ramList|
        invariant 0 <= r && |ramList| <= MAX_RAM_ENTRIES && Carving(l0, ramList, addr, end, r, stage)
        decreases if stage.Split? then 0 else 1, |ramList| - r
      {
        ghost var l := ramList;
        var removed;
        ok, removed := CarveBlock(r, addr, end);
        if !ok {
          CarveFull(l0, l, addr, end, r, stage);
          return;
        }
        if !Meets(addr, end, l[r]) {
          CarveMissed(l0, l, addr, end, r, stage);
        } else if StrictlyInside(addr, end, l[r]) {
          CarveSplit(l0, l, ramList, addr, end, r, stage);
          stage := Split;
        } else if removed {
          CarveRemoved(l0, l, ramList, addr, end, r, stage);
          stage := Trimmed;
        } else {
          CarveTrimmed(l0, l, ramList, addr, end, r, stage);
          stage := Trimmed;
        }
        if !removed {
          r := r + 1;
        }
      }
      CarveDone(l0, ramList, addr, end, r, stage);
    }

    /** The avoid loop of the searches: what is left of the candidate [s0, e0). */
    method FoldAvoids(s0: nat, e0: nat) returns (r: Option<Span>)
      ensures r == Remainder(Visible(avoidList), Span(s0, e0))
    {
      var c := Span(s0, e0);
      var a := 0;
      ghost var seen := Visible(avoidList);
      assert seen[..0] == [];
      while a < |avoidList| && avoidList[a].end != 0
        invariant 0 <= a <= |seen|
        invariant Remainder(seen[..a], Span(s0, e0)) == Some(c)
      {
        VisibleNext(avoidList, a);
        assert seen[..a + 1][..a] == seen[..a];
        var f := FixSize(c, avoidList[a]);
        if f.None? {
          RemainderLost(seen, a + 1, Span(s0, e0));
          return None;
        }
        c := f.value;
        a := a + 1;
      }
      VisibleEnd(avoidList, a);
      assert seen[..a] == seen;
      r := Some(c);
    }

    /** One turn of the search: the place in block i, if it has one in the range. */
    method PlaceInBlock(i: nat, rangeStart: nat, rangeEnd: nat, size: nat, align: nat) returns (r: Option<nat>)
      requires Sane(State()) && i < |ramList| && (align == 0 || PowerOfTwo(align))
      ensures r.Some? && align > 0 ==> Available(State(), r.value, size)
      ensures r.Some? ==> rangeStart <= r.value && (rangeEnd > 0 ==> r.value + size <= rangeEnd && r.value < rangeEnd)
      ensures r.Some? && align > 0 ==> r.value % align == 0 || r.value == rangeStart
      ensures r.Some? && align == 0 ==> r.value == rangeStart
      ensures r.Some? && align > 0 && rangeStart == 0 ==>
        && Place(avoidList, ramList[i], r.value, size, align)
        && r.value == Round(Candidate(avoidList, ramList[i]).value.s, align)
      ensures r.None? && rangeStart == 0 && align > 0 ==> Passed(avoidList, ramList[i], size, align, rangeEnd)
      ensures r.None? && rangeStart == 0 && (rangeEnd == 0 || Below(ramList, rangeEnd)) ==> BlockFull(avoidList, ramList[i], size, align)
    {
      var f := FoldAvoids(ramList[i].addr, ramList[i].End());
      if f.None? {
        return None;
      }
      RemainderSound(Visible(avoidList), Span(ramList[i].addr, ramList[i].End()));
      var s, e := f.value.s, f.value.e;
      var addr := if align == 0 then 0 else Round(s, align);
      if align > 0 {
        RoundIsCeiling(s, align);
      }
      if rangeStart > 0 {
        if addr < rangeStart { addr := rangeStart; }
      }
      if rangeEnd > 0 {
        if e > rangeEnd { e := rangeEnd; }
      }
      if addr < e && size <= e - addr {
        if align > 0 {
          CandidateAvailable(State(), i, addr, size);
        }
        return Some(addr);
      }
      if rangeStart == 0 && align > 0 {
        NotHere(avoidList, ramList[i], size, align, rangeEnd);
      }
      r := None;
    }

    /** find_ram_in_range with no colouring (colour = mask = 0, the only use in the library). */
    method FindRamInRange(rangeStart: nat, rangeEnd: nat, size: nat, align: nat) returns (r: Option<nat>)
      requires Sane(State()) && (align == 0 || PowerOfTwo(align))
      ensures r.Some? && align > 0 ==> Available(State(), r.value, size)
      ensures r.Some? && rangeEnd > 0 ==> r.value + size <= rangeEnd
      ensures r.Some? ==> rangeStart <= r.value
      ensures r.Some? && align > 0 ==> r.value % align == 0 || r.value == rangeStart
      ensures r.Some? && align > 0 && rangeStart == 0 ==> Lowest(State(), r.value, size, align)
      ensures r.Some? && align == 0 ==> r.value == rangeStart
      ensures r.None? && rangeStart == 0 && (rangeEnd == 0 || Below(ramList, rangeEnd)) ==> NoRoom(State(), size, align)
    {
      var i := 0;
      while i < |ramList|
        invariant 0 <= i <= |ramList|
        invariant rangeStart == 0 && (rangeEnd == 0 || Below(ramList, rangeEnd)) ==>
          forall j :: 0 <= j < i ==> BlockFull(avoidList, ramList[j], size, align)
        invariant rangeStart == 0 && align > 0 ==>
          forall j :: 0 <= j < i ==> Passed(avoidList, ramList[j], size, align, rangeEnd)
      {
        r := PlaceInBlock(i, rangeStart, rangeEnd, size, align);
        if r.Some? {
          if rangeStart == 0 && align > 0 {
            FirstIsLowest(State(), i, r.value, size, align, rangeEnd);
          }
          return;
        }
        i := i + 1;
      }
      r := None;
    }

    /** find_ram over the whole address space. */
    method FindRam(size: nat, align: nat) returns (r: Option<nat>)
      requires Sane(State()) && (align == 0 || PowerOfTwo(align))
      ensures r.Some? && align > 0 ==> Available(State(), r.value, size) && r.value % align == 0 && Lowest(State(), r.value, size, align)
      ensures r.Some? && align == 0 ==> r.value == 0
      ensures r.None? ==> NoRoom(State(), size, align)
    {
      r := FindRamInRange(0, TWO_64 - 1, size, align);
    }

    /** The middle of find_top_ram_aligned_limit: the highest place that is left in block i, which
    starts at s. */
    method TopPlace(i: nat, size: nat, align: nat) returns (s: nat, chk: Option<nat>)
      requires Sane(State()) && i < |ramList|
      ensures IsTop(avoidList, ramList[i], chk, size, align)
      ensures chk.Some? ==> Candidate(avoidList, ramList[i]).value.s == s
    {
      s, chk := 0, None;
      var f := FoldAvoids(ramList[i].addr, ramList[i].End());
      if f.Some? && f.value.e - f.value.s >= size {
        s := f.value.s;
        var a := AlignDown(f.value.e - size, align);
        chk := if a >= s then Some(a) else None;
      }
    }

    /** Its loop. */
    method HighestBelow(size: nat, align: nat, limit: nat) returns (r: Option<nat>)
      requires Sane(State()) && size <= limit
      ensures r.Some? ==> Available(State(), r.value, size) && r.value + size <= limit
      ensures r.Some? ==> Aligned(r.value, align) || r.value + size == limit
      ensures NoneHigher(State(), |ramList|, if r.Some? then r.value else 0, size, align, limit)
    {
      var top: nat := 0;
      var i := 0;
      while i < |ramList|
        invariant 0 <= i <= |ramList|
        invariant top > 0 ==> Available(State(), top, size) && top + size < limit && Aligned(top, align)
        invariant NoneHigher(State(), i, top, size, align, limit)
      {
        var s, chk := TopPlace(i, size, align);
        var ptop := top;
        if chk.Some? && chk.value > top {
          top := chk.value;
          if top + size >= limit {
            top := limit - size;
            if top < s {
              top := ptop;
            } else {
              CandidateAvailable(State(), i, top, size);
            }
            HigherBlock(State(), i, ptop, chk, top, size, align, limit);
            RestIsHigher(State(), i, top, size, align, limit);
            break;
          }
          CandidateAvailable(State(), i, top, size);
        }
        HigherBlock(State(), i, ptop, chk, top, size, align, limit);
        i := i + 1;
      }
      r := if top == 0 then None else Some(top);
    }

    /** find_top_ram_aligned_limit: the highest place below limit, which for a candidate that reaches
    limit ends there, aligned or not. None means that there is no place but at address 0. */
    method FindTopRamAlignedLimit(size0: nat, align: nat, pagesize: nat, limit: nat) returns (r: Option<nat>)
      requires Sane(State()) && (align == 0 || PowerOfTwo(align)) && PowerOfTwo(pagesize) && pagesize > 0
      requires size0 <= limit ==> Round(size0, pagesize) <= limit
      ensures size0 > limit ==> r.None?
      ensures r.Some? ==> Available(State(), r.value, Round(size0, pagesize))
      ensures r.Some? ==> r.value + Round(size0, pagesize) <= limit
      ensures r.Some? ==> Aligned(r.value, align) || r.value + Round(size0, pagesize) == limit
      ensures size0 <= limit ==>
        NoneHigher(State(), |ramList|, if r.Some? then r.value else 0, Round(size0, pagesize), align, limit)
    {
      if limit < size0 {
        return None;
      }
      r := HighestBelow(Round(size0, pagesize), align, limit);
    }

    /** The "sysram" entries cover exactly the free list. */
    ghost predicate InStep()
      reads this, asinfo
      requires asinfo.Valid()
    {
      SysramIs(asinfo.entries, ramList)
    }

    /** A list that a call may have to extend is full. */
    ghost predicate Full()
      reads this, asinfo
    {
      |ramList| == MAX_RAM_ENTRIES || |avoidList| > MAX_AVOID_ENTRIES || |asinfo.entries| >= asinfo.capacity
    }

    /** Why a search for size bytes may fail: there is no place, a list is full, or a "sysram" entry is
    so short that the block, or all of 64 bits for size 0, would swallow it. */
    ghost predicate Refuses(size: nat, align: nat)
      reads this, asinfo
      requires asinfo.Valid()
    {
      NoRoom(State(), size, align) || Full() || (sysramAdded && ShortEntry(asinfo.entries, if size > 0 then size else TWO_64))
    }

    /** alloc_ram, on a system that is not secure. For NULL_PADDR (None) it searches first, and a
    search that finds nothing changes nothing. */
    method AllocRam(req: Option<nat>, size: nat, align: nat) returns (ok: bool, res: Option<nat>)
      requires Valid()
      requires req.Some? ==> req.value + size < TWO_64
      requires req.None? ==> align == 0 || PowerOfTwo(align)
      modifies this`ramList, asinfo
      ensures asinfo.Valid()
      ensures ok ==> Valid() && AllocStep(old(State()), req, size, align, res, State())
      ensures ok && (!sysramAdded || res.None?) ==> asinfo.entries == old(asinfo.entries)
      ensures ok && res.None? ==> req.None? && NoRoom(old(State()), size, align)
      ensures !ok ==> Full() || (sysramAdded && ShortEntry(asinfo.entries, if size > 0 then size else TWO_64))
      ensures ok && sysramAdded && res.Some? ==>
        && !AnySwallowed(old(asinfo.entries), res.value, LastByte(res.value, size))
        && forall x :: NameCovers(asinfo.entries, "sysram", x) <==>
             NameCovers(old(asinfo.entries), "sysram", x) && !(res.value <= x <= LastByte(res.value, size))
      ensures ok && sysramAdded && old(InStep()) ==> InStep()
      ensures !ok ==>
        || |old(ramList)| == MAX_RAM_ENTRIES
        || (sysramAdded && |asinfo.entries| >= asinfo.capacity)
        || (sysramAdded && res.Some? && AnySwallowed(old(asinfo.entries), res.value, LastByte(res.value, size)))
    {
      ok := true;
      ghost var s0 := State();
      CoveredBounded(ramList, PADDR_LIMIT);
      var addr;
      if req.None? {
        var found := FindRam(size, align);
        if found.None? {
          return true, None;
        }
        addr := found.value;
      } else {
        addr := req.value;
      }
      res := Some(addr);
      ok := Carve(addr, addr + size);
      if !ok {
        return;
      }
      BlocksBounded(ramList, PADDR_LIMIT);
      if sysramAdded {
        ghost var e0 := asinfo.entries;
        ok := TrimSysram(asinfo, addr, LastByte(addr, size));
        if ok && addr + size == 0 {
          NothingLeft(e0, s0.free);
        }
      }
    }

    /** calloc_ram: the new block is zero. */
    method CallocRam(size: nat, align: nat) returns (ok: bool, res: Option<nat>)
      requires Valid() && PowerOfTwo(align) && align > 0
      modifies this`ramList, asinfo, mem
      ensures ok ==> Valid() && AllocStep(old(State()), None, size, align, res, State())
      ensures ok && res.None? ==> mem[..] == old(mem[..])
      ensures ok && res.Some? ==> res.value + size <= PADDR_LIMIT && Filled(old(mem[..]), mem[..], res.value, size, 0)
      ensures ok && !sysramAdded ==> asinfo.entries == old(asinfo.entries)
      ensures asinfo.Valid() && (!ok || res.None? ==> Refuses(size, align))
      ensures ok ==> OnlyTook(old(State()), State(), old(mem[..]), mem[..])
    {
      ok, res := AllocRam(None, size, align);
      if ok && res.Some? {
        Memset(mem, res.value, 0, size);
      }
    }

    /** ws_alloc: bump allocation until the first add_ram, then a search that leaves the block free
    but avoided. */
    method WsAlloc(size: nat) returns (ok: bool, res: Option<nat>)
      requires Valid() && earlyNext + Round(size, 8) < TWO_64
      modifies this`avoidList, this`earlyNext
      ensures ok ==> Valid() && WsAllocStep(old(State()), size, res, State())
      ensures ok && res.None? ==> NoRoom(old(State()), Round(size, 8), 8)
      ensures !ok ==> |avoidList| > MAX_AVOID_ENTRIES
    {
      ok := true;
      RoundIsCeiling(size, 8);
      var n := Round(size, 8);
      var paddr;
      if |ramList| == 0 {
        paddr := earlyNext;
        earlyNext := earlyNext + n;
      } else {
        assert PowerOfTwo(4) && PowerOfTwo(8);
        var found := FindRam(n, 8);
        if found.None? {
          return true, None;
        }
        paddr := found.value;
      }
      res := Some(paddr);
      ok := AvoidRam(paddr, n);
    }

    /** Every free address lies in an entry called "ram". */
    ghost predicate Recorded()
      reads this, asinfo
      requires asinfo.Valid()
    {
      forall x: nat :: Covers(ramList, x) ==> NameCovers(asinfo.entries, "ram", x)
    }

    /** as_default() and the entry for the lowest 4G. */
    method FirstEntries(memoryEnd: nat) returns (ok: bool)
      requires asinfo.Valid() && asinfo.entries == []
      modifies asinfo
      ensures asinfo.Valid() && (!ok ==> |asinfo.entries| >= asinfo.capacity)
      ensures ok ==> asinfo.entries == [
        AsEntry(0, memoryEnd, None, "memory", Attr(false, false, true, false, 0), AS_PRIORITY_DEFAULT),
        AsEntry(0, 0xFFFF_FFFF, Some(0), "below4G", Attr(false, false, false, false, 0), AS_PRIORITY_DEFAULT)]
    {
      var root, low;
      ok, root := asinfo.AsAdd(0, memoryEnd, Attr(false, false, false, false, 0), "memory", None);
      if !ok {
        return;
      }
      ok, low := asinfo.AsAdd(0, 0xFFFF_FFFF, Attr(false, false, false, false, 0), "below4G", Some(root));
    }

    /** The asinfo side of add_ram. */
    method RecordRam(start: nat, size: nat, memoryEnd: nat) returns (ok: bool)
      requires asinfo.Valid()
      modifies asinfo
      ensures asinfo.Valid() && (!ok ==> |asinfo.entries| >= asinfo.capacity)
      ensures ok ==> forall x :: NameCovers(asinfo.entries, "ram", x) <==>
        || NameCovers(old(asinfo.entries), "ram", x)
        || (start <= x <= LastByte(start, size) && InMemory(old(asinfo.entries), memoryEnd, x))
      ensures ok ==> var n0 := if old(asinfo.entries) == [] then 2 else |old(asinfo.entries)|;
        && FiledFrom(asinfo.entries, n0, "ram", "memory")
        && forall i :: n0 <= i < |asinfo.entries| ==> !asinfo.entries[i].attr.kids
    {
      ok := true;
      if |asinfo.entries| == 0 {
        ok := FirstEntries(memoryEnd);
        if !ok {
          return;
        }
        FirstCover(asinfo.entries, memoryEnd);
      }
      ghost var before := asinfo.entries;
      var first;
      ghost var pieces;
      ok, first, pieces := asinfo.AddContaining(start, LastByte(start, size), Attr(false, false, false, true, 0), "ram", "memory");
      if ok {
        PiecesFiled(before, asinfo.entries, pieces, "ram", "memory");
        forall x
          ensures NameCovers(asinfo.entries, "ram", x) <==>
            NameCovers(before, "ram", x) || (start <= x <= LastByte(start, size) && NameCovers(before, "memory", x))
        {
          CoversAfterPieces(before, asinfo.entries, pieces, "ram", Attr(false, false, false, true, 0), "ram", x);
          assert RangeCovers(pieces, x) <==> start <= x <= LastByte(start, size) && NameCovers(before, "memory", x);
        }
      }
    }

    /** The end of add_ram: once there is RAM, find room for the temporary system page. */
    method PlaceTempSyspage() returns (ok: bool, ghost temp: Option<nat>)
      requires Valid()
      modifies this`avoidList, this`tempSyspage
      ensures ok ==> Valid()
      ensures !ok ==> |avoidList| > MAX_AVOID_ENTRIES
      ensures old(tempSyspage).Some? ==> tempSyspage == old(tempSyspage)
      ensures temp == if old(tempSyspage).None? then tempSyspage else None
      ensures tempSyspage.None? ==> NoRoom(old(State()), TEMP_SYSPAGE_SIZE, PAGE)
      ensures temp.None? ==> avoidList == old(avoidList)
      ensures temp.Some? ==>
        && Available(old(State()), temp.value, 48 * 1024)
        && Lowest(old(State()), temp.value, TEMP_SYSPAGE_SIZE, PAGE)
        && avoidList == AvoidStep(old(avoidList), temp.value, TEMP_SYSPAGE_SIZE)
    {
      ok, temp := true, None;
      if tempSyspage.None? {
        PageIsPowerOfTwo();
        tempSyspage := FindRam(TEMP_SYSPAGE_SIZE, PAGE);
        if tempSyspage.Some? {
          temp := tempSyspage;
          ok := AvoidRam(tempSyspage.value, TEMP_SYSPAGE_SIZE);
        }
      }
    }

    /** add_ram up to the reserved ranges: the new range is recorded and free, less the boot image. */
    method AddFree(start: nat, size: nat, memoryEnd: nat) returns (ok: bool)
      requires Valid() && (size > 0 ==> start + size <= PADDR_LIMIT)
      modifies this`ramList, asinfo
      ensures ok ==> Valid() && forall x: nat :: Covers(ramList, x) <==>
        (Covers(old(ramList), x) || start <= x < start + size) && !Image().Has(x)
      ensures !ok && !sysramAdded ==> Full()
      ensures ok && !sysramAdded && old(Recorded()) && (forall x :: start <= x < start + size ==> InMemory(old(asinfo.entries), memoryEnd, x)) ==>
        Recorded()
    {
      ok := RecordRam(start, size, memoryEnd);
      if !ok {
        return;
      }
      CoveredBounded(ramList, PADDR_LIMIT);
      ok := AddMem(start, size);
      if !ok {
        return;
      }
      BlocksBounded(ramList, PADDR_LIMIT);
      var res;
      ok, res := AllocRam(Some(imageStart + startupSize), imageSize - startupSize, 1);
    }

    /** add_ram without the watcher calls. memoryEnd is the last address as_default() would report. */
    method AddRam(start: nat, size: nat, memoryEnd: nat) returns (ok: bool, ghost temp: Option<nat>)
      requires Valid() && (size > 0 ==> start + size <= PADDR_LIMIT)
      modifies this`ramList, this`avoidList, this`tempSyspage, asinfo
      ensures ok ==> Valid() && AddRamStep(old(State()), start, size, Image(), old(tempSyspage).None?, temp, State())
      ensures ok ==> tempSyspage == if temp.Some? then temp else old(tempSyspage)
      ensures !ok && !sysramAdded ==> Full()
      ensures ok && !sysramAdded && old(Recorded()) && (forall x :: start <= x < start + size ==> InMemory(old(asinfo.entries), memoryEnd, x)) ==>
        Recorded()
    {
      temp := None;
      ok := AddFree(start, size, memoryEnd);
      if ok {
        ok, temp := PlaceTempSyspage();
      }
    }

    method AddSysramBlock(b: Block, ghost e0: seq<AsEntry>, ghost done: seq<Block>) returns (ok: bool)
      requires asinfo.Valid() && OwnersBelow(e0) && SysramSoFar(e0, asinfo.entries, done)
      requires Extends(e0, asinfo.entries) && FiledFrom(asinfo.entries, |e0|, "sysram", "ram")
      modifies asinfo
      ensures asinfo.Valid() && (!ok ==> |asinfo.entries| >= asinfo.capacity)
      ensures |old(asinfo.entries)| <= |asinfo.entries|
      ensures ok ==> Extends(old(asinfo.entries), asinfo.entries)
      ensures ok ==> Extends(e0, asinfo.entries) && FiledFrom(asinfo.entries, |e0|, "sysram", "ram")
      ensures ok ==> forall i :: |old(asinfo.entries)| <= i < |asinfo.entries| ==> !asinfo.entries[i].attr.kids
      ensures ok ==> SysramSoFar(e0, asinfo.entries, done + [b])
    {
      ghost var before := asinfo.entries;
      var first;
      ghost var pieces;
      ok, first, pieces := asinfo.AddContaining(b.addr, b.End() - 1, Attr(false, false, false, true, 0), "sysram", "ram");
      if ok {
        PiecesFiled(before, asinfo.entries, pieces, "sysram", "ram");
        FiledMore(|e0|, before, asinfo.entries, "sysram", "ram");
        ExtendsTrans(e0, before, asinfo.entries);
        SysramStep(e0, before, asinfo.entries, done, b, pieces, Attr(false, false, false, true, 0));
      }
    }

    /** The loop of add_sysram. */
    method AddSysramBlocks() returns (ok: bool)
      requires asinfo.Valid()
      modifies asinfo
      ensures asinfo.Valid() && (!ok ==> |asinfo.entries| >= asinfo.capacity)
      ensures ok ==> Extends(old(asinfo.entries), asinfo.entries)
      ensures ok ==> FiledFrom(asinfo.entries, |old(asinfo.entries)|, "sysram", "ram")
      ensures ok ==> SysramSoFar(old(asinfo.entries), asinfo.entries, ramList)
    {
      ghost var e0, done: seq<Block> := asinfo.entries, [];
      var i := 0;
      while i < |ramList|
        invariant 0 <= i <= |ramList| && asinfo.Valid() && done == ramList[..i]
        invariant SysramSoFar(e0, asinfo.entries, done)
        invariant Extends(e0, asinfo.entries) && FiledFrom(asinfo.entries, |e0|, "sysram", "ram")
      {
        ok := AddSysramBlock(ramList[i], e0, done);
        if !ok {
          return;
        }
        i, done := i + 1, done + [ramList[i]];
      }
      ok := true;
    }

    /** add_sysram: one "sysram" range per free block, inside the "ram" entries. */
    method AddSysram() returns (ok: bool)
      requires Valid()
      modifies asinfo, this`sysramAdded
      ensures ok ==> Valid() && sysramAdded
      ensures !ok ==> |asinfo.entries| >= asinfo.capacity
      ensures ok ==> Extends(old(asinfo.entries), asinfo.entries)
      ensures ok ==> FiledFrom(asinfo.entries, |old(asinfo.entries)|, "sysram", "ram")
      ensures ok ==> SysramSoFar(old(asinfo.entries), asinfo.entries, ramList)
      ensures ok && old(Recorded()) && (forall x :: !NameCovers(old(asinfo.entries), "sysram", x)) ==> InStep()
    {
      ghost var e0 := asinfo.entries;
      ok := AddSysramBlocks();
      if !ok {
        return;
      }
      if old(Recorded()) && forall x :: !NameCovers(e0, "sysram", x) {
        SoFarInStep(e0, asinfo.entries, ramList);
      }
      sysramAdded := true;
    }
  }
}
