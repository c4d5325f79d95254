/** AArch64 translation tables with 4K pages (lib/aarch64/aarch64_map.c; chapter D8 of the Arm
Architecture Reference Manual, DDI 0487): what a set of tables means, and what one store into a
table changes.

A table is a sequence of 512 descriptors kept under its physical address. Attribute bits are
abstract except for validity, type, the Contiguous bit and the permissions. */
module PageTable {
  import opened Align

  const ENTRIES: nat := 512

  /** CONTIG_PAGES (aarch64_map.c:31) */
  const CONTIG_PAGES: nat := 16

  /** Pages under one root: 39 bits of address space. */
  const ROOT_PAGES: nat := 0x800_0000

  /** PROT_ flags that reach a descriptor. */
  datatype Prot = Prot(write: bool, exec: bool, user: bool, nocache: bool, device: bool)

  /** Zero is the all-zero descriptor. PageDesc is both a level 3 page and a pointer to a table:
  set_pte makes the same bits for both. */
  datatype Desc = Zero | PageDesc(addr: nat, contig: bool, prot: Prot) | BlockDesc(addr: nat, prot: Prot)

  /** Address-space constants and recursive slots from aarch64/mmu.h, which is not part of this
  model: they stay parameters. */
  datatype Layout = Layout(userEnd: nat, startupBase: nat, l1Self: nat, l1Sys: nat, l2Self: nat) {
    predicate Sound() {
      && userEnd <= 0x80_0000_0000
      && TWO_64 - 0x80_0000_0000 <= startupBase < TWO_64 && startupBase % 4096 == 0
      && l1Self < ENTRIES && l1Sys < ENTRIES && l2Self < ENTRIES && l1Self != l1Sys
    }

    /** The address has a root table at all. */
    predicate Rooted(va: nat) {
      va < userEnd || startupBase <= va < TWO_64
    }

    /** Page n is not reached through a recursive self-map entry. */
    predicate Plain(high: bool, n: nat) {
      high ==> n / 0x4_0000 != l1Self && !(n / 0x4_0000 == l1Sys && n / 512 % 512 == l2Self)
    }
  }

  datatype Tables = Tables(mem: map<nat, seq<Desc>>, low: nat, high: nat) {
    function Root(isHigh: bool): nat {
      if isHigh then high else low
    }

    function Entry(table: nat, idx: nat): Desc {
      if table in mem && idx < |mem[table]| then mem[table][idx] else Zero
    }
  }

  datatype Walked = BadAddress | Unmapped | At(pa: nat, prot: Prot)

  /** The page number of an address under its root. */
  function PageNo(va: nat): nat {
    va / 4096 % 0x800_0000
  }

  function L1Idx(va: nat): nat { va / 0x4000_0000 % 512 }

  function L2Idx(va: nat): nat { va / 0x20_0000 % 512 }

  function L3Idx(va: nat): nat { va / 4096 % 512 }

  /** elf_vaddr_to_paddr; Unmapped is NULL_PADDR and BadAddress is its crash. */
  function Walk(layout: Layout, t: Tables, va: nat): Walked {
    if !layout.Rooted(va) then BadAddress
    else
      var d1 := t.Entry(t.Root(va >= layout.userEnd), L1Idx(va));
      match d1
      case Zero => Unmapped
      case BlockDesc(addr, prot) => At(addr + va % 0x4000_0000, prot)
      case PageDesc(t2, _, _) =>
        var d2 := t.Entry(t2, L2Idx(va));
        match d2
        case Zero => Unmapped
        case BlockDesc(addr, prot) => At(addr + va % 0x20_0000, prot)
        case PageDesc(t3, _, _) =>
          var d3 := t.Entry(t3, L3Idx(va));
          if d3.PageDesc? then At(d3.addr + va % 4096, d3.prot) else Unmapped
  }

  /** A block descriptor of level 1 maps its 1G to consecutive addresses. */
  lemma GigaBlockWalk(layout: Layout, t: Tables, va: nat, k: nat)
    requires va % 0x4000_0000 == 0 && k < 0x4000_0000 && layout.Rooted(va) && layout.Rooted(va + k)
    requires va < layout.userEnd <==> va + k < layout.userEnd
    requires t.Entry(t.Root(va >= layout.userEnd), L1Idx(va)).BlockDesc?
    ensures var d := t.Entry(t.Root(va >= layout.userEnd), L1Idx(va)); Walk(layout, t, va + k) == At(d.addr + k, d.prot)
  {
    assert (va + k) / 0x4000_0000 == va / 0x4000_0000 && (va + k) % 0x4000_0000 == k;
  }

  /** One of level 2 maps its 2M. */
  lemma MegaBlockWalk(layout: Layout, t: Tables, va: nat, k: nat)
    requires va % 0x20_0000 == 0 && k < 0x20_0000 && layout.Rooted(va) && layout.Rooted(va + k)
    requires va < layout.userEnd <==> va + k < layout.userEnd
    requires t.Entry(t.Root(va >= layout.userEnd), L1Idx(va)).PageDesc?
    requires t.Entry(t.Entry(t.Root(va >= layout.userEnd), L1Idx(va)).addr, L2Idx(va)).BlockDesc?
    ensures var d := t.Entry(t.Entry(t.Root(va >= layout.userEnd), L1Idx(va)).addr, L2Idx(va));
      Walk(layout, t, va + k) == At(d.addr + k, d.prot)
  {
    var b := va / 0x20_0000;
    assert (va + k) / 0x20_0000 == b && (va + k) % 0x20_0000 == k;
    assert (va + k) / 0x4000_0000 == b / 512 == va / 0x4000_0000;
  }

  /** The level 3 descriptor of page n, following table pointers only. */
  function LeafAt(t: Tables, high: bool, n: nat): Desc {
    var d1 := t.Entry(t.Root(high), n / 0x4_0000 % 512);
    if !d1.PageDesc? then Zero
    else
      var d2 := t.Entry(d1.addr, n / 512 % 512);
      if !d2.PageDesc? then Zero else t.Entry(d2.addr, n % 512)
  }

  /** Where a table hangs. */
  datatype Path = Top(high: bool) | Dir(high: bool, i: nat) | Leaf(high: bool, i: nat, j: nat)

  function Child(p: Path, k: nat): Path
    requires !p.Leaf?
  {
    if p.Top? then Dir(p.high, k) else Leaf(p.high, p.i, k)
  }

  /** The slots that aarch64_map_init points back at the tables themselves. */
  predicate SelfSlot(layout: Layout, p: Path, k: nat) {
    (p == Top(true) && k == layout.l1Self) || (p == Dir(true, layout.l1Sys) && k == layout.l2Self)
  }

  /** What pt_alloc makes: a pointer to a table that startup may write and nobody else may use. */
  predicate Pointer(d: Desc) {
    && d.PageDesc? && !d.contig && d.prot.write
    && !d.prot.exec && !d.prot.user && !d.prot.nocache && !d.prot.device
  }

  /** The tables form a tree: every table hangs at one path, and apart from the self slots every
  entry above level 3 is empty or points to the table that hangs there. */
  ghost predicate Tree(layout: Layout, t: Tables, owner: map<nat, Path>) {
    && t.mem.Keys == owner.Keys
    && (forall a :: a in t.mem ==> |t.mem[a]| == ENTRIES)
    && t.low in owner && owner[t.low] == Top(false)
    && t.high in owner && owner[t.high] == Top(true)
    && forall a, k :: a in t.mem && 0 <= k < ENTRIES && !owner[a].Leaf? && !SelfSlot(layout, owner[a], k) && t.mem[a][k] != Zero ==>
         && Pointer(t.mem[a][k])
         && t.mem[a][k].addr in owner && owner[t.mem[a][k].addr] == Child(owner[a], k)
  }

  /** The three table indices of an address are digits of its page number. */
  lemma IndexOfPage(va: nat)
    ensures L1Idx(va) == PageNo(va) / 0x4_0000 == PageNo(va) / 0x4_0000 % 512
    ensures L2Idx(va) == PageNo(va) / 512 % 512
    ensures L3Idx(va) == PageNo(va) % 512
    ensures PageNo(va) < ROOT_PAGES
  {
    var p := va / 4096;
    var q, n := p / 0x800_0000, PageNo(va);
    assert p == q * 0x800_0000 + n;
    assert va / 0x4000_0000 == p / 0x4_0000 == q * 512 + n / 0x4_0000;
    assert va / 0x20_0000 == p / 512 == q * 0x4_0000 + n / 512;
  }

  /** On a tree the walk of a plain address is its level 3 descriptor. */
  lemma WalkIsLeaf(layout: Layout, t: Tables, owner: map<nat, Path>, va: nat)
    requires layout.Sound() && Tree(layout, t, owner) && layout.Rooted(va)
    requires layout.Plain(va >= layout.userEnd, PageNo(va))
    ensures Walk(layout, t, va) ==
      var d := LeafAt(t, va >= layout.userEnd, PageNo(va));
      if d.PageDesc? then At(d.addr + va % 4096, d.prot) else Unmapped
  {
    var high, n := va >= layout.userEnd, PageNo(va);
    IndexOfPage(va);
    var root := t.Root(high);
    var d1 := t.Entry(root, L1Idx(va));
    assert owner[root] == Top(high);
    if d1 != Zero {
      assert owner[d1.addr] == Dir(high, L1Idx(va));
      assert !SelfSlot(layout, owner[d1.addr], L2Idx(va));
    }
  }

  /** Table leaf is the one a walk of the path (high, i, j) ends in. */
  ghost predicate Reaches(layout: Layout, t: Tables, owner: map<nat, Path>, high: bool, i: nat, j: nat, leaf: nat) {
    && i < ENTRIES && j < ENTRIES
    && !SelfSlot(layout, Top(high), i) && !SelfSlot(layout, Dir(high, i), j)
    && leaf in owner && owner[leaf] == Leaf(high, i, j)
    && t.Entry(t.Root(high), i).PageDesc?
    && t.Entry(t.Entry(t.Root(high), i).addr, j).PageDesc?
    && t.Entry(t.Entry(t.Root(high), i).addr, j).addr == leaf
  }

  function Store(t: Tables, table: nat, idx: nat, d: Desc): Tables
    requires table in t.mem && idx < |t.mem[table]|
  {
    t.(mem := t.mem[table := t.mem[table][idx := d]])
  }

  function NewTable(t: Tables, table: nat): Tables {
    t.(mem := t.mem[table := seq(ENTRIES, _ => Zero)])
  }

  /** The table that a plain level 1 or level 2 entry points to hangs below it. */
  lemma PathOwner(layout: Layout, t: Tables, owner: map<nat, Path>, a: nat, k: nat)
    requires Tree(layout, t, owner) && a in owner && !owner[a].Leaf? && k < ENTRIES
    requires !SelfSlot(layout, owner[a], k) && t.Entry(a, k) != Zero
    ensures t.Entry(a, k).PageDesc? && t.Entry(a, k).addr in owner && owner[t.Entry(a, k).addr] == Child(owner[a], k)
  {
    assert t.mem[a][k] == t.Entry(a, k);
  }

  /** Page n has digits i, j, k. */
  lemma Digits(n: nat)
    requires n < ROOT_PAGES
    ensures var i, j, k := n / 0x4_0000, n / 512 % 512, n % 512;
      i < 512 && i % 512 == i && n == (i * 512 + j) * 512 + k
  {
  }

  /** Two stores of tables that agree on every table but one give the same descriptor to a walk
  that does not end in that table. */
  lemma SameWalk(layout: Layout, t: Tables, t': Tables, owner: map<nat, Path>, h: bool, n: nat, changed: nat)
    requires layout.Sound() && Tree(layout, t, owner) && n < ROOT_PAGES && layout.Plain(h, n)
    requires t'.low == t.low && t'.high == t.high
    requires forall a :: a in t.mem && a != changed ==> a in t'.mem && t'.mem[a] == t.mem[a]
    requires changed in owner ==> owner[changed].Leaf?
    ensures
      || LeafAt(t', h, n) == LeafAt(t, h, n)
      || (changed in t.mem && Reaches(layout, t, owner, h, n / 0x4_0000, n / 512 % 512, changed) && LeafAt(t', h, n) == t'.Entry(changed, n % 512))
  {
    Digits(n);
    var i, j := n / 0x4_0000, n / 512 % 512;
    var root := t.Root(h);
    assert owner[root] == Top(h) && root != changed;
    var d1 := t.Entry(root, i);
    assert t'.Entry(root, i) == d1;
    if d1 != Zero {
      PathOwner(layout, t, owner, root, i);
      assert d1.addr != changed;
      var d2 := t.Entry(d1.addr, j);
      assert t'.Entry(d1.addr, j) == d2;
      if d2 != Zero {
        PathOwner(layout, t, owner, d1.addr, j);
      }
    }
  }

  /** The digits of a page number are unique. */
  lemma DigitsOf(i: nat, j: nat, k: nat)
    requires i < 512 && j < 512 && k < 512
    ensures var n := (i * 512 + j) * 512 + k; n / 0x4_0000 == i && n / 512 % 512 == j && n % 512 == k
  {
  }

  lemma StoreLeafAt(layout: Layout, t: Tables, owner: map<nat, Path>, high: bool, i: nat, j: nat, leaf: nat, k: nat, d: Desc, h: bool, n: nat)
    requires layout.Sound() && Tree(layout, t, owner) && k < ENTRIES
    requires Reaches(layout, t, owner, high, i, j, leaf)
    requires n < ROOT_PAGES && layout.Plain(h, n)
    ensures LeafAt(Store(t, leaf, k, d), h, n) == if h == high && n == (i * 512 + j) * 512 + k then d else LeafAt(t, h, n)
  {
    var t' := Store(t, leaf, k, d);
    var ni, nj, nk := n / 0x4_0000, n / 512 % 512, n % 512;
    Digits(n);
    DigitsOf(i, j, k);
    SameWalk(layout, t, t', owner, h, n, leaf);
    if h == high && ni == i && nj == j {
      assert LeafAt(t, h, n) == t.Entry(leaf, nk);
      assert t'.Entry(leaf, nk) == if nk == k then d else t.Entry(leaf, nk);
    } else {
      assert !Reaches(layout, t, owner, h, ni, nj, leaf);
    }
  }

  /** Storing a level 3 descriptor changes the translation of one page. */
  lemma StoreLeaf(layout: Layout, t: Tables, owner: map<nat, Path>, high: bool, i: nat, j: nat, leaf: nat, k: nat, d: Desc)
    requires layout.Sound() && Tree(layout, t, owner) && k < ENTRIES
    requires Reaches(layout, t, owner, high, i, j, leaf)
    ensures Tree(layout, Store(t, leaf, k, d), owner)
    ensures Reaches(layout, Store(t, leaf, k, d), owner, high, i, j, leaf)
    ensures forall h, n :: 0 <= n < ROOT_PAGES && layout.Plain(h, n) ==>
      LeafAt(Store(t, leaf, k, d), h, n) == if h == high && n == (i * 512 + j) * 512 + k then d else LeafAt(t, h, n)
  {
    var t' := Store(t, leaf, k, d);
    forall h, n | 0 <= n < ROOT_PAGES && layout.Plain(h, n)
      ensures LeafAt(t', h, n) == if h == high && n == (i * 512 + j) * 512 + k then d else LeafAt(t, h, n)
    {
      StoreLeafAt(layout, t, owner, high, i, j, leaf, k, d, h, n);
    }
  }

  lemma HangTableAt(layout: Layout, t: Tables, t': Tables, owner: map<nat, Path>, parent: nat, idx: nat, table: nat, h: bool, n: nat)
    requires layout.Sound() && Tree(layout, t, owner)
    requires parent in t.mem && idx < ENTRIES && t.mem[parent][idx] == Zero && table !in t.mem && !owner[parent].Leaf?
    requires t'.low == t.low && t'.high == t.high
    requires forall a, k :: a in t.mem && 0 <= k < ENTRIES && !(a == parent && k == idx) ==> t'.Entry(a, k) == t.Entry(a, k)
    requires t'.Entry(parent, idx).PageDesc? && t'.Entry(parent, idx).addr == table
    requires forall k :: t'.Entry(table, k) == Zero
    requires n < ROOT_PAGES && layout.Plain(h, n)
    ensures LeafAt(t', h, n) == LeafAt(t, h, n)
  {
    Digits(n);
    var i, j := n / 0x4_0000, n / 512 % 512;
    var root := t.Root(h);
    var d1 := t.Entry(root, i);
    if d1 != Zero {
      PathOwner(layout, t, owner, root, i);
      assert t'.Entry(root, i) == d1;
      var d2 := t.Entry(d1.addr, j);
      if d2 != Zero {
        assert !SelfSlot(layout, Dir(h, i), j);
        PathOwner(layout, t, owner, d1.addr, j);
        assert t'.Entry(d1.addr, j) == d2;
        assert t'.Entry(d2.addr, n % 512) == t.Entry(d2.addr, n % 512);
      }
    }
  }

  /** Hanging a fresh empty table into an empty slot changes no translation. */
  lemma HangTable(layout: Layout, t: Tables, owner: map<nat, Path>, parent: nat, idx: nat, table: nat, prot: Prot)
    requires layout.Sound() && Tree(layout, t, owner)
    requires parent in t.mem && idx < ENTRIES && t.mem[parent][idx] == Zero
    requires !owner[parent].Leaf? && !SelfSlot(layout, owner[parent], idx) && table !in t.mem
    requires Pointer(PageDesc(table, false, prot))
    ensures var t' := Store(NewTable(t, table), parent, idx, PageDesc(table, false, prot));
      && Tree(layout, t', owner[table := Child(owner[parent], idx)])
      && forall h, n :: 0 <= n < ROOT_PAGES && layout.Plain(h, n) ==> LeafAt(t', h, n) == LeafAt(t, h, n)
  {
    var t' := Store(NewTable(t, table), parent, idx, PageDesc(table, false, prot));
    forall h, n | 0 <= n < ROOT_PAGES && layout.Plain(h, n)
      ensures LeafAt(t', h, n) == LeafAt(t, h, n)
    {
      HangTableAt(layout, t, t', owner, parent, idx, table, h, n);
    }
  }
}
