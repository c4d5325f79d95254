/** Loading a 64-bit ELF image through the page tables (lib/elf64.c:56-120, lib/aarch64/elf_map.c). */
module Elf {
  import opened Align
  import opened Blocks
  import opened Options
  import opened Memory
  import opened Ram
  import opened PageTable
  import opened MapTables

  /** A program header. load says that p_type is PT_LOAD; r, w and x are the bits of p_flags. */
  datatype Phdr = Phdr(load: bool, offset: nat, vaddr: nat, paddr: nat, filesz: nat, memsz: nat, r: bool, w: bool, x: bool) {
    function Off(): nat {
      vaddr % 4096
    }

    /** Where the mapping of the segment starts. */
    function Start(): nat {
      TruncPg(vaddr)
    }

    /** How many bytes of whole pages it takes. */
    function Span(): nat {
      RoundPg(memsz + Off())
    }

    /** elf_map's translation of p_flags; set_pte does not look at PROT_READ. */
    function Protection(): Prot {
      Prot(w, x, false, false, false)
    }

    /** The file size load_elf64mmu works with: whole pages for read-only segments without a tail. */
    function PaddedFile(): nat {
      if !w && memsz == filesz then RoundPg(filesz + Off()) else filesz + Off()
    }

    /** How many bytes of its pages come from the image; the rest are zeros. The last page of a segment
    without a tail is taken whole, unless it is a writable one that is copied. */
    function FilePart(): nat {
      if memsz == filesz && (paddr != 0 || !w) then Span() else filesz + Off()
    }

    /** How many bytes of whole pages stay where the image has them. */
    function StayPart(): nat {
      if paddr == 0 then 0 else if memsz == filesz then Span() else TruncPg(filesz + Off())
    }

    /** Virtual ranges of two segments share no page. */
    predicate PageDisjoint(other: Phdr) {
      Start() + Span() <= other.Start() || other.Start() + other.Span() <= Start()
    }
  }

  /** Bytes of [a, a + size) are neither free nor in a table. */
  ghost predicate Steady(m: Machine, a: nat, size: nat) {
    forall x: nat :: a <= x < a + size ==> Untouchable(m, x)
  }

  /** What the loader needs to know about a segment of the image at addr, in the machine m it starts on. */
  ghost predicate Loadable(layout: Layout, m: Machine, addr: nat, p: Phdr) {
    && p.filesz <= p.memsz
    && p.Start() + p.Span() < TWO_64 && SpanPlain(layout, p.Start(), p.Span())
    && p.Span() <= PADDR_LIMIT
    && (p.paddr != 0 ==>
          && p.paddr % 4096 == p.vaddr % 4096
          && TruncPg(p.paddr) + RoundPg(p.filesz + p.Off()) <= PADDR_LIMIT
          && Steady(m, p.paddr, p.filesz))
    && (p.paddr == 0 ==>
          && p.Off() <= addr + p.offset
          && addr + p.offset - p.Off() + p.PaddedFile() <= PADDR_LIMIT
          && Steady(m, addr + p.offset, p.filesz)
          && (p.PaddedFile() == 0 || ChunkSize(p.PaddedFile()) > 0)
          && (p.PaddedFile() < TWO_32 || Reserved(m.free, addr + p.offset - p.Off(), p.PaddedFile())))
  }

  /** Where the image at addr has byte j of the segment. */
  function FileByte(p: Phdr, addr: nat, j: nat): nat {
    (if p.paddr != 0 then p.paddr else addr + p.offset) + j
  }

  /** Byte j of the segment: from the file up to filesz, zero behind it. */
  function ImageByte(image: seq<byte>, addr: nat, p: Phdr, j: nat): byte
    requires j < p.filesz ==> FileByte(p, addr, j) < |image|
  {
    if j < p.filesz then image[FileByte(p, addr, j)] else 0
  }

  ghost predicate InImage(image: seq<byte>, addr: nat, p: Phdr) {
    FileByte(p, addr, p.filesz) <= |image|
  }

  /** The permissions are those that the header asks for: writable for PF_W, executable for PF_X, and
  nothing else. */
  ghost predicate Grants(prot: Prot, p: Phdr) {
    && (prot.write <==> p.w) && (prot.exec <==> p.x)
    && !prot.user && !prot.nocache && !prot.device
  }

  ghost predicate ByteLoaded(layout: Layout, m: Machine, va: nat, p: Phdr, b: byte) {
    && PlainAddress(layout, va)
    && var w := Walk(layout, m.tables, va);
       w.At? && Grants(w.prot, p) && w.pa < |m.mem| && Untouchable(m, w.pa) && m.mem[w.pa] == b
  }

  /** The segment can be read through the tables: every byte of it is mapped with the segment's
  permissions to memory that is neither free nor in a table and holds the right value. */
  ghost predicate Loaded(layout: Layout, m: Machine, image: seq<byte>, addr: nat, p: Phdr)
    requires InImage(image, addr, p)
  {
    forall j: nat :: j < p.memsz ==> ByteLoaded(layout, m, p.vaddr + j, p, ImageByte(image, addr, p, j))
  }

  /** Where the image has the page that the segment starts in. */
  function PageSource(p: Phdr, addr: nat): int {
    if p.paddr != 0 then TruncPg(p.paddr) else addr + p.offset - p.Off()
  }

  /** Byte k of the pages of the segment: what the image had there when loading began on m0, or zero.
  Bytes around the segment that were free or in a table then may be anything. */
  ghost predicate PageByte(layout: Layout, m: Machine, m0: Machine, addr: nat, p: Phdr, k: nat) {
    && PlainAddress(layout, p.Start() + k)
    && var w, from := Walk(layout, m.tables, p.Start() + k), PageSource(p, addr) + k;
    && w.At? && Grants(w.prot, p) && w.pa < |m.mem|
    && (k >= p.FilePart() ==> Untouchable(m, w.pa) && m.mem[w.pa] == 0)
    && (k < p.FilePart() && 0 <= from < |m0.mem| && Untouchable(m0, from) ==> Untouchable(m, w.pa) && m.mem[w.pa] == m0.mem[from])
    && (k < p.StayPart() ==> w.pa == from)
  }

  /** All pages of the segment are there. */
  ghost predicate Paged(layout: Layout, m: Machine, m0: Machine, addr: nat, p: Phdr) {
    forall k: nat :: k < p.Span() ==> PageByte(layout, m, m0, addr, p, k)
  }

  lemma PageByteIsLoaded(layout: Layout, m: Machine, m0: Machine, addr: nat, p: Phdr, j: nat)
    requires j < p.memsz && PageByte(layout, m, m0, addr, p, p.Off() + j) && InImage(m0.mem, addr, p) && p.filesz <= p.memsz
    requires Steady(m0, FileByte(p, addr, 0), p.filesz) && (p.paddr != 0 ==> p.paddr % 4096 == p.vaddr % 4096)
    ensures ByteLoaded(layout, m, p.vaddr + j, p, ImageByte(m0.mem, addr, p, j))
  {
    assert p.vaddr + j == p.Start() + (p.Off() + j);
    assert j < p.filesz ==> Untouchable(m0, FileByte(p, addr, j)) && FileByte(p, addr, j) == PageSource(p, addr) + (p.Off() + j);
  }

  /** So the segment can be read. */
  lemma PagedIsLoaded(layout: Layout, m: Machine, m0: Machine, addr: nat, p: Phdr)
    requires Paged(layout, m, m0, addr, p) && InImage(m0.mem, addr, p) && p.filesz <= p.memsz
    requires Steady(m0, FileByte(p, addr, 0), p.filesz) && (p.paddr != 0 ==> p.paddr % 4096 == p.vaddr % 4096)
    ensures Loaded(layout, m, m0.mem, addr, p)
  {
    forall j: nat | j < p.memsz
      ensures ByteLoaded(layout, m, p.vaddr + j, p, ImageByte(m0.mem, addr, p, j))
    {
      PageByteIsLoaded(layout, m, m0, addr, p, j);
    }
  }

  lemma StaysUntouchable(m: Machine, m': Machine, x: nat)
    requires Grew(m, m') && Untouchable(m, x) && x < |m.mem|
    ensures Untouchable(m', x) && m'.mem[x] == m.mem[x]
  {
  }

  /** Later maps and allocations leave the pages of a loaded segment as they are. */
  lemma PagedStays(layout: Layout, m: Machine, m': Machine, m0: Machine, addr: nat, p: Phdr, va: nat, bytes: nat)
    requires Paged(layout, m, m0, addr, p) && OthersKept(layout, m.tables, m'.tables, va, bytes) && Grew(m, m')
    requires p.Start() + p.Span() <= va || va + bytes <= p.Start()
    ensures Paged(layout, m', m0, addr, p)
  {
    forall k: nat | k < p.Span()
      ensures PageByte(layout, m', m0, addr, p, k)
    {
      assert PageByte(layout, m, m0, addr, p, k);
      var pa := Walk(layout, m.tables, p.Start() + k).pa;
      if Untouchable(m, pa) {
        StaysUntouchable(m, m', pa);
      }
    }
  }

  /** Pages behind the first F bytes of a plain span. */
  lemma SubSpanPlain(layout: Layout, va: nat, front: nat, bytes: nat)
    requires layout.Sound() && va % 4096 == 0 && front % 4096 == 0 && bytes % 4096 == 0 && front <= bytes
    requires SpanPlain(layout, va, bytes) && !RangeCrash(layout, va, front)
    ensures SpanPlain(layout, va, front) && SpanPlain(layout, va + front, bytes - front)
  {
    PageNoOfAddress(layout, va);
    if layout.Rooted(va + front) {
      PageNoOfAddress(layout, va + front);
    }
  }

  /** The arithmetic of load_elf64mmu for a segment that is used in place: front bytes of whole
  pages come from the image, the rest needs tail fresh bytes, of which carried come from the file. */
  datatype Plan = Plan(front: nat, tail: nat, carried: nat)

  function InPlacePlan(p: Phdr): (r: Plan)
    requires p.filesz <= p.memsz
  {
    var memsz := p.memsz + p.Off();
    var filesz := p.filesz + p.Off();
    var padded := (!p.w && memsz == filesz) || p.memsz == p.filesz;
    var filesz' := if padded then RoundPg(filesz) else filesz;
    var memsz' := if padded then RoundPg(filesz) else memsz;
    var front := TruncPg(filesz');
    Plan(front, RoundPg(memsz' - front), filesz' % 4096)
  }

  /** front and tail cover the span, front holds file bytes only, and the file bytes behind front
  are exactly the carried ones. */
  predicate PlanFits(p: Phdr, q: Plan) {
    && q.front % 4096 == 0 && q.tail % 4096 == 0 && q.carried < 4096
    && q.front + q.tail == p.Span()
    && q.front + q.carried <= RoundPg(p.filesz + p.Off())
    && q.front == p.StayPart()
    && (q.tail > 0 ==> q.front + q.carried == p.filesz + p.Off() == p.FilePart() && q.carried <= q.tail)
  }

  lemma PlanCovers(p: Phdr)
    requires p.filesz <= p.memsz && p.paddr != 0
    ensures PlanFits(p, InPlacePlan(p))
  {
  }

  /** The tail of a plan can be copied and mapped. */
  lemma TailFits(layout: Layout, p: Phdr, q: Plan)
    requires layout.Sound() && PlanFits(p, q) && q.tail > 0
    requires TruncPg(p.paddr) + RoundPg(p.filesz + p.Off()) <= PADDR_LIMIT
    requires p.Start() + p.Span() < TWO_64 && SpanPlain(layout, p.Start(), p.Span()) && !RangeCrash(layout, p.Start(), q.front)
    ensures q.carried < 4096 && q.carried <= q.tail && q.tail % 4096 == 0
    ensures TruncPg(p.paddr) + q.front + q.carried <= PADDR_LIMIT
    ensures (p.Start() + q.front) % 4096 == 0 && p.Start() + q.front < TWO_64
    ensures SpanPlain(layout, p.Start() + q.front, q.tail)
  {
    SubSpanPlain(layout, p.Start(), q.front, p.Span());
  }

  /** Byte k behind dst is zero, or the byte k behind src if that one was not free. */
  ghost predicate CopiedByte(m: Machine, m': Machine, dst: nat, src: nat, len: nat, k: nat) {
    && dst + k < |m'.mem|
    && (k >= len ==> m'.mem[dst + k] == 0)
    && (k < len ==> src + k < |m.mem| && (!Covers(m.free, src + k) ==> m'.mem[dst + k] == m.mem[src + k]))
  }

  /** The block [dst, dst + total) was taken from the allocator and received len bytes from src,
  then zeros. */
  ghost predicate Copied(m: Machine, m': Machine, dst: nat, total: nat, src: nat, len: nat) {
    && dst % 4096 == 0 && dst + total <= PADDR_LIMIT
    && Steady(m', dst, total)
    && forall k: nat :: k < total ==> CopiedByte(m, m', dst, src, len, k)
  }

  /** A byte of a fresh block that was mapped at va: m0 is the machine loading began on, m1 and m2 the
  ones around the copy, and m3 the one behind the map. */
  lemma FreshByte(layout: Layout, prot: Prot, m0: Machine, m1: Machine, m2: Machine, m3: Machine,
                  va: nat, daddr: nat, total: nat, src: nat, len: nat, k: nat)
    requires Grew(m0, m1) && Grew(m2, m3) && k < total
    requires Copied(m1, m2, daddr, total, src, len) && Translated(layout, m3.tables, va, total, daddr, prot)
    ensures Walk(layout, m3.tables, va + k) == At(daddr + k, prot) && daddr + k < |m3.mem| && Untouchable(m3, daddr + k)
    ensures k >= len ==> m3.mem[daddr + k] == 0
    ensures k < len && src + k < |m0.mem| && Untouchable(m0, src + k) ==> m3.mem[daddr + k] == m0.mem[src + k]
  {
    if k < len && src + k < |m0.mem| && Untouchable(m0, src + k) {
      StaysUntouchable(m0, m1, src + k);
    }
    assert CopiedByte(m1, m2, daddr, src, len, k);
    StaysUntouchable(m2, m3, daddr + k);
    assert Walk(layout, m3.tables, va + k) == At(daddr + ((va + k) - va), prot);
  }

  /** The front is mapped where the image has it, also behind the map of the tail. */
  lemma FrontMapped(layout: Layout, t1: Tables, t3: Tables, va: nat, pa: nat, prot: Prot, q: Plan, k: nat)
    requires k < q.front && PlainAddress(layout, va + k) && Translated(layout, t1, va, q.front, pa, prot)
    requires t3 == t1 || OthersKept(layout, t1, t3, va + q.front, q.tail)
    ensures Walk(layout, t3, va + k) == At(pa + k, prot)
  {
    assert Walk(layout, t1, va + k) == At(pa + (va + k - va), prot);
  }

  /** A byte of the front: it stays where the image has it. */
  lemma FrontByte(layout: Layout, p: Phdr, addr: nat, m0: Machine, m3: Machine, q: Plan, k: nat)
    requires p.paddr != 0 && p.paddr % 4096 == p.vaddr % 4096 && PlanFits(p, q) && p.filesz <= p.memsz
    requires k < q.front && PlainAddress(layout, p.Start() + k) && TruncPg(p.paddr) + k < |m0.mem|
    requires Grew(m0, m3) && Walk(layout, m3.tables, p.Start() + k) == At(TruncPg(p.paddr) + k, p.Protection())
    ensures PageByte(layout, m3, m0, addr, p, k)
  {
    var x := TruncPg(p.paddr) + k;
    if Untouchable(m0, x) {
      StaysUntouchable(m0, m3, x);
    }
  }

  /** A byte behind the front: it is in a fresh copy of what the image has behind the front. */
  lemma TailByte(layout: Layout, p: Phdr, addr: nat, m0: Machine, m1: Machine, m2: Machine, m3: Machine, q: Plan, daddr: nat,
                 k: nat)
    requires p.paddr != 0 && PlanFits(p, q) && q.front <= k < p.Span() && PlainAddress(layout, p.Start() + k)
    requires Grew(m0, m1) && Grew(m2, m3)
    requires Copied(m1, m2, daddr, q.tail, TruncPg(p.paddr) + q.front, q.carried)
    requires Translated(layout, m3.tables, p.Start() + q.front, q.tail, daddr, p.Protection())
    ensures PageByte(layout, m3, m0, addr, p, k)
  {
    var i := k - q.front;
    FreshByte(layout, p.Protection(), m0, m1, m2, m3, p.Start() + q.front, daddr, q.tail, TruncPg(p.paddr) + q.front, q.carried, i);
    assert p.Start() + q.front + i == p.Start() + k && TruncPg(p.paddr) + q.front + i == PageSource(p, addr) + k;
  }

  /** The in-place case: front pages mapped to the image, tail pages to a fresh copy. m1 is the machine
  after the first map, m2 the one after the copy and m3 the last. */
  lemma InPlacePaged(layout: Layout, p: Phdr, addr: nat, m0: Machine, m1: Machine, m2: Machine, m3: Machine, q: Plan, daddr: nat)
    requires PlanFits(p, q) && p.paddr != 0 && p.paddr % 4096 == p.vaddr % 4096 && p.filesz <= p.memsz
    requires TruncPg(p.paddr) + q.front <= |m0.mem|
    requires forall a :: p.Start() <= a < p.Start() + p.Span() ==> PlainAddress(layout, a)
    requires Grew(m0, m1) && Grew(m1, m2) && Grew(m2, m3)
    requires Translated(layout, m1.tables, p.Start(), q.front, TruncPg(p.paddr), p.Protection())
    requires q.tail == 0 ==> m3.tables == m1.tables
    requires q.tail > 0 ==>
      && OthersKept(layout, m1.tables, m3.tables, p.Start() + q.front, q.tail)
      && Copied(m1, m2, daddr, q.tail, TruncPg(p.paddr) + q.front, q.carried)
      && Translated(layout, m3.tables, p.Start() + q.front, q.tail, daddr, p.Protection())
    ensures Paged(layout, m3, m0, addr, p) && Grew(m1, m3)
  {
    GrewTrans(m1, m2, m3);
    GrewTrans(m0, m1, m3);
    forall k: nat | k < p.Span()
      ensures PageByte(layout, m3, m0, addr, p, k)
    {
      if k < q.front {
        FrontMapped(layout, m1.tables, m3.tables, p.Start(), TruncPg(p.paddr), p.Protection(), q, k);
        FrontByte(layout, p, addr, m0, m3, q, k);
      } else {
        TailByte(layout, p, addr, m0, m1, m2, m3, q, daddr, k);
      }
    }
  }

  /** A byte of a segment that is copied as a whole. */
  lemma WholeByte(layout: Layout, p: Phdr, addr: nat, m0: Machine, m1: Machine, m2: Machine, m3: Machine, daddr: nat, k: nat)
    requires p.paddr == 0 && p.filesz <= p.memsz && p.Off() <= addr + p.offset
    requires k < p.Span() && PlainAddress(layout, p.Start() + k) && Grew(m0, m1) && Grew(m2, m3)
    requires Copied(m1, m2, daddr, p.Span(), addr + p.offset - p.Off(), p.PaddedFile())
    requires Translated(layout, m3.tables, p.Start(), p.Span(), daddr, p.Protection())
    ensures PageByte(layout, m3, m0, addr, p, k)
  {
    FreshByte(layout, p.Protection(), m0, m1, m2, m3, p.Start(), daddr, p.Span(), addr + p.offset - p.Off(), p.PaddedFile(), k);
  }

  /** The copied case: the whole segment is mapped to a fresh copy of the file. */
  lemma CopiedPaged(layout: Layout, p: Phdr, addr: nat, m0: Machine, m1: Machine, m2: Machine, m3: Machine, daddr: nat)
    requires layout.Sound() && p.paddr == 0 && Loadable(layout, m0, addr, p)
    requires forall a :: p.Start() <= a < p.Start() + p.Span() ==> PlainAddress(layout, a)
    requires Grew(m0, m1) && Grew(m2, m3)
    requires Copied(m1, m2, daddr, p.Span(), addr + p.offset - p.Off(), p.PaddedFile())
    requires Translated(layout, m3.tables, p.Start(), p.Span(), daddr, p.Protection())
    ensures Paged(layout, m3, m0, addr, p)
  {
    forall k: nat | k < p.Span()
      ensures PageByte(layout, m3, m0, addr, p, k)
    {
      WholeByte(layout, p, addr, m0, m1, m2, m3, daddr, k);
    }
  }

  /** A fresh block was free, so it shares no byte with reserved memory. */
  lemma ApartFromReserved(s: RamState, daddr: nat, total: nat, src: nat, len: nat)
    requires Reserved(s.free, src, len) && 0 < total && forall x: nat :: daddr <= x < daddr + total ==> Covers(s.free, x)
    requires len <= total
    ensures daddr <= src || src + len <= daddr
  {
    assert Covers(s.free, daddr);
  }

  lemma FreeInNoTable(bits: Coding, m: Machine)
    requires Backed(bits, m)
    ensures forall x: nat :: Covers(m.free, x) ==> !InTables(m.tables, x)
  {
    forall x: nat | InTables(m.tables, x)
      ensures !Covers(m.free, x)
    {
      assert Reserved(m.free, TruncPg(x), 4096);
      assert TruncPg(x) <= x < TruncPg(x) + 4096;
    }
  }

  /** calloc_ram and a copy into its block: the tables stay, and the block is in none of them. */
  lemma CopiedBytes(bits: Coding, t: Tables, s: RamState, m: seq<byte>, s': RamState, m1: seq<byte>, m2: seq<byte>,
                    daddr: nat, total: nat, src: nat, len: nat)
    requires daddr % 4096 == 0 && len <= total && daddr + total <= PADDR_LIMIT
    requires Difference(s, daddr, total, s') && forall x: nat :: daddr <= x < daddr + total ==> Covers(s.free, x)
    requires Filled(m, m1, daddr, total, 0) && Moved(m1, m2, daddr, src, len)
    requires Backed(bits, Machine(t, s.free, m))
    ensures Copied(Machine(t, s.free, m), Machine(t, s'.free, m2), daddr, total, src, len)
    ensures OnlyTook(s, s', m, m2)
  {
    FreeInNoTable(bits, Machine(t, s.free, m));
    forall k: nat | k < total
      ensures CopiedByte(Machine(t, s.free, m), Machine(t, s'.free, m2), daddr, src, len, k)
    {
      if k < len {
        assert m2[daddr + k] == m1[src + (daddr + k - daddr)];
        assert m1[src + k] == m[src + k] || daddr <= src + k < daddr + total;
      } else {
        assert m2[daddr + k] == m1[daddr + k];
      }
    }
  }

  /** The front of a plan can be mapped. */
  lemma FrontFits(layout: Layout, p: Phdr, q: Plan)
    requires PlanFits(p, q) && p.Start() + p.Span() < TWO_64 && SpanPlain(layout, p.Start(), p.Span())
    requires TruncPg(p.paddr) + RoundPg(p.filesz + p.Off()) <= PADDR_LIMIT
    ensures p.Start() % 4096 == 0 && TruncPg(p.paddr) % 4096 == 0 && p.Start() < TWO_64
    ensures q.front == RoundPg(q.front) && TruncPg(p.paddr) + q.front <= PADDR_LIMIT
    ensures SpanPlain(layout, p.Start(), q.front)
  {
  }

  ghost predicate AllLoaded(layout: Layout, m: Machine, image: seq<byte>, addr: nat, phdrs: seq<Phdr>) {
    forall i :: 0 <= i < |phdrs| && phdrs[i].load ==>
      InImage(image, addr, phdrs[i]) && Loaded(layout, m, image, addr, phdrs[i])
  }

  ghost predicate AllPaged(layout: Layout, m: Machine, m0: Machine, addr: nat, phdrs: seq<Phdr>) {
    forall i :: 0 <= i < |phdrs| && phdrs[i].load ==> Paged(layout, m, m0, addr, phdrs[i])
  }

  /** Loading segment i leaves the earlier ones, which share no page with it, loaded. */
  lemma AllPagedStep(layout: Layout, m: Machine, m': Machine, m0: Machine, addr: nat, phdrs: seq<Phdr>, i: nat)
    requires i < |phdrs| && AllPaged(layout, m, m0, addr, phdrs[..i])
    requires phdrs[i].load && Paged(layout, m', m0, addr, phdrs[i])
    requires OthersKept(layout, m.tables, m'.tables, phdrs[i].Start(), phdrs[i].Span()) && Grew(m, m')
    requires forall k :: 0 <= k < i && phdrs[k].load ==> phdrs[k].PageDisjoint(phdrs[i])
    ensures AllPaged(layout, m', m0, addr, phdrs[..i + 1])
  {
    forall k | 0 <= k < i + 1 && phdrs[..i + 1][k].load
      ensures Paged(layout, m', m0, addr, phdrs[k])
    {
      if k < i {
        assert phdrs[..i][k] == phdrs[k];
        PagedStays(layout, m, m', m0, addr, phdrs[k], phdrs[i].Start(), phdrs[i].Span());
      }
    }
  }

  /** A header that is not loaded adds nothing. */
  lemma AllPagedSkip(layout: Layout, m: Machine, m0: Machine, addr: nat, phdrs: seq<Phdr>, i: nat)
    requires i < |phdrs| && AllPaged(layout, m, m0, addr, phdrs[..i]) && !phdrs[i].load
    ensures AllPaged(layout, m, m0, addr, phdrs[..i + 1])
  {
    forall k | 0 <= k < i + 1 && phdrs[..i + 1][k].load
      ensures Paged(layout, m, m0, addr, phdrs[k])
    {
      assert phdrs[..i][k] == phdrs[k];
    }
  }

  ghost predicate InSegments(phdrs: seq<Phdr>, a: nat) {
    exists i :: 0 <= i < |phdrs| && phdrs[i].load && phdrs[i].Start() <= a < phdrs[i].Start() + phdrs[i].Span()
  }

  /** Only addresses in the pages of loadable segments got another translation. */
  ghost predicate OnlySegments(layout: Layout, t0: Tables, t: Tables, phdrs: seq<Phdr>) {
    forall a: nat :: PlainAddress(layout, a) && !InSegments(phdrs, a) ==> Walk(layout, t, a) == Walk(layout, t0, a)
  }

  lemma InSegmentsNext(phdrs: seq<Phdr>, i: nat, a: nat)
    requires i < |phdrs|
    ensures InSegments(phdrs[..i + 1], a) <==>
      InSegments(phdrs[..i], a) || (phdrs[i].load && phdrs[i].Start() <= a < phdrs[i].Start() + phdrs[i].Span())
  {
    assert forall k :: 0 <= k < i ==> phdrs[..i][k] == phdrs[..i + 1][k];
    assert phdrs[..i + 1][i] == phdrs[i];
  }

  lemma OnlySegmentsStep(layout: Layout, t0: Tables, t: Tables, t': Tables, phdrs: seq<Phdr>, i: nat)
    requires i < |phdrs| && OnlySegments(layout, t0, t, phdrs[..i])
    requires t' == t || (phdrs[i].load && OthersKept(layout, t, t', phdrs[i].Start(), phdrs[i].Span()))
    ensures OnlySegments(layout, t0, t', phdrs[..i + 1])
  {
    forall a: nat | PlainAddress(layout, a) && !InSegments(phdrs[..i + 1], a)
      ensures Walk(layout, t', a) == Walk(layout, t0, a)
    {
      InSegmentsNext(phdrs, i, a);
    }
  }

  ghost predicate StartsAtZero(phdrs: seq<Phdr>) {
    exists i :: 0 <= i < |phdrs| && phdrs[i].load && phdrs[i].Start() == 0
  }

  /** Where the last loadable segment starts. */
  function LastStart(phdrs: seq<Phdr>): Option<nat> {
    if phdrs == [] then None
    else
      var p := phdrs[|phdrs| - 1];
      if p.load then Some(p.Start()) else LastStart(phdrs[..|phdrs| - 1])
  }

  /** The window [base, end) of boot addresses, begun from [base0, end0), where base 0 says that there
  is none yet: end is the highest end of a segment, and base the lowest start unless one is 0. */
  ghost predicate Window(base0: nat, end0: nat, phdrs: seq<Phdr>, base: nat, end: nat) {
    && end0 <= end && (end > end0 ==> exists i :: 0 <= i < |phdrs| && phdrs[i].load && end == phdrs[i].vaddr + phdrs[i].memsz)
    && (forall i :: 0 <= i < |phdrs| && phdrs[i].load ==> phdrs[i].vaddr + phdrs[i].memsz <= end)
    && (base != base0 ==> exists i :: 0 <= i < |phdrs| && phdrs[i].load && base == phdrs[i].Start())
    && (!StartsAtZero(phdrs) ==>
          && (base0 > 0 ==> 0 < base <= base0)
          && forall i :: 0 <= i < |phdrs| && phdrs[i].load ==> 0 < base <= phdrs[i].Start())
    && (StartsAtZero(phdrs) ==> (base == 0 <==> LastStart(phdrs) == Some(0)))
  }

  /** No segment starts below the window if and only if none starts in page 0 or the last one does. */
  lemma BaseIsLowest(base0: nat, end0: nat, phdrs: seq<Phdr>, base: nat, end: nat)
    requires Window(base0, end0, phdrs, base, end)
    ensures (forall i :: 0 <= i < |phdrs| && phdrs[i].load ==> base <= phdrs[i].Start()) <==>
      (StartsAtZero(phdrs) ==> LastStart(phdrs) == Some(0))
  {
    if StartsAtZero(phdrs) {
      var i :| 0 <= i < |phdrs| && phdrs[i].load && phdrs[i].Start() == 0;
      assert base <= phdrs[i].Start() <==> base == 0;
    }
  }

  /** Two segments at 0 and 0x1000: the first is below the window. */
  lemma PageZeroIsForgotten(p: Phdr, q: Phdr, base: nat, end: nat)
    requires p.load && p.vaddr == 0 && q.load && q.vaddr == 0x1000 && Window(0, 0, [p, q], base, end)
    ensures base == 0x1000 && p.Start() < base
  {
    assert StartsAtZero([p, q]) by {
      assert [p, q][0] == p;
    }
    assert LastStart([p, q]) == Some(0x1000);
  }

  lemma WindowStep(base0: nat, end0: nat, phdrs: seq<Phdr>, i: nat, base: nat, end: nat, base': nat, end': nat)
    requires i < |phdrs| && Window(base0, end0, phdrs[..i], base, end)
    requires if phdrs[i].load then
        && base' == (if base == 0 || base > phdrs[i].Start() then phdrs[i].Start() else base)
        && end' == (if end < phdrs[i].vaddr + phdrs[i].memsz then phdrs[i].vaddr + phdrs[i].memsz else end)
      else base' == base && end' == end
    ensures Window(base0, end0, phdrs[..i + 1], base', end')
  {
    var less, more := phdrs[..i], phdrs[..i + 1];
    assert more[..i] == less && more[i] == phdrs[i];
    assert forall k :: 0 <= k < i ==> less[k] == more[k];
    assert StartsAtZero(more) <==> StartsAtZero(less) || (phdrs[i].load && phdrs[i].Start() == 0);
  }

  /** A loadable segment lies in memory. */
  lemma LoadableInImage(layout: Layout, m: Machine, addr: nat, p: Phdr)
    requires Loadable(layout, m, addr, p) && |m.mem| == PADDR_LIMIT
    ensures InImage(m.mem, addr, p)
  {
  }

  lemma AllPagedIsLoaded(layout: Layout, m: Machine, m0: Machine, addr: nat, phdrs: seq<Phdr>)
    requires AllPaged(layout, m, m0, addr, phdrs) && |m0.mem| == PADDR_LIMIT
    requires forall i :: 0 <= i < |phdrs| && phdrs[i].load ==> Loadable(layout, m0, addr, phdrs[i])
    ensures AllLoaded(layout, m, m0.mem, addr, phdrs)
  {
    forall i | 0 <= i < |phdrs| && phdrs[i].load
      ensures InImage(m0.mem, addr, phdrs[i]) && Loaded(layout, m, m0.mem, addr, phdrs[i])
    {
      LoadableInImage(layout, m0, addr, phdrs[i]);
      PagedIsLoaded(layout, m, m0, addr, phdrs[i]);
    }
  }

  /** A walk through the bytes of memory finds byte b at va, with the segment's permissions. */
  ghost predicate ByteRead(layout: Layout, bits: Coding, m: Machine, va: nat, p: Phdr, b: byte) {
    var w := WalkIn(layout, bits, m.mem, m.tables.low, m.tables.high, va);
    w.At? && Grants(w.prot, p) && w.pa < |m.mem| && m.mem[w.pa] == b
  }

  /** All segments are there for whoever reads nothing but memory. */
  ghost predicate AllRead(layout: Layout, bits: Coding, m: Machine, image: seq<byte>, addr: nat, phdrs: seq<Phdr>) {
    forall i, j: nat :: 0 <= i < |phdrs| && phdrs[i].load && j < phdrs[i].memsz ==>
      && InImage(image, addr, phdrs[i])
      && ByteRead(layout, bits, m, phdrs[i].vaddr + j, phdrs[i], ImageByte(image, addr, phdrs[i], j))
  }

  lemma ByteLoadedIsRead(layout: Layout, bits: Coding, m: Machine, owner: map<nat, Path>, va: nat, p: Phdr, b: byte)
    requires layout.Sound() && Encodes(bits) && Backed(bits, m) && Tree(layout, m.tables, owner)
    requires ByteLoaded(layout, m, va, p, b)
    ensures ByteRead(layout, bits, m, va, p, b)
  {
    WalkReadsTables(layout, bits, m, owner, va);
  }

  lemma LoadedIsRead(layout: Layout, bits: Coding, m: Machine, owner: map<nat, Path>, image: seq<byte>, addr: nat, phdrs: seq<Phdr>)
    requires layout.Sound() && Encodes(bits) && Backed(bits, m) && Tree(layout, m.tables, owner)
    requires AllLoaded(layout, m, image, addr, phdrs)
    ensures AllRead(layout, bits, m, image, addr, phdrs)
  {
    forall i, j: nat | 0 <= i < |phdrs| && phdrs[i].load && j < phdrs[i].memsz
      ensures InImage(image, addr, phdrs[i])
      ensures ByteRead(layout, bits, m, phdrs[i].vaddr + j, phdrs[i], ImageByte(image, addr, phdrs[i], j))
    {
      ByteLoadedIsRead(layout, bits, m, owner, phdrs[i].vaddr + j, phdrs[i], ImageByte(image, addr, phdrs[i], j));
    }
  }

  /** Two maps of neighbouring ranges keep every address outside both. */
  lemma OthersKeptTwice(layout: Layout, t0: Tables, t1: Tables, t2: Tables, va: nat, a: nat, b: nat)
    requires OthersKept(layout, t0, t1, va, a) && (t2 == t1 || OthersKept(layout, t1, t2, va + a, b))
    ensures OthersKept(layout, t0, t2, va, a + b)
  {
  }

  /** The range stays inside one of the two regions that have a root table. */
  ghost predicate InRegion(layout: Layout, va: nat, bytes: nat) {
    va + bytes < TWO_64 && if va < layout.userEnd then va + bytes < layout.userEnd else layout.startupBase <= va
  }

  class Loader {
    const pt: PageTables

    /** boot_vaddr_base and boot_vaddr_end */
    var bootBase: nat

    var bootEnd: nat

    constructor (pt: PageTables)
      ensures this.pt == pt && bootBase == 0 && bootEnd == 0
    {
      this.pt, bootBase, bootEnd := pt, 0, 0;
    }

    ghost predicate Valid()
      reads this, pt, pt.ram, pt.ram.asinfo, pt.ram.mem
    {
      pt.Valid()
    }

    /** The allocator refuses some request of at most that many bytes. */
    ghost predicate Starved(most: nat)
      reads this, pt, pt.ram, pt.ram.asinfo
    {
      pt.ram.asinfo.Valid() && exists n: nat :: n <= most && pt.ram.Refuses(n, PAGE)
    }

    /** Why a segment may not be loaded: its pages leave their region, or the allocator refuses a request
    of at most a page more than it takes. */
    ghost predicate CannotLoad(p: Phdr)
      reads this, pt, pt.ram, pt.ram.asinfo
    {
      !InRegion(pt.layout, p.Start(), p.Span()) || Starved(p.Span() + PAGE)
    }

    /** elf_map of whole pages at a page address. */
    method ElfMap(va: nat, pa: nat, size: nat, prot: Prot, ghost bytes: nat) returns (ok: bool)
      requires Valid() && va % 4096 == 0 && pa % 4096 == 0 && va < TWO_64
      requires bytes == RoundPg(size) && pa + bytes <= PADDR_LIMIT
      requires SpanPlain(pt.layout, va, bytes)
      modifies pt, pt.ram`ramList, pt.ram.asinfo, pt.ram.mem
      ensures !ok ==> !InRegion(pt.layout, va, bytes) || Starved(PAGE)
      ensures ok ==> Valid() && Grew(old(pt.State()), pt.State())
      ensures ok ==> !RangeCrash(pt.layout, va, bytes)
      ensures ok ==> Translated(pt.layout, pt.tables, va, bytes, pa, prot)
      ensures ok ==> OthersKept(pt.layout, old(pt.tables), pt.tables, va, bytes)
    {
      assert TruncPg(va) == va && TruncPg(pa) == pa;
      ghost var c := MapCall(Some(va), pa, size, prot);
      assert c.Start(pt.freeVaddr) == va && c.Bytes() == bytes;
      var ret;
      ok, ret := pt.Map(Some(va), pa, size, prot);
    }

    /** calloc_ram of whole pages, then copy_memory into them. The C code does not look at a failed
    calloc_ram; here that ends the run like a crash. */
    method FreshCopy(total: nat, src: nat, len: nat) returns (ok: bool, daddr: nat)
      requires Valid() && len <= total && src + len <= PADDR_LIMIT
      requires len == 0 || ChunkSize(len) > 0
      requires len < TWO_32 || Reserved(pt.ram.ramList, src, len)
      modifies pt.ram`ramList, pt.ram.asinfo, pt.ram.mem
      ensures !ok ==> Starved(total)
      ensures ok ==> Valid() && Grew(old(pt.State()), pt.State())
      ensures ok ==> Copied(old(pt.State()), pt.State(), daddr, total, src, len)
    {
      PageIsPowerOfTwo();
      ghost var s, m := pt.ram.State(), pt.ram.mem[..];
      daddr := 0;
      var res;
      ok, res := pt.ram.CallocRam(total, PAGE);
      if !ok || res.None? {
        ok := false;
        return;
      }
      daddr := res.value;
      ghost var m1 := pt.ram.mem[..];
      if len >= TWO_32 {
        ApartFromReserved(s, daddr, total, src, len);
      }
      CopyMemory(pt.ram.mem, daddr, src, len);
      CopiedBytes(pt.bits, pt.tables, s, m, pt.ram.State(), m1, pt.ram.mem[..], daddr, total, src, len);
      BackedStays(pt.bits, pt.tables, s, pt.ram.State(), m, pt.ram.mem[..]);
      TookGrew(s, pt.ram.State(), pt.tables, m, pt.ram.mem[..]);
    }

    /** Fresh memory with a copy of the carried bytes, mapped at va. m2 is the machine in between. */
    method CopyTail(va: nat, src: nat, tail: nat, carried: nat, prot: Prot)
        returns (ok: bool, daddr: nat, ghost m2: Machine)
      requires Valid() && carried < 4096 && carried <= tail && tail % 4096 == 0 && src + carried <= PADDR_LIMIT
      requires va % 4096 == 0 && va < TWO_64 && SpanPlain(pt.layout, va, tail)
      modifies pt, pt.ram`ramList, pt.ram.asinfo, pt.ram.mem
      ensures !ok ==> !InRegion(pt.layout, va, tail) || Starved(tail + PAGE)
      ensures ok ==> Valid() && !RangeCrash(pt.layout, va, tail)
      ensures ok ==> Grew(old(pt.State()), m2) && Grew(m2, pt.State())
      ensures ok ==> Copied(old(pt.State()), m2, daddr, tail, src, carried)
      ensures ok ==> Translated(pt.layout, pt.tables, va, tail, daddr, prot)
      ensures ok ==> OthersKept(pt.layout, old(pt.tables), pt.tables, va, tail)
    {
      ok, daddr := FreshCopy(tail, src, carried);
      m2 := pt.State();
      if ok {
        ok := ElfMap(va, daddr, tail, prot, tail);
      }
    }

    /** The last partial file page and the zeros behind it, copied and mapped behind the front. m0 is
    the machine that loading began on. */
    method LoadTail(p: Phdr, q: Plan, ghost addr: nat, ghost m0: Machine) returns (ok: bool)
      requires Valid() && PlanFits(p, q) && p.paddr != 0 && p.filesz <= p.memsz && p.paddr % 4096 == p.vaddr % 4096
      requires TruncPg(p.paddr) + RoundPg(p.filesz + p.Off()) <= PADDR_LIMIT
      requires p.Start() + p.Span() < TWO_64 && SpanPlain(pt.layout, p.Start(), p.Span())
      requires !RangeCrash(pt.layout, p.Start(), q.front)
      requires Grew(m0, pt.State())
      requires Translated(pt.layout, pt.tables, p.Start(), q.front, TruncPg(p.paddr), p.Protection())
      modifies pt, pt.ram`ramList, pt.ram.asinfo, pt.ram.mem
      ensures !ok ==> CannotLoad(p)
      ensures ok ==> Valid() && Grew(old(pt.State()), pt.State())
      ensures ok ==> pt.tables == old(pt.tables) || OthersKept(pt.layout, old(pt.tables), pt.tables, p.Start() + q.front, q.tail)
      ensures ok ==> Paged(pt.layout, pt.State(), m0, addr, p)
    {
      ghost var m1 := pt.State();
      ghost var m2 := m1;
      var daddr := 0;
      ok := true;
      if q.tail > 0 {
        TailFits(pt.layout, p, q);
        ok, daddr, m2 := CopyTail(p.Start() + q.front, TruncPg(p.paddr) + q.front, q.tail, q.carried, p.Protection());
        if !ok {
          return;
        }
      }
      SpanAddressesPlain(pt.layout, p.Start(), p.Span());
      InPlacePaged(pt.layout, p, addr, m0, m1, m2, pt.State(), q, daddr);
    }

    /** A segment whose physical address is given: its whole file pages stay where they are. */
    method LoadInPlace(p: Phdr, ghost addr: nat, ghost m0: Machine) returns (ok: bool)
      requires Valid() && p.paddr != 0 && Loadable(pt.layout, m0, addr, p)
      requires Grew(m0, pt.State())
      modifies pt, pt.ram`ramList, pt.ram.asinfo, pt.ram.mem
      ensures !ok ==> CannotLoad(p)
      ensures ok ==> Valid() && Grew(old(pt.State()), pt.State())
      ensures ok ==> OthersKept(pt.layout, old(pt.tables), pt.tables, p.Start(), p.Span())
      ensures ok ==> Paged(pt.layout, pt.State(), m0, addr, p)
    {
      PlanCovers(p);
      var q := InPlacePlan(p);
      ghost var m, t := pt.State(), pt.tables;
      FrontFits(pt.layout, p, q);
      ok := ElfMap(TruncPg(p.vaddr), TruncPg(p.paddr), q.front, p.Protection(), q.front);
      if !ok {
        return;
      }
      ghost var m1, t1 := pt.State(), pt.tables;
      GrewTrans(m0, m, m1);
      ok := LoadTail(p, q, addr, m0);
      if ok {
        GrewTrans(m, m1, pt.State());
        OthersKeptTwice(pt.layout, t, t1, pt.tables, p.Start(), q.front, q.tail);
      }
    }

    /** A segment without a physical address: all of it goes to fresh memory. */
    method LoadCopied(p: Phdr, addr: nat, ghost m0: Machine) returns (ok: bool)
      requires Valid() && p.paddr == 0 && Loadable(pt.layout, m0, addr, p)
      requires Grew(m0, pt.State())
      modifies pt, pt.ram`ramList, pt.ram.asinfo, pt.ram.mem
      ensures !ok ==> CannotLoad(p)
      ensures ok ==> Valid() && Grew(old(pt.State()), pt.State())
      ensures ok ==> OthersKept(pt.layout, old(pt.tables), pt.tables, p.Start(), p.Span())
      ensures ok ==> Paged(pt.layout, pt.State(), m0, addr, p)
    {
      var va, prot := TruncPg(p.vaddr), p.Protection();
      var filesz := p.PaddedFile();
      ghost var m1 := pt.State();
      var daddr;
      ok, daddr := FreshCopy(p.Span(), addr + p.offset - p.Off(), filesz);
      if !ok {
        return;
      }
      ghost var m2 := pt.State();
      ok := ElfMap(va, daddr, p.memsz + p.Off(), prot, p.Span());
      if !ok {
        return;
      }
      SpanAddressesPlain(pt.layout, va, p.Span());
      CopiedPaged(pt.layout, p, addr, m0, m1, m2, pt.State(), daddr);
      GrewTrans(m1, m2, pt.State());
    }

    /** One PT_LOAD header of load_elf64mmu. */
    method LoadSegment(p: Phdr, addr: nat, ghost m0: Machine) returns (ok: bool)
      requires Valid() && Loadable(pt.layout, m0, addr, p)
      requires Grew(m0, pt.State())
      modifies this, pt, pt.ram`ramList, pt.ram.asinfo, pt.ram.mem
      ensures !ok ==> CannotLoad(p)
      ensures ok ==> Valid() && Grew(old(pt.State()), pt.State())
      ensures ok ==> OthersKept(pt.layout, old(pt.tables), pt.tables, p.Start(), p.Span())
      ensures ok ==> Paged(pt.layout, pt.State(), m0, addr, p)
      ensures bootBase == if old(bootBase) == 0 || old(bootBase) > p.Start() then p.Start() else old(bootBase)
      ensures bootEnd == if old(bootEnd) < p.vaddr + p.memsz then p.vaddr + p.memsz else old(bootEnd)
    {
      if bootBase == 0 || bootBase > p.Start() {
        bootBase := p.Start();
      }
      if bootEnd < p.Start() + (p.memsz + p.Off()) {
        bootEnd := p.Start() + (p.memsz + p.Off());
      }
      if p.paddr != 0 {
        ok := LoadInPlace(p, addr, m0);
      } else {
        ok := LoadCopied(p, addr, m0);
      }
    }

    /** What holds when the first n program headers are done: m0, base0 and end0 are the machine and the
    window that loading began with. */
    ghost predicate Done(m0: Machine, base0: nat, end0: nat, addr: nat, phdrs: seq<Phdr>, n: nat)
      requires n <= |phdrs|
      reads this, pt, pt.ram, pt.ram.asinfo, pt.ram.mem
    {
      && Valid() && Grew(m0, pt.State())
      && AllPaged(pt.layout, pt.State(), m0, addr, phdrs[..n])
      && OnlySegments(pt.layout, m0.tables, pt.tables, phdrs[..n])
      && Window(base0, end0, phdrs[..n], bootBase, bootEnd)
    }

    /** One turn of the loop. */
    method LoadHeader(addr: nat, phdrs: seq<Phdr>, i: nat, ghost m0: Machine, ghost base0: nat, ghost end0: nat) returns (ok: bool)
      requires i < |phdrs| && Done(m0, base0, end0, addr, phdrs, i)
      requires phdrs[i].load ==> Loadable(pt.layout, m0, addr, phdrs[i])
      requires forall k :: 0 <= k < i && phdrs[k].load && phdrs[i].load ==> phdrs[k].PageDisjoint(phdrs[i])
      modifies this, pt, pt.ram`ramList, pt.ram.asinfo, pt.ram.mem
      ensures !ok ==> phdrs[i].load && CannotLoad(phdrs[i])
      ensures ok ==> Done(m0, base0, end0, addr, phdrs, i + 1)
    {
      ghost var m1, base1, end1 := pt.State(), bootBase, bootEnd;
      ok := true;
      if phdrs[i].load {
        ok := LoadSegment(phdrs[i], addr, m0);
        if !ok {
          return;
        }
        AllPagedStep(pt.layout, m1, pt.State(), m0, addr, phdrs, i);
        GrewTrans(m0, m1, pt.State());
      } else {
        AllPagedSkip(pt.layout, pt.State(), m0, addr, phdrs, i);
      }
      OnlySegmentsStep(pt.layout, m0.tables, m1.tables, pt.tables, phdrs, i);
      WindowStep(base0, end0, phdrs, i, base1, end1, bootBase, bootEnd);
    }

    lemma NoneDone(addr: nat, phdrs: seq<Phdr>)
      requires Valid()
      ensures Done(pt.State(), bootBase, bootEnd, addr, phdrs, 0)
    {
      assert phdrs[..0] == [];
    }

    /** After the last header everything is loaded and can be read. */
    lemma AllDone(m0: Machine, base0: nat, end0: nat, addr: nat, phdrs: seq<Phdr>)
      requires Done(m0, base0, end0, addr, phdrs, |phdrs|) && |m0.mem| == PADDR_LIMIT
      requires forall i :: 0 <= i < |phdrs| && phdrs[i].load ==> Loadable(pt.layout, m0, addr, phdrs[i])
      ensures AllPaged(pt.layout, pt.State(), m0, addr, phdrs) && OnlySegments(pt.layout, m0.tables, pt.tables, phdrs)
      ensures Window(base0, end0, phdrs, bootBase, bootEnd)
      ensures AllLoaded(pt.layout, pt.State(), m0.mem, addr, phdrs)
      ensures AllRead(pt.layout, pt.bits, pt.State(), m0.mem, addr, phdrs)
    {
      assert phdrs[..|phdrs|] == phdrs;
      AllPagedIsLoaded(pt.layout, pt.State(), m0, addr, phdrs);
      LoadedIsRead(pt.layout, pt.bits, pt.State(), pt.owner, m0.mem, addr, phdrs);
    }

    /** load_elf64mmu over the program headers of the image at addr. When it comes back, every
    loadable segment can be read through the tables, and through the bytes of memory that hold them. */
    method LoadElf64Mmu(addr: nat, phdrs: seq<Phdr>) returns (ok: bool)
      requires Valid()
      requires forall i :: 0 <= i < |phdrs| && phdrs[i].load ==> Loadable(pt.layout, pt.State(), addr, phdrs[i])
      requires forall i, j :: 0 <= i < j < |phdrs| && phdrs[i].load && phdrs[j].load ==> phdrs[i].PageDisjoint(phdrs[j])
      modifies this, pt, pt.ram`ramList, pt.ram.asinfo, pt.ram.mem
      ensures !ok ==> exists i :: 0 <= i < |phdrs| && phdrs[i].load && CannotLoad(phdrs[i])
      ensures ok ==> Valid() && Grew(old(pt.State()), pt.State())
      ensures ok ==> AllPaged(pt.layout, pt.State(), old(pt.State()), addr, phdrs)
      ensures ok ==> AllLoaded(pt.layout, pt.State(), old(pt.ram.mem[..]), addr, phdrs)
      ensures ok ==> OnlySegments(pt.layout, old(pt.tables), pt.tables, phdrs)
      ensures ok ==> Window(old(bootBase), old(bootEnd), phdrs, bootBase, bootEnd)
      ensures ok ==> AllRead(pt.layout, pt.bits, pt.State(), old(pt.ram.mem[..]), addr, phdrs)
    {
      ghost var m0, base0, end0 := pt.State(), bootBase, bootEnd;
      NoneDone(addr, phdrs);
      ok := true;
      var i := 0;
      while i < |phdrs|
        invariant 0 <= i <= |phdrs| && Done(m0, base0, end0, addr, phdrs, i)
      {
        ok := LoadHeader(addr, phdrs, i, m0, base0, end0);
        if !ok {
          return;
        }
        i := i + 1;
      }
      AllDone(m0, base0, end0, addr, phdrs);
    }
  }
}
