/** What the firmware's memory map does to the RAM allocator (lib/init_raminfo_efi.c:44-165):
three passes over the sorted map. */
module RamInfoEfi {
  import opened Align
  import opened Avoids
  import opened Blocks
  import opened EfiMap
  import opened Options
  import opened Ram

  /** EFI_MEMORY_TYPE, section 7.2 of the UEFI specification: the loader, boot services and runtime
  services types are 1 to 6, conventional memory is 7, ACPI reclaim memory is 9. */
  predicate IsConventional(typ: nat) {
    typ == 7
  }

  /** RAM that something already occupies. */
  predicate IsTaken(typ: nat) {
    1 <= typ <= 6 || typ == 9
  }

  datatype Kind = Conventional | Taken | Usable | Avoided

  predicate Is(d: Desc, k: Kind) {
    match k
    case Conventional => IsConventional(d.typ)
    case Taken => IsTaken(d.typ)
    case Usable => IsConventional(d.typ) || IsTaken(d.typ)
    case Avoided => !IsConventional(d.typ)
  }

  function Bytes(d: Desc): Block {
    Block(d.start, 4096 * d.pages)
  }

  /** Some descriptor of this kind describes address x. */
  ghost predicate InMap(ds: seq<Desc>, k: Kind, x: nat) {
    exists i :: 0 <= i < |ds| && Is(ds[i], k) && Bytes(ds[i]).Has(x)
  }

  lemma InMapNext(ds: seq<Desc>, k: Kind, i: nat)
    requires i < |ds|
    ensures forall x: nat :: InMap(ds[..i + 1], k, x) <==> InMap(ds[..i], k, x) || (Is(ds[i], k) && Bytes(ds[i]).Has(x))
  {
    var less, more := ds[..i], ds[..i + 1];
    forall x: nat
      ensures InMap(more, k, x) <==> InMap(less, k, x) || (Is(ds[i], k) && Bytes(ds[i]).Has(x))
    {
      assert forall j :: 0 <= j < i ==> less[j] == more[j];
      assert more[i] == ds[i];
    }
  }

  lemma InMapMember(a: seq<Desc>, b: seq<Desc>, k: Kind, x: nat)
    requires multiset(a) == multiset(b) && InMap(a, k, x)
    ensures InMap(b, k, x)
  {
    var i :| 0 <= i < |a| && Is(a[i], k) && Bytes(a[i]).Has(x);
    assert a[i] in multiset(b);
    var j :| 0 <= j < |b| && b[j] == a[i];
  }

  /** The order of the descriptors does not matter. */
  lemma InMapPermuted(a: seq<Desc>, b: seq<Desc>, k: Kind)
    requires multiset(a) == multiset(b)
    ensures forall x: nat :: InMap(a, k, x) <==> InMap(b, k, x)
  {
    forall x: nat
      ensures InMap(a, k, x) <==> InMap(b, k, x)
    {
      if InMap(a, k, x) {
        InMapMember(a, b, k, x);
      }
      if InMap(b, k, x) {
        InMapMember(b, a, k, x);
      }
    }
  }

  /** The range ends below 2^64, RAM lies below the limit of the physical address space, and no range
  to avoid ends at address 0: avoid_ram would end the avoid list there (Avoids.LaterRangeVisible). */
  predicate SoundDesc(d: Desc) {
    && d.start + 4096 * d.pages < TWO_64
    && (Is(d, Usable) ==> d.start + 4096 * d.pages <= PADDR_LIMIT)
    && (Is(d, Avoided) ==> d.start + 4096 * d.pages > 0)
  }

  predicate SoundMap(ds: seq<Desc>) {
    forall d :: d in ds ==> SoundDesc(d)
  }

  /** The map can be walked: whole descriptors, as promised. */
  ghost predicate Walkable(efi: MemoryMap)
    reads efi, efi.descs
  {
    efi.Valid() && efi.mapSize % efi.descSize == 0 && SoundMap(efi.descs[..])
  }

  /** The start of every pass. */
  method FirstDesc(efi: MemoryMap) returns (i: nat)
    requires Walkable(efi)
    modifies efi.descs, efi`sorted
    ensures Walkable(efi) && i == 0
    ensures multiset(efi.descs[..]) == multiset(old(efi.descs[..]))
  {
    var next := efi.WalkMap(None);
    assert forall d :: d in efi.descs[..] <==> d in multiset(efi.descs[..]);
    assert forall d :: d in old(efi.descs[..]) <==> d in multiset(old(efi.descs[..]));
    i := next.value;
  }

  method AvoidOne(d: Desc, ram: RamAllocator) returns (ok: bool)
    requires SoundDesc(d) && ram.Valid() && Shown(ram.avoidList)
    modifies ram`avoidList
    ensures !ok && !ram.sysramAdded ==> ram.Full()
    ensures ok ==> ram.Valid() && Shown(ram.avoidList)
    ensures forall x: nat :: InAvoid(ram.avoidList, x) <==> InAvoid(old(ram.avoidList), x) || (Is(d, Avoided) && Bytes(d).Has(x))
  {
    ok := true;
    if d.typ != 7 {
      ok := ram.AvoidRam(d.start, 0x1000 * d.pages);
    }
  }

  /** Pass 0: keep searches away from everything but conventional memory. */
  method AvoidPass(efi: MemoryMap, ram: RamAllocator) returns (ok: bool)
    requires Walkable(efi) && ram.Valid() && Shown(ram.avoidList)
    modifies efi.descs, efi`sorted, ram`avoidList
    ensures !ok && !ram.sysramAdded ==> ram.Full()
    ensures Walkable(efi) && multiset(efi.descs[..]) == multiset(old(efi.descs[..]))
    ensures ok ==> ram.Valid() && Shown(ram.avoidList)
    ensures ok ==> forall x: nat :: InAvoid(ram.avoidList, x) <==> InAvoid(old(ram.avoidList), x) || InMap(efi.descs[..], Avoided, x)
  {
    var first := FirstDesc(efi);
    ghost var ds := efi.descs[..];
    var desc := Some(first);
    ghost var n := 0;
    while desc.Some?
      invariant n <= |ds| && desc == if n < |ds| then Some(n) else None
      invariant Walkable(efi) && efi.descs[..] == ds
      invariant ram.Valid() && Shown(ram.avoidList)
      invariant forall x: nat :: InAvoid(ram.avoidList, x) <==> InAvoid(old(ram.avoidList), x) || InMap(ds[..n], Avoided, x)
      decreases |ds| - n
    {
      ok := AvoidOne(efi.descs[desc.value], ram);
      if !ok {
        return;
      }
      InMapNext(ds, Avoided, n);
      desc := efi.WalkMap(desc);
      n := n + 1;
    }
    assert ds[..n] == ds;
    ok := true;
  }

  /** What pass 1 has collected so far: what is free, together with the range it still holds back,
  is what was free before and the usable memory of the descriptors seen, less the boot image. */
  ghost predicate Collected(free0: seq<Block>, free: seq<Block>, held: Block, seen: seq<Desc>, image: Block) {
    forall x: nat :: !image.Has(x) ==> (Covers(free, x) || held.Has(x) <==> Covers(free0, x) || InMap(seen, Usable, x))
  }

  ghost predicate ClearOf(free: seq<Block>, image: Block) {
    forall x: nat :: Covers(free, x) ==> !image.Has(x)
  }

  /** Since the pass started, avoid ranges were only added, all of them in sight, and the temporary system page, if it was
  placed, went to free memory that was not avoided. */
  ghost predicate TempSafe(avoid0: seq<Avoid>, temp0: Option<nat>, avoid: seq<Avoid>, temp: Option<nat>) {
    && Shown(avoid) && (forall x: nat :: InAvoid(avoid0, x) ==> InAvoid(avoid, x))
    && (temp == temp0 || (temp.Some? && forall x: nat :: temp.value <= x < temp.value + TEMP_SYSPAGE_SIZE ==> !InAvoid(avoid0, x)))
  }

  lemma TempSafeNext(avoid0: seq<Avoid>, temp0: Option<nat>, avoid1: seq<Avoid>, temp1: Option<nat>, avoid2: seq<Avoid>, temp2: Option<nat>)
    requires TempSafe(avoid0, temp0, avoid1, temp1) && TempSafe(avoid1, temp1, avoid2, temp2)
    ensures TempSafe(avoid0, temp0, avoid2, temp2)
  {
  }

  /** What add_ram does about the temporary system page is safe. */
  lemma AddedSafely(s: RamState, start: nat, size: nat, image: Block, temp0: Option<nat>, temp: Option<nat>, s': RamState)
    requires Shown(s.avoid) && AddRamStep(s, start, size, image, temp0.None?, temp, s') && Sane(s')
    ensures TempSafe(s.avoid, temp0, s'.avoid, if temp.Some? then temp else temp0)
  {
    if temp.Some? {
      AllVisible(s.avoid);
      StepNonzero(s.avoid, temp.value, TEMP_SYSPAGE_SIZE);
      StepAdds(s.avoid, temp.value, TEMP_SYSPAGE_SIZE);
    }
  }

  /** add_ram on the range held back. */
  method Flush(ram: RamAllocator, held: Block, memoryEnd: nat) returns (ok: bool)
    requires ram.Valid() && Shown(ram.avoidList) && (held.size > 0 ==> held.End() <= PADDR_LIMIT)
    modifies ram`ramList, ram`avoidList, ram`tempSyspage, ram.asinfo
    ensures !ok && !ram.sysramAdded ==> ram.Full()
    ensures ok ==> ram.Valid() && TempSafe(old(ram.avoidList), old(ram.tempSyspage), ram.avoidList, ram.tempSyspage)
    ensures ok ==> forall x: nat :: Covers(ram.ramList, x) <==> (Covers(old(ram.ramList), x) || held.Has(x)) && !ram.Image().Has(x)
  {
    ghost var temp, s0, temp0 := None, ram.State(), ram.tempSyspage;
    ok, temp := ram.AddRam(held.addr, held.size, memoryEnd);
    if ok {
      AddedSafely(s0, held.addr, held.size, ram.Image(), temp0, temp, ram.State());
    }
  }

  /** One descriptor of pass 1. */
  method AddOne(d: Desc, ram: RamAllocator, curStart: nat, curSize: nat, memoryEnd: nat, ghost free0: seq<Block>, ghost seen: seq<Desc>)
      returns (ok: bool, start: nat, size: nat)
    requires SoundDesc(d) && ram.Valid() && Shown(ram.avoidList) && (curSize > 0 ==> curStart + curSize <= PADDR_LIMIT)
    requires Collected(free0, ram.ramList, Block(curStart, curSize), seen, ram.Image()) && ClearOf(ram.ramList, ram.Image())
    modifies ram`ramList, ram`avoidList, ram`tempSyspage, ram.asinfo
    ensures !ok && !ram.sysramAdded ==> ram.Full()
    ensures ok ==> ram.Valid() && TempSafe(old(ram.avoidList), old(ram.tempSyspage), ram.avoidList, ram.tempSyspage)
    ensures ok ==> ClearOf(ram.ramList, ram.Image()) && (size > 0 ==> start + size <= PADDR_LIMIT)
    ensures ok ==> Collected(free0, ram.ramList, Block(start, size), seen + [d], ram.Image())
    ensures Is(d, Usable) && d.start == curStart + curSize ==>
      ok && start == curStart && size == curSize + 4096 * d.pages && unchanged(ram, ram.asinfo)
    ensures Is(d, Usable) && ok && d.start != curStart + curSize ==> start == d.start && size == 4096 * d.pages
    ensures !Is(d, Usable) ==> ok && start == curStart && size == curSize && unchanged(ram, ram.asinfo)
  {
    ok, start, size := true, curStart, curSize;
    ghost var more := seen + [d];
    InMapNext(more, Usable, |seen|);
    assert more[..|seen|] == seen && more[..|seen| + 1] == more;
    var sz := 0x1000 * d.pages;
    if 1 <= d.typ <= 7 || d.typ == 9 {
      if d.start == curStart + curSize {
        size := curSize + sz;
      } else {
        ok := Flush(ram, Block(curStart, curSize), memoryEnd);
        start, size := d.start, sz;
      }
    }
  }

  ghost predicate NoneUsable(ds: seq<Desc>) {
    forall i :: 0 <= i < |ds| ==> !Is(ds[i], Usable)
  }

  /** Pass 1: merge neighbouring usable descriptors and add them. */
  method AddPass(efi: MemoryMap, ram: RamAllocator, memoryEnd: nat) returns (ok: bool)
    requires Walkable(efi) && ram.Valid() && Shown(ram.avoidList) && ClearOf(ram.ramList, ram.Image())
    modifies efi.descs, efi`sorted, ram`ramList, ram`avoidList, ram`tempSyspage, ram.asinfo
    ensures !ok && !ram.sysramAdded ==> ram.Full()
    ensures Walkable(efi) && multiset(efi.descs[..]) == multiset(old(efi.descs[..]))
    ensures ok ==> ram.Valid() && TempSafe(old(ram.avoidList), old(ram.tempSyspage), ram.avoidList, ram.tempSyspage)
    ensures NoneUsable(efi.descs[..]) ==> ok && unchanged(ram, ram.asinfo)
    ensures ok ==> forall x: nat :: Covers(ram.ramList, x) <==>
      (Covers(old(ram.ramList), x) || InMap(efi.descs[..], Usable, x)) && !ram.Image().Has(x)
  {
    var first := FirstDesc(efi);
    ghost var ds, free0, avoid0, temp0 := efi.descs[..], ram.ramList, ram.avoidList, ram.tempSyspage;
    var curStart: nat, curSize: nat := TWO_64 - 1, 0;
    var desc := Some(first);
    ghost var n := 0;
    while desc.Some?
      invariant n <= |ds| && desc == if n < |ds| then Some(n) else None
      invariant Walkable(efi) && efi.descs[..] == ds
      invariant ram.Valid() && ClearOf(ram.ramList, ram.Image()) && TempSafe(avoid0, temp0, ram.avoidList, ram.tempSyspage)
      invariant curSize > 0 ==> curStart + curSize <= PADDR_LIMIT
      invariant NoneUsable(ds[..n]) ==> curSize == 0 && unchanged(ram, ram.asinfo)
      invariant Collected(free0, ram.ramList, Block(curStart, curSize), ds[..n], ram.Image())
      decreases |ds| - n
    {
      ghost var avoid1, temp1 := ram.avoidList, ram.tempSyspage;
      ok, curStart, curSize := AddOne(efi.descs[desc.value], ram, curStart, curSize, memoryEnd, free0, ds[..n]);
      if !ok {
        return;
      }
      TempSafeNext(avoid0, temp0, avoid1, temp1, ram.avoidList, ram.tempSyspage);
      assert ds[..n + 1] == ds[..n] + [ds[n]];
      assert NoneUsable(ds[..n + 1]) ==> ds[..n + 1][n] == ds[n] && forall k :: 0 <= k < n ==> ds[..n + 1][k] == ds[..n][k];
      desc := efi.WalkMap(desc);
      n := n + 1;
    }
    assert ds[..n] == ds;
    ok := true;
    if curSize != 0 {
      ghost var avoid1, temp1 := ram.avoidList, ram.tempSyspage;
      ok := Flush(ram, Block(curStart, curSize), memoryEnd);
      if ok {
        TempSafeNext(avoid0, temp0, avoid1, temp1, ram.avoidList, ram.tempSyspage);
      }
    }
  }

  method TakeOne(d: Desc, ram: RamAllocator) returns (ok: bool)
    requires SoundDesc(d) && ram.Valid() && !ram.sysramAdded
    modifies ram`ramList, ram.asinfo
    ensures !ok && !ram.sysramAdded ==> ram.Full()
    ensures ok ==> ram.Valid()
    ensures ok ==> forall x: nat :: Covers(ram.ramList, x) <==> Covers(old(ram.ramList), x) && !(Is(d, Taken) && Bytes(d).Has(x))
  {
    ok := true;
    if 1 <= d.typ <= 6 || d.typ == 9 {
      var res;
      ok, res := ram.AllocRam(Some(d.start), 0x1000 * d.pages, 0);
    }
  }

  /** Pass 2: what the loader, the firmware and the ACPI tables occupy is allocated. */
  method TakePass(efi: MemoryMap, ram: RamAllocator) returns (ok: bool)
    requires Walkable(efi) && ram.Valid() && !ram.sysramAdded
    modifies efi.descs, efi`sorted, ram`ramList, ram.asinfo
    ensures !ok && !ram.sysramAdded ==> ram.Full()
    ensures Walkable(efi) && multiset(efi.descs[..]) == multiset(old(efi.descs[..]))
    ensures ok ==> ram.Valid()
    ensures ok ==> forall x: nat :: Covers(ram.ramList, x) <==> Covers(old(ram.ramList), x) && !InMap(efi.descs[..], Taken, x)
  {
    var first := FirstDesc(efi);
    ghost var ds := efi.descs[..];
    var desc := Some(first);
    ghost var n := 0;
    while desc.Some?
      invariant n <= |ds| && desc == if n < |ds| then Some(n) else None
      invariant Walkable(efi) && efi.descs[..] == ds
      invariant ram.Valid() && !ram.sysramAdded
      invariant forall x: nat :: Covers(ram.ramList, x) <==> Covers(old(ram.ramList), x) && !InMap(ds[..n], Taken, x)
      decreases |ds| - n
    {
      ok := TakeOne(efi.descs[desc.value], ram);
      if !ok {
        return;
      }
      InMapNext(ds, Taken, n);
      desc := efi.WalkMap(desc);
      n := n + 1;
    }
    assert ds[..n] == ds;
    ok := true;
  }

  ghost predicate FreeAfter(free0: seq<Block>, ds: seq<Desc>, image: Block, x: nat) {
    && (Covers(free0, x) || InMap(ds, Conventional, x))
    && !InMap(ds, Taken, x) && !image.Has(x)
  }

  /** init_raminfo_efi. Free afterwards is what was free before and all usable memory, less the boot
  image and everything taken; whatever is not conventional memory is avoided for good, and the
  temporary system page did not land on it. */
  method InitRaminfoEfi(efi: MemoryMap, ram: RamAllocator, memoryEnd: nat) returns (ok: bool)
    requires Walkable(efi) && ram.Valid() && Shown(ram.avoidList) && ClearOf(ram.ramList, ram.Image()) && !ram.sysramAdded
    modifies efi.descs, efi`sorted, ram`ramList, ram`avoidList, ram`tempSyspage, ram.asinfo
    ensures !ok && !ram.sysramAdded ==> ram.Full()
    ensures Walkable(efi) && multiset(efi.descs[..]) == multiset(old(efi.descs[..]))
    ensures ok ==> ram.Valid() && Shown(ram.avoidList)
    ensures ok ==> forall x: nat :: Covers(ram.ramList, x) <==> FreeAfter(old(ram.ramList), old(efi.descs[..]), ram.Image(), x)
    ensures ok ==> forall x: nat :: InMap(old(efi.descs[..]), Avoided, x) ==> InAvoid(ram.avoidList, x)
    ensures ok && ram.tempSyspage != old(ram.tempSyspage) ==>
      && ram.tempSyspage.Some?
      && forall x: nat :: ram.tempSyspage.value <= x < ram.tempSyspage.value + TEMP_SYSPAGE_SIZE ==> !InMap(old(efi.descs[..]), Avoided, x)
  {
    ghost var ds0 := efi.descs[..];
    ok := AvoidPass(efi, ram);
    if !ok {
      return;
    }
    InMapPermuted(efi.descs[..], ds0, Avoided);
    ok := AddPass(efi, ram, memoryEnd);
    if !ok {
      return;
    }
    InMapPermuted(efi.descs[..], ds0, Usable);
    ok := TakePass(efi, ram);
    InMapPermuted(efi.descs[..], ds0, Taken);
  }

  /** The firmware's order is irrelevant: maps that are permutations of each other leave the same
  free list, block for block. */
  lemma OrderIrrelevant(free0: seq<Block>, a: seq<Desc>, b: seq<Desc>, image: Block, freeA: seq<Block>, freeB: seq<Block>)
    requires multiset(a) == multiset(b) && Canonical(freeA) && Canonical(freeB)
    requires forall x: nat :: Covers(freeA, x) <==> FreeAfter(free0, a, image, x)
    requires forall x: nat :: Covers(freeB, x) <==> FreeAfter(free0, b, image, x)
    ensures freeA == freeB
  {
    InMapPermuted(a, b, Conventional);
    InMapPermuted(a, b, Taken);
    CanonicalUnique(freeA, freeB);
  }
}
