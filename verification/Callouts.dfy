/** The two passes over the callouts (lib/callouts.c:72-156) and the space that
alloc_syspage_memory sets aside between them (lib/syspage_memory.c:140-203). The first pass only
counts; the second, run later on a system page that may have grown, writes the code of every
callout behind the page and hands each its read/write data area. */
module Callouts {
  import opened Align
  import opened Memory
  import opened Options

  /** struct callout_rtn: the code, whether a patcher runs on it, and the address rw_size of the
  word that says how many bytes of read/write data it needs, or NULL. */
  datatype Rtn = Rtn(code: seq<byte>, patched: bool, key: Option<nat>)

  /** A callout_fp_t: nothing, a routine description, or, once written, a kernel address. */
  datatype Slot = Null | Routine(rtn: Rtn) | Address(vaddr: nat)

  /** struct co_info on the rw_addrs list, newest first. */
  datatype Rw = Rw(key: nat, off: nat)

  predicate Listed(rw: seq<Rw>, key: nat) {
    exists i :: 0 <= i < |rw| && rw[i].key == key
  }

  /** The blocks on the list are stacked without holes from 0 to top, one for each key. */
  predicate Stacked(rw: seq<Rw>, sizes: map<nat, nat>, top: nat) {
    if rw == [] then
      top == 0
    else
      && rw[0].key in sizes && top == rw[0].off + sizes[rw[0].key]
      && !Listed(rw[1..], rw[0].key) && Stacked(rw[1..], sizes, rw[0].off)
  }

  /** The offset filed under a key. */
  function Lookup(rw: seq<Rw>, key: nat): nat
    requires Listed(rw, key)
  {
    if rw[0].key == key then rw[0].off else Lookup(rw[1..], key)
  }

  lemma {:induction false} LookupFits(rw: seq<Rw>, sizes: map<nat, nat>, top: nat, key: nat)
    requires Stacked(rw, sizes, top) && Listed(rw, key)
    ensures key in sizes && Lookup(rw, key) + sizes[key] <= top
  {
    if rw[0].key != key {
      LookupFits(rw[1..], sizes, rw[0].off, key);
    }
  }

  /** Different keys have disjoint blocks. */
  lemma {:induction false} LookupApart(rw: seq<Rw>, sizes: map<nat, nat>, top: nat, k: nat, l: nat)
    requires Stacked(rw, sizes, top) && Listed(rw, k) && Listed(rw, l) && k != l && k in sizes && l in sizes
    ensures Lookup(rw, k) + sizes[k] <= Lookup(rw, l) || Lookup(rw, l) + sizes[l] <= Lookup(rw, k)
  {
    if rw[0].key == k {
      LookupFits(rw[1..], sizes, rw[0].off, l);
    } else if rw[0].key == l {
      LookupFits(rw[1..], sizes, rw[0].off, k);
    } else {
      LookupApart(rw[1..], sizes, rw[0].off, k, l);
    }
  }

  predicate Visits(slots: seq<Slot>, order: seq<nat>) {
    forall i :: 0 <= i < |order| ==> order[i] < |slots|
  }

  /** The bytes of code in the slots that order visits. */
  function CodeBytes(slots: seq<Slot>, order: seq<nat>): nat
    requires Visits(slots, order)
  {
    if order == [] then
      0
    else
      var s := slots[order[|order| - 1]];
      CodeBytes(slots, order[..|order| - 1]) + if s.Routine? then |s.rtn.code| else 0
  }

  ghost predicate Distinct(order: seq<nat>) {
    forall i, j :: 0 <= i < j < |order| ==> order[i] != order[j]
  }

  predicate FreshSlot(s: Slot, sizes: map<nat, nat>) {
    && !s.Address?
    && (s.Routine? && s.rtn.key.Some? ==> s.rtn.key.value in sizes)
  }

  /** No slot of the callout table has been written yet, and every key names a word in memory. */
  predicate Fresh(slots: seq<Slot>, order: seq<nat>, sizes: map<nat, nat>) {
    && Visits(slots, order)
    && forall i :: 0 <= i < |order| ==> FreshSlot(slots[order[i]], sizes)
  }

  lemma CodeBytesStep(slots: seq<Slot>, order: seq<nat>, i: nat)
    requires Visits(slots, order) && i < |order|
    ensures var s := slots[order[i]];
      CodeBytes(slots, order[..i + 1]) == CodeBytes(slots, order[..i]) + if s.Routine? then |s.rtn.code| else 0
  {
    assert order[..i + 1][..i] == order[..i];
  }

  /** Earlier routines end before later ones start. */
  lemma {:induction false} CodeBytesGrow(slots: seq<Slot>, order: seq<nat>, i: nat, j: nat)
    requires Visits(slots, order) && i <= j <= |order|
    ensures CodeBytes(slots, order[..i]) <= CodeBytes(slots, order[..j])
    decreases j
  {
    if i < j {
      CodeBytesStep(slots, order, j - 1);
      CodeBytesGrow(slots, order, i, j - 1);
    }
  }

  /** What the write pass must leave for a slot: its kernel address, its code behind the page unless a
  patcher edited it there, and the data area its patcher was told. */
  ghost predicate Written(s: Slot, now: Slot, page: seq<byte>, code: nat, kern: nat, total: nat, rw: seq<Rw>, told: Option<nat>) {
    match s
    case Routine(rtn) =>
      && now == Address(kern + code)
      && code + |rtn.code| <= |page| && (!rtn.patched ==> page[code..code + |rtn.code|] == rtn.code)
      && (rtn.key.Some? ==> Listed(rw, rtn.key.value))
      && told == (if !rtn.patched then None else Some(total + if rtn.key.Some? then Lookup(rw, rtn.key.value) else 0))
    case _ => now == s && told == None
  }

  /** Only the bytes from start to next matter to the slots written there. */
  lemma WrittenStays(s: Slot, now: Slot, page: seq<byte>, page': seq<byte>, code: nat, kern: nat, total: nat, rw: seq<Rw>,
      told: Option<nat>, start: nat, next: nat)
    requires Written(s, now, page, code, kern, total, rw, told)
    requires s.Routine? ==> start <= code && code + |s.rtn.code| <= next
    requires next <= |page| == |page'| && forall a :: start <= a < next ==> page[a] == page'[a]
    ensures Written(s, now, page', code, kern, total, rw, told)
  {
  }

  function At(m: map<nat, nat>, k: nat): Option<nat> {
    if k in m then Some(m[k]) else None
  }

  /** Where the write pass puts things: code from start on, linked at kern, data from total on. */
  datatype Place = Place(start: nat, kern: nat, total: nat, rw: seq<Rw>)

  ghost predicate WrittenAt(was: seq<Slot>, now: seq<Slot>, page: seq<byte>, order: seq<nat>, j: nat, p: Place, told: map<nat, nat>)
    requires Visits(was, order) && j < |order|
  {
    && order[j] < |now|
    && Written(was[order[j]], now[order[j]], page, p.start + CodeBytes(was, order[..j]), p.kern, p.total, p.rw, At(told, order[j]))
  }

  /** The first i slots are written. */
  ghost predicate Progress(was: seq<Slot>, now: seq<Slot>, page: seq<byte>, order: seq<nat>, i: nat, p: Place, told: map<nat, nat>)
    requires Visits(was, order) && i <= |order|
  {
    forall j :: 0 <= j < i ==> WrittenAt(was, now, page, order, j, p, told)
  }

  /** The slots from the i-th on are untouched. */
  ghost predicate Pending(was: seq<Slot>, now: seq<Slot>, order: seq<nat>, i: nat, told: map<nat, nat>)
    requires Visits(was, order)
  {
    && |now| == |was|
    && forall j :: i <= j < |order| ==> now[order[j]] == was[order[j]] && order[j] !in told
  }

  /** A step that writes slot i leaves the slots j written before it as they are. */
  lemma WrittenAtStays(was: seq<Slot>, now: seq<Slot>, now': seq<Slot>, page: seq<byte>, page': seq<byte>, order: seq<nat>, i: nat,
      j: nat, p: Place, told: map<nat, nat>, told': map<nat, nat>)
    requires Visits(was, order) && j < i < |order| && WrittenAt(was, now, page, order, j, p, told)
    requires order[j] < |now'| && now'[order[j]] == now[order[j]] && At(told', order[j]) == At(told, order[j])
    requires p.start + CodeBytes(was, order[..i]) <= |page| == |page'|
    requires forall a :: p.start <= a < p.start + CodeBytes(was, order[..i]) ==> page'[a] == page[a]
    ensures WrittenAt(was, now', page', order, j, p, told')
  {
    CodeBytesStep(was, order, j);
    CodeBytesGrow(was, order, j + 1, i);
    WrittenStays(was[order[j]], now[order[j]], page, page', p.start + CodeBytes(was, order[..j]), p.kern, p.total, p.rw,
      At(told, order[j]), p.start, p.start + CodeBytes(was, order[..i]));
  }

  lemma ProgressStays(was: seq<Slot>, now: seq<Slot>, now': seq<Slot>, page: seq<byte>, page': seq<byte>, order: seq<nat>, i: nat,
      p: Place, told: map<nat, nat>, told': map<nat, nat>)
    requires Visits(was, order) && Distinct(order) && i < |order| && Progress(was, now, page, order, i, p, told)
    requires |now'| == |now| == |was| && forall k :: 0 <= k < |now| && k != order[i] ==> now'[k] == now[k]
    requires forall k :: k != order[i] ==> At(told', k) == At(told, k)
    requires p.start + CodeBytes(was, order[..i]) <= |page| == |page'|
    requires forall a :: p.start <= a < p.start + CodeBytes(was, order[..i]) ==> page'[a] == page[a]
    ensures Progress(was, now', page', order, i, p, told')
  {
    forall j | 0 <= j < i
      ensures WrittenAt(was, now', page', order, j, p, told')
    {
      WrittenAtStays(was, now, now', page, page', order, i, j, p, told, told');
    }
  }

  lemma SamePrefix(page: seq<byte>, page': seq<byte>, n: nat)
    requires n <= |page| == |page'| && forall a :: 0 <= a < n ==> page'[a] == page[a]
    ensures page'[..n] == page[..n]
  {
  }

  lemma PendingStays(was: seq<Slot>, now: seq<Slot>, now': seq<Slot>, order: seq<nat>, i: nat, told: map<nat, nat>, told': map<nat, nat>)
    requires Visits(was, order) && Distinct(order) && i < |order| && Pending(was, now, order, i, told)
    requires |now'| == |now| && forall k :: 0 <= k < |now| && k != order[i] ==> now'[k] == now[k]
    requires forall k :: k != order[i] ==> At(told', k) == At(told, k)
    ensures Pending(was, now', order, i + 1, told')
  {
    forall j | i + 1 <= j < |order|
      ensures now'[order[j]] == was[order[j]] && order[j] !in told'
    {
      assert At(told', order[j]) == At(told, order[j]);
    }
  }

  lemma RoundPgGrows(x: nat, y: nat)
    requires x <= y
    ensures RoundPg(x) <= RoundPg(y)
  {
  }

  /** What the first pass reports and adds up is enough for a data area that ends at now. */
  lemma SpaceFits(now: nat, planned: nat, code: nat, size: nat)
    requires now <= planned && code <= size
    ensures now <= RoundPg(now) <= RoundPg(planned) && code <= size <= RoundPg(size)
  {
    RoundPgGrows(now, planned);
  }

  /** Less than a page is lost at each of the two roundings. */
  lemma SpaceIsTight(data: nat, code: nat)
    ensures (RoundPg(data) + RoundPg(code)) % 4096 == 0 && RoundPg(data) + RoundPg(code) < data + code + 2 * 4096
  {
  }

  ghost predicate AllListed(slots: seq<Slot>, order: seq<nat>, rw: seq<Rw>)
    requires Visits(slots, order)
  {
    forall i :: 0 <= i < |order| && slots[order[i]].Routine? && slots[order[i]].rtn.key.Some? ==>
      Listed(rw, slots[order[i]].rtn.key.value)
  }

  predicate Names(slot: Slot, key: nat) {
    slot.Routine? && slot.rtn.key == Some(key)
  }

  ghost predicate Named(slots: seq<Slot>, order: seq<nat>, key: nat)
    requires Visits(slots, order)
  {
    exists n :: 0 <= n < |order| && Names(slots[order[n]], key)
  }

  /** No data area is set aside for a key that no routine names. */
  ghost predicate OnlyNamed(slots: seq<Slot>, order: seq<nat>, rw: seq<Rw>)
    requires Visits(slots, order)
  {
    forall k :: 0 <= k < |rw| ==> Named(slots, order, rw[k].key)
  }

  lemma NamedNext(slots: seq<Slot>, order: seq<nat>, i: nat, key: nat)
    requires Visits(slots, order) && i < |order| && (Named(slots, order[..i], key) || Names(slots[order[i]], key))
    ensures Named(slots, order[..i + 1], key)
  {
    if Named(slots, order[..i], key) {
      var n :| 0 <= n < i && Names(slots[order[..i][n]], key);
      assert order[..i + 1][n] == order[..i][n];
    } else {
      assert order[..i + 1][i] == order[i];
    }
  }

  lemma OnlyNamedNext(slots: seq<Slot>, order: seq<nat>, i: nat, rw: seq<Rw>, rw': seq<Rw>)
    requires Visits(slots, order) && i < |order| && OnlyNamed(slots, order[..i], rw)
    requires rw' == rw || (exists key, off :: Names(slots[order[i]], key) && rw' == [Rw(key, off)] + rw)
    ensures OnlyNamed(slots, order[..i + 1], rw')
  {
    forall k | 0 <= k < |rw'|
      ensures Named(slots, order[..i + 1], rw'[k].key)
    {
      assert rw' != rw && k > 0 ==> rw'[k] == rw[k - 1];
      NamedNext(slots, order, i, rw'[k].key);
    }
  }

  predicate SomeRoutine(slots: seq<Slot>, order: seq<nat>)
    requires Visits(slots, order)
  {
    exists i :: 0 <= i < |order| && slots[order[i]].Routine?
  }

  predicate ZeroArea(page: seq<byte>, total: nat, rwSize: nat) {
    total + rwSize <= |page| && forall a :: total <= a < total + rwSize ==> page[a] == 0
  }

  /** What the write pass changes. */
  datatype State = State(slots: seq<Slot>, page: seq<byte>, told: map<nat, nat>, rtn: nat)

  /** callout_output_one on one slot: code goes to rtn_size, or to the first page border behind the
  data area, which is cleared then. */
  ghost predicate WroteOne(a: State, b: State, slot: nat, p: Place, rwSize: nat) {
    && slot < |a.slots| && |b.page| == |a.page|
    && (a.slots[slot].Null? ==> b == a)
    && (a.slots[slot].Routine? ==>
      var code := if a.rtn == 0 then p.start else a.rtn;
      && b.rtn == code + |a.slots[slot].rtn.code| <= |a.page|
      && b.slots == a.slots[slot := Address(p.kern + code)]
      && Written(a.slots[slot], b.slots[slot], b.page, code, p.kern, p.total, p.rw, At(b.told, slot))
      && (forall i :: 0 <= i < code ==> b.page[i] == if a.rtn == 0 && p.total <= i < p.total + rwSize then 0 else a.page[i])
      && (forall k :: k != slot ==> At(b.told, k) == At(a.told, k)))
  }

  /** The changes for a routine, put together. */
  lemma RoutineWritten(a: State, b: State, slot: nat, p: Place, rwSize: nat, code: nat)
    requires slot < |a.slots| && a.slots[slot].Routine? && slot !in a.told && |b.page| == |a.page|
    requires code == (if a.rtn == 0 then p.start else a.rtn) && b.rtn == code + |a.slots[slot].rtn.code| <= |a.page|
    requires b.slots == a.slots[slot := Address(p.kern + code)]
    requires b.page[code..b.rtn] == a.slots[slot].rtn.code
    requires forall i :: 0 <= i < code ==> b.page[i] == if a.rtn == 0 && p.total <= i < p.total + rwSize then 0 else a.page[i]
    requires var rtn := a.slots[slot].rtn;
      && (rtn.key.Some? ==> Listed(p.rw, rtn.key.value))
      && b.told == if rtn.patched then a.told[slot := p.total + if rtn.key.Some? then Lookup(p.rw, rtn.key.value) else 0] else a.told
    ensures WroteOne(a, b, slot, p, rwSize)
  {
  }

  /** Slots that order does not visit are untouched. */
  ghost predicate OthersKept(was: seq<Slot>, now: seq<Slot>, order: seq<nat>) {
    |now| == |was| && forall k :: 0 <= k < |now| && k !in order ==> now[k] == was[k]
  }

  lemma OthersStay(was: seq<Slot>, now: seq<Slot>, now': seq<Slot>, order: seq<nat>, i: nat)
    requires OthersKept(was, now, order) && i < |order| && |now'| == |now|
    requires forall k :: 0 <= k < |now| && k != order[i] ==> now'[k] == now[k]
    ensures OthersKept(was, now', order)
  {
  }

  /** The write pass after i visits: page0 was the page and rtn is rtn_size, 0 as long as no routine
  was met; the first routine clears the data area. */
  ghost predicate Underway(was: seq<Slot>, page0: seq<byte>, a: State, order: seq<nat>, i: nat, p: Place, rwSize: nat)
    requires Visits(was, order) && i <= |order|
  {
    && p.total <= |a.page| == |page0| && a.page[..p.total] == page0[..p.total]
    && p.start + CodeBytes(was, order[..i]) == (if a.rtn == 0 then p.start else a.rtn)
    && Progress(was, a.slots, a.page, order, i, p, a.told) && Pending(was, a.slots, order, i, a.told)
    && if a.rtn == 0 then !SomeRoutine(was, order[..i]) else ZeroArea(a.page, p.total, rwSize)
  }

  lemma UnderwayStart(was: seq<Slot>, a: State, order: seq<nat>, p: Place, rwSize: nat)
    requires Visits(was, order) && a.slots == was && a.rtn == 0 && a.told == map[] && p.total <= |a.page|
    ensures Underway(was, a.page, a, order, 0, p, rwSize)
  {
  }

  /** An empty slot changes nothing. */
  lemma UnderwayNull(was: seq<Slot>, page0: seq<byte>, a: State, order: seq<nat>, i: nat, p: Place, rwSize: nat)
    requires Visits(was, order) && Distinct(order) && i < |order| && was[order[i]].Null?
    requires Underway(was, page0, a, order, i, p, rwSize)
    ensures Underway(was, page0, a, order, i + 1, p, rwSize)
  {
    CodeBytesStep(was, order, i);
    PendingStays(was, a.slots, a.slots, order, i, a.told, a.told);
    assert WrittenAt(was, a.slots, a.page, order, i, p, a.told);
  }

  /** A routine is written behind the ones before it. */
  lemma UnderwayRoutine(was: seq<Slot>, page0: seq<byte>, a: State, b: State, order: seq<nat>, i: nat, p: Place, rwSize: nat)
    requires Visits(was, order) && Distinct(order) && i < |order| && was[order[i]].Routine?
    requires Underway(was, page0, a, order, i, p, rwSize) && WroteOne(a, b, order[i], p, rwSize)
    requires 0 < p.total && p.total + rwSize <= p.start
    ensures Underway(was, page0, b, order, i + 1, p, rwSize)
  {
    CodeBytesStep(was, order, i);
    assert a.slots[order[i]] == was[order[i]];
    SamePrefix(a.page, b.page, p.total);
    ProgressStays(was, a.slots, b.slots, a.page, b.page, order, i, p, a.told, b.told);
    PendingStays(was, a.slots, b.slots, order, i, a.told, b.told);
    assert WrittenAt(was, b.slots, b.page, order, i, p, b.told);
  }

  class Callouts {
    /** The words *rtn->rw_size of the callout code, which never change. */
    const sizes: map<nat, nat>

    var rwAddrs: seq<Rw>
    var rwSize: nat
    var rtnSize: nat

    /** The callout entries of the system page. */
    var slots: seq<Slot>

    /** The memory of the final system page, from _syspage_ptr on. */
    var page: seq<byte>

    /** The data offset that each slot's patcher was called with. */
    var told: map<nat, nat>

    constructor (slots: seq<Slot>, sizes: map<nat, nat>)
      ensures this.slots == slots && this.sizes == sizes
      ensures rwAddrs == [] && rwSize == 0 && rtnSize == 0 && page == [] && told == map[]
    {
      this.slots, this.sizes := slots, sizes;
      rwAddrs, rwSize, rtnSize, page, told := [], 0, 0, [], map[];
    }

    /** The search of the sizing pass. */
    method Knows(key: nat) returns (known: bool)
      ensures known <==> Listed(rwAddrs, key)
    {
      var i := 0;
      while i < |rwAddrs|
        invariant i <= |rwAddrs| && forall k :: 0 <= k < i ==> rwAddrs[k].key != key
      {
        if rwAddrs[i].key == key {
          return true;
        }
        i := i + 1;
      }
      known := false;
    }

    /** The search of the write pass. */
    method FindRw(key: nat) returns (off: nat)
      requires Listed(rwAddrs, key)
      ensures off == Lookup(rwAddrs, key)
    {
      var rw := rwAddrs;
      while rw[0].key != key
        invariant Listed(rw, key) && Lookup(rw, key) == Lookup(rwAddrs, key)
        decreases |rw|
      {
        assert forall k :: 0 < k < |rw| ==> rw[k] == rw[1..][k - 1];
        rw := rw[1..];
      }
      off := rw[0].off;
    }

    /** callout_output_one while sizing. */
    method SizeOne(slot: nat)
      requires slot < |slots| && FreshSlot(slots[slot], sizes) && Stacked(rwAddrs, sizes, rwSize)
      modifies this`rwAddrs, this`rwSize, this`rtnSize
      ensures Stacked(rwAddrs, sizes, rwSize)
      ensures rtnSize == old(rtnSize) + if slots[slot].Routine? then |slots[slot].rtn.code| else 0
      ensures slots[slot].Routine? && slots[slot].rtn.key.Some? ==> Listed(rwAddrs, slots[slot].rtn.key.value)
      ensures forall k :: Listed(old(rwAddrs), k) ==> Listed(rwAddrs, k)
      ensures rwAddrs == old(rwAddrs) || exists key, off :: Names(slots[slot], key) && rwAddrs == [Rw(key, off)] + old(rwAddrs)
    {
      var s := slots[slot];
      if s.Null? {
        return;
      }
      rtnSize := rtnSize + |s.rtn.code|;
      if s.rtn.key.Some? {
        var key := s.rtn.key.value;
        var known := Knows(key);
        if known {
          return;
        }
        ghost var rw0 := rwAddrs;
        rwAddrs := [Rw(key, rwSize)] + rwAddrs;
        assert rwAddrs[0].key == key && rwAddrs[1..] == rw0;
        assert forall i :: 0 <= i < |rw0| ==> rwAddrs[i + 1] == rw0[i];
        rwSize := rwSize + sizes[key];
      }
    }

    /** output_callouts(&rwsize). */
    method SizeAll(order: seq<nat>) returns (size: nat, rwsize: nat)
      requires Fresh(slots, order, sizes) && rwAddrs == [] && rwSize == 0 && rtnSize == 0
      modifies this`rwAddrs, this`rwSize, this`rtnSize
      ensures size == Round8(CodeBytes(slots, order)) && rwsize == rwSize && rwSize % 8 == 0 && rtnSize == 0
      ensures exists top: nat :: Stacked(rwAddrs, sizes, top) && rwSize == Round8(top)
      ensures AllListed(slots, order, rwAddrs) && OnlyNamed(slots, order, rwAddrs)
    {
      var i := 0;
      while i < |order|
        invariant i <= |order| && Stacked(rwAddrs, sizes, rwSize)
        invariant rtnSize == CodeBytes(slots, order[..i])
        invariant AllListed(slots, order[..i], rwAddrs) && OnlyNamed(slots, order[..i], rwAddrs)
      {
        ghost var rw0 := rwAddrs;
        CodeBytesStep(slots, order, i);
        SizeOne(order[i]);
        OnlyNamedNext(slots, order, i, rw0, rwAddrs);
        i := i + 1;
      }
      assert order[..i] == order;
      rwSize := Round8(rwSize);
      size, rwsize, rtnSize := Round8(rtnSize), rwSize, 0;
    }

    /** The memory writes: the first call clears the data area and starts the code behind it. */
    method PutCode(code: seq<byte>, total: nat)
      requires total + rwSize <= RoundPg(total + rwSize) <= |page|
      requires (if rtnSize == 0 then RoundPg(total + rwSize) else rtnSize) + |code| <= |page|
      modifies this`rtnSize, this`page
      ensures rtnSize == if old(rtnSize) == 0 then RoundPg(total + rwSize) else old(rtnSize)
      ensures |page| == |old(page)| && page[rtnSize..rtnSize + |code|] == code
      ensures forall a :: 0 <= a < rtnSize ==>
        page[a] == if old(rtnSize) == 0 && total <= a < total + rwSize then 0 else old(page)[a]
    {
      if rtnSize == 0 {
        page := page[..total] + seq(rwSize, _ => 0) + page[total + rwSize..];
        rtnSize := RoundPg(total + rwSize);
      }
      page := page[..rtnSize] + code + page[rtnSize + |code|..];
    }

    /** callout_output_one while writing; total is the size of the system page now. */
    method WriteOne(slot: nat, total: nat, kern: nat)
      requires slot < |slots| && FreshSlot(slots[slot], sizes)
      requires slots[slot].Routine? && slots[slot].rtn.key.Some? ==> Listed(rwAddrs, slots[slot].rtn.key.value)
      requires total + rwSize <= RoundPg(total + rwSize) <= |page|
      requires total > 0
      requires slots[slot].Routine? ==> (if rtnSize == 0 then RoundPg(total + rwSize) else rtnSize) + |slots[slot].rtn.code| <= |page|
      requires slot !in told
      modifies this`rtnSize, this`slots, this`page, this`told
      ensures WroteOne(State(old(slots), old(page), old(told), old(rtnSize)), State(slots, page, told, rtnSize), slot,
        Place(RoundPg(total + rwSize), kern, total, rwAddrs), rwSize)
    {
      var s := slots[slot];
      if s.Null? {
        return;
      }
      ghost var a := State(slots, page, told, rtnSize);
      PutCode(s.rtn.code, total);
      ghost var code := rtnSize;
      var rwOff := total;
      if s.rtn.key.Some? {
        var off := FindRw(s.rtn.key.value);
        rwOff := rwOff + off;
      }
      if s.rtn.patched {
        told := told[slot := rwOff];
      }
      slots := slots[slot := Address(kern + rtnSize)];
      rtnSize := rtnSize + |s.rtn.code|;
      RoutineWritten(a, State(slots, page, told, rtnSize), slot, Place(RoundPg(total + rwSize), kern, total, rwAddrs), rwSize, code);
    }

    /** One turn of the loop. */
    method WriteNext(order: seq<nat>, i: nat, total: nat, kern: nat, ghost was: seq<Slot>, ghost page0: seq<byte>, ghost p: Place)
      requires Fresh(was, order, sizes) && Distinct(order) && AllListed(was, order, rwAddrs) && i < |order| && total > 0
      requires p == Place(RoundPg(total + rwSize), kern, total, rwAddrs)
      requires p.start + CodeBytes(was, order[..i + 1]) <= |page|
      requires Underway(was, page0, State(slots, page, told, rtnSize), order, i, p, rwSize)
      modifies this`rtnSize, this`slots, this`page, this`told
      ensures Underway(was, page0, State(slots, page, told, rtnSize), order, i + 1, p, rwSize)
      ensures |slots| == |old(slots)| && forall k :: 0 <= k < |slots| && k != order[i] ==> slots[k] == old(slots)[k]
    {
      CodeBytesStep(was, order, i);
      ghost var a := State(slots, page, told, rtnSize);
      assert slots[order[i]] == was[order[i]] && order[i] !in told;
      WriteOne(order[i], total, kern);
      if was[order[i]].Null? {
        UnderwayNull(was, page0, a, order, i, p, rwSize);
      } else {
        UnderwayRoutine(was, page0, a, State(slots, page, told, rtnSize), order, i, p, rwSize);
      }
    }

    /** The do-while loop of output_callouts(NULL). */
    method WriteEach(order: seq<nat>, total: nat, kern: nat, ghost p: Place)
      requires Fresh(slots, order, sizes) && Distinct(order) && AllListed(slots, order, rwAddrs)
      requires rtnSize == 0 && told == map[] && total > 0
      requires p == Place(RoundPg(total + rwSize), kern, total, rwAddrs) && p.start + CodeBytes(slots, order) <= |page|
      modifies this`rtnSize, this`slots, this`page, this`told
      ensures Underway(old(slots), old(page), State(slots, page, told, rtnSize), order, |order|, p, rwSize)
      ensures OthersKept(old(slots), slots, order)
    {
      ghost var was, page0 := slots, page;
      assert order[..|order|] == order;
      UnderwayStart(was, State(slots, page, told, rtnSize), order, p, rwSize);
      var i := 0;
      while i < |order|
        invariant i <= |order| && |page| == |page0|
        invariant Underway(was, page0, State(slots, page, told, rtnSize), order, i, p, rwSize)
        invariant OthersKept(was, slots, order)
      {
        ghost var now := slots;
        CodeBytesGrow(was, order, i + 1, |order|);
        WriteNext(order, i, total, kern, was, page0, p);
        OthersStay(was, now, slots, order, i);
        i := i + 1;
      }
    }

    /** output_callouts(NULL). */
    method WriteAll(order: seq<nat>, total: nat, kern: nat)
      requires Fresh(slots, order, sizes) && Distinct(order) && AllListed(slots, order, rwAddrs)
      requires rtnSize == 0 && rwSize % 8 == 0 && told == map[] && total > 0
      requires RoundPg(total + rwSize) + CodeBytes(slots, order) <= |page|
      modifies this`rwSize, this`rtnSize, this`slots, this`page, this`told
      ensures rwSize == old(rwSize) && |page| == |old(page)| && page[..total] == old(page)[..total]
      ensures Progress(old(slots), slots, page, order, |order|, Place(RoundPg(total + rwSize), kern, total, rwAddrs), told)
      ensures OthersKept(old(slots), slots, order)
      ensures SomeRoutine(old(slots), order) ==> ZeroArea(page, total, rwSize)
    {
      WriteEach(order, total, kern, Place(RoundPg(total + rwSize), kern, total, rwAddrs));
      assert order[..|order|] == order;
      Round8OfMultiple(rwSize);
      rwSize := Round8(rwSize);
    }

    /** cpu_alloc_syspage_memory; the contents of the memory are unknown. */
    method TakeMemory(spsize: nat) returns (ghost ram: seq<byte>)
      modifies this`page
      ensures |page| == spsize && ram == page
    {
      page := *;
      if |page| != spsize {
        page := seq(spsize, _ => 0);
      }
      ram := page;
    }

    /** alloc_syspage_memory up to the copy of the system page: both passes' space is computed and taken. */
    method Allocate(order: seq<nat>, total: nat, grown: nat, asinfo: nat)
        returns (spsize: nat, calloutsSize: nat, ghost ram: seq<byte>)
      requires Fresh(slots, order, sizes) && rwAddrs == [] && rwSize == 0 && rtnSize == 0 && grown <= 4 * asinfo
      modifies this`rwAddrs, this`rwSize, this`rtnSize, this`page
      ensures calloutsSize == Round8(CodeBytes(slots, order)) && rtnSize == 0 && rwSize % 8 == 0
      ensures AllListed(slots, order, rwAddrs) && OnlyNamed(slots, order, rwAddrs)
      ensures exists top: nat :: Stacked(rwAddrs, sizes, top) && rwSize == Round8(top)
      ensures spsize % 4096 == 0 && spsize < total + rwSize + 4 * asinfo + calloutsSize + 2 * 4096
      ensures total + grown <= RoundPg(total + grown + rwSize) && |page| == spsize && ram == page
      ensures RoundPg(total + grown + rwSize) + CodeBytes(slots, order) <= RoundPg(total + grown + rwSize) + RoundPg(calloutsSize) <= spsize
    {
      var rwsize;
      calloutsSize, rwsize := SizeAll(order);
      spsize := RoundPg(total + rwsize + 4 * asinfo);
      spsize := spsize + RoundPg(calloutsSize);
      SpaceIsTight(total + rwsize + 4 * asinfo, calloutsSize);
      SpaceFits(total + grown + rwsize, total + rwsize + 4 * asinfo, CodeBytes(slots, order), calloutsSize);
      ram := TakeMemory(spsize);
    }

    /** alloc_syspage_memory: size, allocate, and write, while the system page grows from total by
    grown bytes, room for at most four address space entries of asinfo bytes each. ram is what the
    allocated memory happened to hold. */
    method AllocSyspageMemory(order: seq<nat>, total: nat, grown: nat, asinfo: nat, kern: nat)
        returns (spsize: nat, calloutsSize: nat, ghost ram: seq<byte>)
      requires Fresh(slots, order, sizes) && Distinct(order)
      requires rwAddrs == [] && rwSize == 0 && rtnSize == 0 && told == map[]
      requires total > 0 && grown <= 4 * asinfo
      modifies this
      ensures CodeBytes(old(slots), order) <= calloutsSize < CodeBytes(old(slots), order) + 8 && calloutsSize % 8 == 0
      ensures spsize % 4096 == 0 && spsize < total + rwSize + 4 * asinfo + calloutsSize + 2 * 4096
      ensures var start := RoundPg(total + grown + rwSize);
        && Progress(old(slots), slots, page, order, |order|, Place(start, kern, total + grown, rwAddrs), told)
        && start + RoundPg(calloutsSize) <= spsize == |page|
      ensures SomeRoutine(old(slots), order) ==> ZeroArea(page, total + grown, rwSize)
      ensures total + grown <= |ram| == |page| && page[..total + grown] == ram[..total + grown]
      ensures exists top: nat :: Stacked(rwAddrs, sizes, top) && top <= rwSize < top + 8 && rwSize % 8 == 0
      ensures OnlyNamed(old(slots), order, rwAddrs)
      ensures OthersKept(old(slots), slots, order)
    {
      spsize, calloutsSize, ram := Allocate(order, total, grown, asinfo);
      WriteAll(order, total + grown, kern);
    }
  }

  /** Routines follow one another in the order of the visits, up to the size that was reported. */
  lemma CodeFollows(slots: seq<Slot>, order: seq<nat>, i: nat, j: nat)
    requires Visits(slots, order) && i < j <= |order| && slots[order[i]].Routine?
    ensures CodeBytes(slots, order[..i]) + |slots[order[i]].rtn.code| <= CodeBytes(slots, order[..j])
  {
    CodeBytesStep(slots, order, i);
    CodeBytesGrow(slots, order, i + 1, j);
  }

  /** What the finished layout means for any two callouts: their code does not overlap, lies behind
  all data, and ends where the reported size says. */
  lemma CodeApart(was: seq<Slot>, now: seq<Slot>, page: seq<byte>, order: seq<nat>, i: nat, j: nat, p: Place, told: map<nat, nat>)
    requires Visits(was, order) && |now| == |was| && Progress(was, now, page, order, |order|, p, told)
    requires i < j < |order| && was[order[i]].Routine? && was[order[j]].Routine?
    ensures now[order[i]].Address? && now[order[j]].Address?
    ensures var r, s := was[order[i]].rtn, was[order[j]].rtn;
      && p.kern + p.start <= now[order[i]].vaddr
      && now[order[i]].vaddr + |r.code| <= now[order[j]].vaddr
      && now[order[j]].vaddr + |s.code| <= p.kern + p.start + CodeBytes(was, order)
  {
    assert WrittenAt(was, now, page, order, i, p, told);
    assert WrittenAt(was, now, page, order, j, p, told);
    CodeFollows(was, order, i, j);
    CodeFollows(was, order, j, |order|);
    assert order[..|order|] == order;
  }

  /** ... and they share a data area exactly when they name the same key; otherwise the areas are
  disjoint. All of them lie between the page and the code. */
  lemma DataShared(was: seq<Slot>, now: seq<Slot>, page: seq<byte>, order: seq<nat>, i: nat, j: nat, p: Place, told: map<nat, nat>,
      sizes: map<nat, nat>, top: nat)
    requires Visits(was, order) && Progress(was, now, page, order, |order|, p, told) && Stacked(p.rw, sizes, top)
    requires i < |order| && j < |order| && was[order[i]].Routine? && was[order[j]].Routine?
    requires var r, s := was[order[i]].rtn, was[order[j]].rtn; r.patched && s.patched && r.key.Some? && s.key.Some?
    ensures order[i] in told && order[j] in told
    ensures var k, l := was[order[i]].rtn.key.value, was[order[j]].rtn.key.value;
      && k in sizes && l in sizes
      && p.total <= told[order[i]] && told[order[i]] + sizes[k] <= p.total + top
      && (k == l ==> told[order[i]] == told[order[j]])
      && (k != l ==> told[order[i]] + sizes[k] <= told[order[j]] || told[order[j]] + sizes[l] <= told[order[i]])
  {
    assert WrittenAt(was, now, page, order, i, p, told) && WrittenAt(was, now, page, order, j, p, told);
    var k, l := was[order[i]].rtn.key.value, was[order[j]].rtn.key.value;
    LookupFits(p.rw, sizes, top, k);
    LookupFits(p.rw, sizes, top, l);
    if k != l {
      LookupApart(p.rw, sizes, top, k, l);
    }
  }
}
