/** Whole runs of the RAM allocator: the blocks it hands out never overlap (lib/ram.c:274-466).

A run is a sequence of states joined by the step relations that the methods of Ram.RamAllocator
establish (AllocStep, WsAllocStep, AddRamStep, AvoidStep). */
module RamRuns {
  import opened Align
  import opened Avoids
  import opened Blocks
  import opened Options
  import opened Ram

  datatype Event =
    | WsAllocCall(size: nat, res: Option<nat>)
    | AllocCall(req: Option<nat>, size: nat, align: nat, res: Option<nat>)
    | AddRamCall(start: nat, size: nat, image: Block, wanted: bool, temp: Option<nat>)
    | AvoidCall(start: nat, size: nat)

  ghost predicate Step(s: RamState, e: Event, s': RamState) {
    match e
    case WsAllocCall(size, res) => WsAllocStep(s, size, res, s')
    case AllocCall(req, size, align, res) => AllocStep(s, req, size, align, res, s')
    case AddRamCall(start, size, image, wanted, temp) => AddRamStep(s, start, size, image, wanted, temp, s')
    case AvoidCall(start, size) => s' == s.(avoid := AvoidStep(s.avoid, start, size))
  }

  lemma PlaceMeansRoom(s: RamState, a: nat, size: nat, align: nat)
    requires align > 0 && Lowest(s, a, size, align)
    ensures !NoRoom(s, size, align)
  {
    assert a == a / align * align;
  }

  /** The answer of alloc_ram and the list it leaves are determined by the state and the arguments. */
  lemma AllocUnique(s: RamState, req: Option<nat>, size: nat, align: nat, r1: Option<nat>, s1: RamState, r2: Option<nat>, s2: RamState)
    requires AllocStep(s, req, size, align, r1, s1) && AllocStep(s, req, size, align, r2, s2)
    requires Sane(s1) && Sane(s2) && (req.None? ==> align > 0)
    ensures r1 == r2 && s1 == s2
  {
    if req.None? && r1.Some? {
      PlaceMeansRoom(s, r1.value, size, align);
    }
    if req.None? && r2.Some? {
      PlaceMeansRoom(s, r2.value, size, align);
    }
    CanonicalUnique(s1.free, s2.free);
  }

  /** So are those of ws_alloc. */
  lemma WsAllocUnique(s: RamState, size: nat, r1: Option<nat>, s1: RamState, r2: Option<nat>, s2: RamState)
    requires WsAllocStep(s, size, r1, s1) && WsAllocStep(s, size, r2, s2)
    ensures r1 == r2 && s1 == s2
  {
    if s.free != [] && r1.Some? {
      PlaceMeansRoom(s, r1.value, Round(size, 8), 8);
    }
    if s.free != [] && r2.Some? {
      PlaceMeansRoom(s, r2.value, Round(size, 8), 8);
    }
  }

  /** And those of add_ram, with the place of the temporary system page. */
  lemma AddRamUnique(s: RamState, start: nat, size: nat, image: Block, wanted: bool, t1: Option<nat>, s1: RamState, t2: Option<nat>,
                     s2: RamState)
    requires AddRamStep(s, start, size, image, wanted, t1, s1) && AddRamStep(s, start, size, image, wanted, t2, s2)
    requires Sane(s1) && Sane(s2)
    ensures t1 == t2 && s1 == s2
  {
    CanonicalUnique(s1.free, s2.free);
    if t1.Some? {
      PlaceMeansRoom(s1.(avoid := s.avoid), t1.value, TEMP_SYSPAGE_SIZE, PAGE);
    }
    if t2.Some? {
      PlaceMeansRoom(s2.(avoid := s.avoid), t2.value, TEMP_SYSPAGE_SIZE, PAGE);
    }
  }

  /** The block a call hands to its caller. A call that names its own address hands out nothing new. */
  function Handed(e: Event): Option<Block> {
    match e
    case WsAllocCall(size, res) => if res.Some? then Some(Block(res.value, Round(size, 8))) else None
    case AllocCall(req, size, align, res) =>
      if req.None? && res.Some? then Some(Block(res.value, size)) else None
    case AddRamCall(start, size, image, wanted, temp) =>
      if temp.Some? then Some(Block(temp.value, TEMP_SYSPAGE_SIZE)) else None
    case AvoidCall(start, size) => None
  }

  /** The range a call adds to the avoid list. */
  function AvoidedBy(e: Event): Option<Block> {
    match e
    case WsAllocCall(size, res) => if res.Some? then Some(Block(res.value, Round(size, 8))) else None
    case AllocCall(req, size, align, res) => None
    case AddRamCall(start, size, image, wanted, temp) =>
      if temp.Some? then Some(Block(temp.value, TEMP_SYSPAGE_SIZE)) else None
    case AvoidCall(start, size) => Some(Block(start, size))
  }

  ghost predicate Linked(states: seq<RamState>, events: seq<Event>, i: nat)
    requires i < |events| < |states|
  {
    Step(states[i], events[i], states[i + 1])
  }

  /** A run from an allocator that knows no RAM yet. */
  ghost predicate Run(states: seq<RamState>, events: seq<Event>) {
    && |states| == |events| + 1
    && states[0].free == []
    && (forall i :: 0 <= i < |states| ==> Sane(states[i]))
    && forall i: nat :: i < |events| ==> Linked(states, events, i)
  }

  ghost predicate RamAdded(events: seq<Event>, n: nat)
    requires n <= |events|
  {
    exists i :: 0 <= i < n && events[i].AddRamCall?
  }

  /** The free list is not empty when ws_alloc is called after an add_ram. */
  ghost predicate NeverDry(states: seq<RamState>, events: seq<Event>)
    requires |states| == |events| + 1
  {
    forall i :: 0 <= i < |events| && events[i].WsAllocCall? && RamAdded(events, i) ==> states[i].free != []
  }

  /** add_ram is not given bytes that alloc_ram handed out. */
  ghost predicate NoReAdd(events: seq<Event>) {
    forall i, j :: 0 <= i < j < |events| && events[i].AllocCall? && Handed(events[i]).Some? && events[j].AddRamCall? ==>
      Handed(events[i]).value.Disjoint(Block(events[j].start, events[j].size))
  }

  /** Searches name an alignment; explicit carves need none. */
  ghost predicate Aligned(events: seq<Event>) {
    forall i :: 0 <= i < |events| && events[i].AllocCall? && events[i].req.None? ==> events[i].align > 0
  }

  /** No range that a call avoids runs up to the end of 64 bits or wraps. */
  ghost predicate NoneWraps(events: seq<Event>) {
    forall i :: 0 <= i < |events| && AvoidedBy(events[i]).Some? ==> AvoidedBy(events[i]).value.End() < TWO_64
  }

  /** Whenever a block is handed out that stays on the free list and is only avoided, searches see all
  of the avoid list. */
  ghost predicate NothingHidden(states: seq<RamState>, events: seq<Event>)
    requires |states| == |events| + 1
  {
    forall i :: 0 <= i < |events| && Handed(events[i]).Some? && !events[i].AllocCall? ==> Shown(states[i].avoid)
  }

  /** What the run result asks of the calls. */
  ghost predicate Guarded(states: seq<RamState>, events: seq<Event>)
    requires |states| == |events| + 1
  {
    NeverDry(states, events) && NoReAdd(events) && Aligned(events) && NoneWraps(events) && NothingHidden(states, events)
  }

  ghost predicate Exclusive(events: seq<Event>, n: nat)
    requires n <= |events|
  {
    forall i, j :: 0 <= i < j < n && Handed(events[i]).Some? && Handed(events[j]).Some? ==>
      Handed(events[i]).value.Disjoint(Handed(events[j]).value)
  }

  /** Why a handed-out block cannot be handed out again. */
  ghost predicate Kept(s: RamState, e: Event)
    requires Handed(e).Some?
  {
    var b := Handed(e).value;
    if e.AllocCall? then forall x: nat :: b.Has(x) ==> !Covers(s.free, x)
    else forall x: nat :: b.Has(x) ==> InAvoid(Visible(s.avoid), x)
  }

  /** While no RAM was added there are only early blocks, all below the bump pointer. */
  ghost predicate OnlyEarly(states: seq<RamState>, events: seq<Event>, n: nat)
    requires |states| == |events| + 1 && n <= |events|
  {
    && states[n].free == []
    && forall i :: 0 <= i < n && Handed(events[i]).Some? ==>
         events[i].WsAllocCall? && Handed(events[i]).value.End() <= states[n].early
  }

  ghost predicate AllKept(states: seq<RamState>, events: seq<Event>, n: nat)
    requires |states| == |events| + 1 && n <= |events|
  {
    forall i :: 0 <= i < n && Handed(events[i]).Some? ==> Kept(states[n], events[i])
  }

  ghost predicate RunInv(states: seq<RamState>, events: seq<Event>, n: nat)
    requires |states| == |events| + 1 && n <= |events|
  {
    && Exclusive(events, n)
    && AllKept(states, events, n)
    && (!RamAdded(events, n) ==> OnlyEarly(states, events, n))
  }

  lemma EmptyList(l: seq<Block>)
    requires Canonical(l) && forall x: nat :: !Covers(l, x)
    ensures l == []
  {
    assert l != [] ==> l[0].Has(l[0].addr);
    assert l != [] ==> Covers(l, l[0].addr);
  }

  /** A block kept away from the searches is disjoint from anything available. */
  lemma KeptDisjoint(s: RamState, e: Event, b: Block)
    requires Handed(e).Some? && Kept(s, e) && Available(s, b.addr, b.size)
    ensures Handed(e).value.Disjoint(b)
  {
    forall x: nat
      ensures !(Handed(e).value.Has(x) && b.Has(x))
    {
    }
  }

  /** One more step keeps the block of an earlier call. */
  lemma StaysKept(s: RamState, e: Event, s': RamState, earlier: Event)
    requires Step(s, e, s') && Handed(earlier).Some? && Kept(s, earlier)
    requires earlier.AllocCall? && e.AddRamCall? ==> Handed(earlier).value.Disjoint(Block(e.start, e.size))
    requires AvoidedBy(e).Some? ==> AvoidedBy(e).value.End() < TWO_64
    ensures Kept(s', earlier)
  {
    var b := Handed(earlier).value;
    if earlier.AllocCall? {
      forall x: nat | b.Has(x)
        ensures !Covers(s'.free, x)
      {
        assert !Covers(s.free, x);
        if e.AddRamCall? {
          assert !Block(e.start, e.size).Has(x);
        }
      }
    } else {
      forall x: nat | b.Has(x)
        ensures InAvoid(Visible(s'.avoid), x)
      {
        assert InAvoid(Visible(s.avoid), x);
        if AvoidedBy(e).Some? {
          StaysVisible(s.avoid, AvoidedBy(e).value.addr, AvoidedBy(e).value.size, x);
        }
      }
    }
  }

  /** The new block is kept, and clear of every earlier one when it came from a search. */
  lemma NewBlockKept(s: RamState, e: Event, s': RamState)
    requires Step(s, e, s') && Handed(e).Some? && (e.AllocCall? && e.req.None? ==> e.align > 0)
    requires !e.AllocCall? ==> Shown(s.avoid) && AvoidedBy(e).value.End() < TWO_64
    ensures Kept(s', e)
    ensures !(e.WsAllocCall? && s.free == []) ==>
      var b := Handed(e).value; Available(if e.AddRamCall? then s'.(avoid := s.avoid) else s, b.addr, b.size)
  {
    if !e.AllocCall? {
      RangeBehindNonzero(s.avoid, AvoidedBy(e).value.addr, AvoidedBy(e).value.size);
    }
  }

  lemma StepKeepsBlocks(states: seq<RamState>, events: seq<Event>, n: nat, i: nat)
    requires Run(states, events) && i < n < |events| && Handed(events[i]).Some? && Kept(states[n], events[i])
    requires NoReAdd(events) && NoneWraps(events)
    ensures Kept(states[n + 1], events[i])
  {
    assert Linked(states, events, n);
    StaysKept(states[n], events[n], states[n + 1], events[i]);
  }

  /** The block of step n is clear of the block of an earlier call. */
  lemma StepIsExclusive(states: seq<RamState>, events: seq<Event>, n: nat, i: nat)
    requires Run(states, events) && i < n < |events| && Guarded(states, events)
    requires Handed(events[i]).Some? && Handed(events[n]).Some? && Kept(states[n], events[i])
    requires !RamAdded(events, n) ==> events[i].WsAllocCall? && Handed(events[i]).value.End() <= states[n].early
    ensures Handed(events[i]).value.Disjoint(Handed(events[n]).value)
  {
    var s, e, s' := states[n], events[n], states[n + 1];
    assert Linked(states, events, n);
    NewBlockKept(s, e, s');
    StepKeepsBlocks(states, events, n, i);
    var b := Handed(e).value;
    if e.WsAllocCall? && s.free == [] {
      assert !RamAdded(events, n);
    } else if e.AddRamCall? {
      KeptDisjoint(s'.(avoid := s.avoid), events[i], b);
    } else {
      KeptDisjoint(s, events[i], b);
    }
  }

  lemma StepKeepsEarly(states: seq<RamState>, events: seq<Event>, n: nat)
    requires Run(states, events) && n < |events| && OnlyEarly(states, events, n) && !events[n].AddRamCall? && Aligned(events)
    ensures OnlyEarly(states, events, n + 1)
  {
    var s, e, s' := states[n], events[n], states[n + 1];
    assert Linked(states, events, n);
    assert forall x: nat :: !Covers(s.free, x);
    assert forall x: nat :: Covers(s'.free, x) ==> Covers(s.free, x);
    EmptyList(s'.free);
  }

  lemma StepKeepsExclusive(states: seq<RamState>, events: seq<Event>, n: nat)
    requires Run(states, events) && n < |events| && RunInv(states, events, n)
    requires Guarded(states, events)
    ensures Exclusive(events, n + 1)
  {
    if Handed(events[n]).Some? {
      forall i | 0 <= i < n && Handed(events[i]).Some?
        ensures Handed(events[i]).value.Disjoint(Handed(events[n]).value)
      {
        StepIsExclusive(states, events, n, i);
      }
    }
  }

  lemma StepKeepsNew(states: seq<RamState>, events: seq<Event>, n: nat)
    requires Run(states, events) && n < |events| && Handed(events[n]).Some?
    requires Aligned(events) && NoneWraps(events) && NothingHidden(states, events)
    ensures Kept(states[n + 1], events[n])
  {
    assert Linked(states, events, n);
    NewBlockKept(states[n], events[n], states[n + 1]);
  }

  lemma StepKeepsAll(states: seq<RamState>, events: seq<Event>, n: nat)
    requires Run(states, events) && n < |events| && AllKept(states, events, n)
    requires Guarded(states, events)
    ensures AllKept(states, events, n + 1)
  {
    forall i | 0 <= i < n && Handed(events[i]).Some?
      ensures Kept(states[n + 1], events[i])
    {
      StepKeepsBlocks(states, events, n, i);
    }
    if Handed(events[n]).Some? {
      StepKeepsNew(states, events, n);
    }
  }

  lemma StepKeepsRunInv(states: seq<RamState>, events: seq<Event>, n: nat)
    requires Run(states, events) && n < |events| && RunInv(states, events, n)
    requires Guarded(states, events)
    ensures RunInv(states, events, n + 1)
  {
    assert RamAdded(events, n) ==> RamAdded(events, n + 1);
    assert events[n].AddRamCall? ==> RamAdded(events, n + 1);
    StepKeepsExclusive(states, events, n);
    StepKeepsAll(states, events, n);
    if !RamAdded(events, n + 1) {
      StepKeepsEarly(states, events, n);
    }
  }

  lemma RunInvStart(states: seq<RamState>, events: seq<Event>)
    requires Run(states, events)
    ensures RunInv(states, events, 0)
  {
  }

  lemma {:induction false} RunInvHolds(states: seq<RamState>, events: seq<Event>, n: nat)
    requires Run(states, events) && n <= |events|
    requires Guarded(states, events)
    ensures RunInv(states, events, n)
    decreases n
  {
    if n == 0 {
      RunInvStart(states, events);
    } else {
      RunInvHolds(states, events, n - 1);
      StepKeepsRunInv(states, events, n - 1);
    }
  }

  /** All blocks handed out in a run are pairwise disjoint, whatever the interleaving of early
  bump allocations, searches, explicit carves, added RAM and avoided ranges. */
  lemma {:induction false} BlocksNeverOverlap(states: seq<RamState>, events: seq<Event>)
    requires Run(states, events)
    requires Guarded(states, events)
    ensures Exclusive(events, |events|)
  {
    RunInvHolds(states, events, |events|);
  }

  /** Nothing is ever hidden when it is not at first and every avoided range ends above 0. */
  lemma {:induction false} NothingIsHidden(states: seq<RamState>, events: seq<Event>, n: nat)
    requires Run(states, events) && n <= |events| && Shown(states[0].avoid) && NoneWraps(events)
    requires forall i :: 0 <= i < n && AvoidedBy(events[i]).Some? ==> AvoidedBy(events[i]).value.End() > 0
    ensures forall i :: 0 <= i <= n ==> Shown(states[i].avoid)
    ensures n == |events| ==> NothingHidden(states, events)
  {
    if n > 0 {
      NothingIsHidden(states, events, n - 1);
      assert Linked(states, events, n - 1);
      if AvoidedBy(events[n - 1]).Some? {
        var b := AvoidedBy(events[n - 1]).value;
        StepNonzero(states[n - 1].avoid, b.addr, b.size);
      }
    }
  }

  /** One block more keeps the run exclusive exactly when it is clear of the earlier ones. */
  lemma ExclusiveNext(events: seq<Event>, n: nat, b: Block)
    requires n < |events| && Exclusive(events, n) && Handed(events[n]) == Some(b)
    ensures Exclusive(events, n + 1) <==>
      forall i :: 0 <= i < n && Handed(events[i]).Some? ==> Handed(events[i]).value.Disjoint(b)
  {
  }

  lemma ClearOfWindow(a: Block, b: Block)
    ensures a.Disjoint(b) <==> forall x: nat :: a.Has(x) ==> !(b.addr <= x < b.addr + b.size)
  {
    if !a.Disjoint(b) {
      var x: nat :| a.Has(x) && b.Has(x);
    }
  }

  /** Where the guard is needed: a ws_alloc that finds the free list empty hands out the bump
  window, and the run stays exclusive exactly when that window is clear of the earlier blocks. */
  lemma DryAllocExact(states: seq<RamState>, events: seq<Event>, n: nat)
    requires Run(states, events) && n < |events| && Exclusive(events, n)
    requires events[n].WsAllocCall? && states[n].free == []
    ensures Exclusive(events, n + 1) <==>
      forall i, x: nat :: 0 <= i < n && Handed(events[i]).Some? && Handed(events[i]).value.Has(x) ==>
        !(states[n].early <= x < states[n].early + Round(events[n].size, 8))
  {
    assert Linked(states, events, n);
    var b := Block(states[n].early, Round(events[n].size, 8));
    assert Handed(events[n]) == Some(b);
    ExclusiveNext(events, n, b);
    forall i | 0 <= i < n && Handed(events[i]).Some?
      ensures Handed(events[i]).value.Disjoint(b) <==>
        forall x: nat :: Handed(events[i]).value.Has(x) ==> !(states[n].early <= x < states[n].early + Round(events[n].size, 8))
    {
      ClearOfWindow(Handed(events[i]).value, b);
    }
  }

  /** The avoid list that ws_init leaves for a boot image of 4K at 0. */
  lemma SmallImage()
    ensures InitialAvoids(0, 0x1000, 0x1000) == [Avoid(0x1000, 0x2000), Avoid(0, 0x1000)]
  {
  }

  lemma OneBlock(b: Block, x: nat)
    ensures Covers([b], x) <==> b.Has(x)
  {
    assert [b][0] == b;
  }

  /** RAM right where the bump pointer stands is added, handed out whole, and work space is asked for. */
  function DryEvents(ram: Block, size: nat): seq<Event> {
    [AddRamCall(ram.addr, ram.size, Block(0, 0), true, None), AllocCall(None, ram.size, 1, Some(ram.addr)),
     WsAllocCall(size, Some(ram.addr))]
  }

  function DryStates(avoid: seq<Avoid>, ram: Block, size: nat): seq<RamState> {
    var none := RamState([], avoid, ram.addr);
    [none, RamState([ram], avoid, ram.addr), none,
     RamState([], AvoidStep(avoid, ram.addr, Round(size, 8)), ram.addr + Round(size, 8))]
  }

  /** A block smaller than what is asked for has no place. */
  lemma SmallBlockFull(avoid: seq<Avoid>, b: Block, size: nat, align: nat)
    requires align > 0 && 0 < b.size < size
    ensures BlockFull(avoid, b, size, align)
  {
    RemainderSound(Visible(avoid), Span(b.addr, b.End()));
  }

  /** add_ram of one small block, which has no room for the temporary system page. */
  lemma AddsBlock(avoid: seq<Avoid>, early: nat, ram: Block)
    requires 0 < ram.size < TEMP_SYSPAGE_SIZE
    ensures AddRamStep(RamState([], avoid, early), ram.addr, ram.size, Block(0, 0), true, None, RamState([ram], avoid, early))
  {
    forall x: nat
      ensures Covers([ram], x) <==> ram.Has(x)
    {
      OneBlock(ram, x);
    }
    SmallBlockFull(avoid, ram, TEMP_SYSPAGE_SIZE, PAGE);
  }

  /** The start of the only block is the lowest place if searches see no entry there. */
  lemma StartIsLowest(s: RamState, ram: Block, size: nat, align: nat)
    requires s.free == [ram] && 0 < ram.size && size <= ram.size && ram.End() <= PADDR_LIMIT && align > 0 && ram.addr % align == 0
    requires Candidate(s.avoid, ram) == Some(Span(ram.addr, ram.End()))
    ensures Available(s, ram.addr, size) && Lowest(s, ram.addr, size, align)
  {
    CandidateAvailable(s, 0, ram.addr, size);
    assert Place(s.avoid, s.free[0], ram.addr, size, align);
  }

  lemma DryTake(avoid: seq<Avoid>, ram: Block, size: nat)
    requires 0 < ram.size && ram.End() <= PADDR_LIMIT && Candidate(avoid, ram) == Some(Span(ram.addr, ram.End()))
    ensures Step(DryStates(avoid, ram, size)[1], DryEvents(ram, size)[1], DryStates(avoid, ram, size)[2])
  {
    StartIsLowest(RamState([ram], avoid, ram.addr), ram, ram.size, 1);
    forall x: nat
      ensures Covers([ram], x) <==> ram.Has(x)
    {
      OneBlock(ram, x);
    }
  }

  lemma DryIsRun(avoid: seq<Avoid>, ram: Block, size: nat)
    requires 0 < ram.size < TEMP_SYSPAGE_SIZE && ram.End() <= PADDR_LIMIT
    requires Candidate(avoid, ram) == Some(Span(ram.addr, ram.End()))
    ensures Run(DryStates(avoid, ram, size), DryEvents(ram, size))
  {
    var states, events := DryStates(avoid, ram, size), DryEvents(ram, size);
    AddsBlock(avoid, ram.addr, ram);
    DryTake(avoid, ram, size);
    forall i: nat | i < |events|
      ensures Linked(states, events, i)
    {
    }
  }

  /** All guards but the one against running dry are met. */
  lemma DryIsAllowed(avoid: seq<Avoid>, ram: Block, size: nat)
    requires Shown(avoid) && ram.addr + Round(size, 8) < TWO_64
    ensures var states, events := DryStates(avoid, ram, size), DryEvents(ram, size);
      NoReAdd(events) && Aligned(events) && NoneWraps(events) && NothingHidden(states, events)
  {
  }

  /** ws_alloc returns the start of the block that was handed out before. */
  lemma DryOverlaps(ram: Block, size: nat)
    requires ram.size > 0 && size > 0
    ensures !Exclusive(DryEvents(ram, size), 3)
  {
    RoundIsCeiling(size, 8);
    var events := DryEvents(ram, size);
    var a, b := Handed(events[1]).value, Handed(events[2]).value;
    assert a.Has(ram.addr) && b.Has(ram.addr);
    assert !a.Disjoint(b);
  }

  /** A run that does go dry, from what ws_init leaves for a boot image of 4K at 0. */
  lemma DryAllocatorReusesMemory() returns (states: seq<RamState>, events: seq<Event>)
    ensures Run(states, events) && NoReAdd(events) && Aligned(events) && NoneWraps(events) && NothingHidden(states, events)
    ensures states[0] == InitialState(0, 0x1000, 0x1000)
    ensures !Exclusive(events, |events|)
  {
    SmallImage();
    var avoid, ram, size := InitialAvoids(0, 0x1000, 0x1000), Block(0x2000, 0x1000), 8;
    AllVisible(avoid);
    RemainderUntouched(avoid, Span(ram.addr, ram.End()));
    RoundIsCeiling(size, 8);
    states, events := DryStates(avoid, ram, size), DryEvents(ram, size);
    DryIsRun(avoid, ram, size);
    DryIsAllowed(avoid, ram, size);
    DryOverlaps(ram, size);
  }

  /** When searches see the same list, they find the same lowest place. */
  lemma SameSearch(s: RamState, a: nat, size: nat, align: nat, s': RamState)
    requires s'.free == s.free && Visible(s'.avoid) == Visible(s.avoid) && Lowest(s, a, size, align) && Available(s, a, size)
    ensures Lowest(s', a, size, align) && Available(s', a, size)
  {
    forall i, x: nat | 0 <= i < |s.free|
      ensures Place(s'.avoid, s'.free[i], x, size, align) <==> Place(s.avoid, s.free[i], x, size, align)
    {
    }
  }

  /** What becomes of a candidate from 0 on when the last entry turns from [h, 0) into [h, n). */
  lemma PlaceAtZero(s: RamState, i: nat, n: nat, l: seq<Avoid>)
    requires Sane(s) && i < |s.free| && Place(s.avoid, s.free[i], 0, n, 8) && 0 < n < TWO_64 && l == AvoidStep(s.avoid, 0, n)
    requires EndsZero(s.avoid) && !KeepsZero(s.avoid, 0) && n <= s.avoid[|s.avoid| - 1].start
    ensures var e, h := Candidate(s.avoid, s.free[i]).value.e, s.avoid[|s.avoid| - 1].start;
      (exists j :: 0 <= j < |s.free| && Place(l, s.free[j], 0, n, 8)) <==> e < n + h
  {
    var b := s.free[i];
    ZeroBecomes(s.avoid, n, Span(b.addr, b.End()));
    RemainderSound(Visible(s.avoid), Span(b.addr, b.End()));
    assert forall j, k :: 0 <= j < k < |s.free| ==> s.free[j].End() < s.free[k].addr;
    forall j | 0 <= j < |s.free| && j != i
      ensures !Place(l, s.free[j], 0, n, 8)
    {
      RemainderSound(Visible(l), Span(s.free[j].addr, s.free[j].End()));
    }
    var e, h := Candidate(s.avoid, b).value.e, s.avoid[|s.avoid| - 1].start;
    assert Place(l, b, 0, n, 8) <==> e < n + h;
  }

  /** The guard against hidden entries: of two work space calls of one size, the second gets the block of
  the first, in the i-th free block, exactly when the avoid list hides it. */
  lemma SecondCallExact(s: RamState, size: nat, a: nat, s': RamState, i: nat)
    requires Sane(s) && s.free != [] && size > 0 && WsAllocStep(s, size, Some(a), s')
    requires forall k :: 0 <= k < |s.avoid| ==> s.avoid[k].end == 0 || s.avoid[k].start <= s.avoid[k].end
    requires i < |s.free| && Place(s.avoid, s.free[i], a, Round(size, 8), 8)
    ensures (exists s'' :: WsAllocStep(s', size, Some(a), s'')) <==>
      Hides(s.avoid, a, Round(size, 8), Candidate(s.avoid, s.free[i]).value.e)
  {
    RoundIsCeiling(size, 8);
    var n, again := Round(size, 8), s'.(avoid := AvoidStep(s'.avoid, a, Round(size, 8)));
    if KeepsZero(s.avoid, a) {
      SameSight(s.avoid, a, n);
      SameSearch(s, a, n, 8, s');
      assert WsAllocStep(s', size, Some(a), again);
    } else if EndsZero(s.avoid) && n <= s.avoid[|s.avoid| - 1].start {
      PlaceAtZero(s, i, n, s'.avoid);
      if j :| 0 <= j < |s.free| && Place(s'.avoid, s.free[j], 0, n, 8) {
        CandidateAvailable(s', j, 0, n);
        assert Lowest(s', 0, n, 8) && WsAllocStep(s', size, Some(a), again);
      }
    } else {
      var x := SomeInSight(s.avoid, a, n);
    }
  }

  /** RAM is added, avoid_ram(0, 0) is called, and work space is asked for twice. */
  function HiddenEvents(ram: Block, size: nat): seq<Event> {
    [AddRamCall(ram.addr, ram.size, Block(0, 0), true, None), AvoidCall(0, 0),
     WsAllocCall(size, Some(ram.addr)), WsAllocCall(size, Some(ram.addr))]
  }

  function HiddenStates(avoid: seq<Avoid>, early: nat, ram: Block, size: nat): seq<RamState> {
    var n := Round(size, 8);
    var l2 := AvoidStep(avoid, 0, 0);
    var l3 := AvoidStep(l2, ram.addr, n);
    [RamState([], avoid, early), RamState([ram], avoid, early), RamState([ram], l2, early), RamState([ram], l3, early),
     RamState([ram], AvoidStep(l3, ram.addr, n), early)]
  }

  /** The searches see the same list before and after the first of these calls. */
  lemma HiddenSeen(avoid: seq<Avoid>, early: nat, ram: Block, size: nat)
    requires Shown(avoid) && 0 < ram.addr && size > 0
    ensures var states := HiddenStates(avoid, early, ram, size);
      Visible(states[2].avoid) == avoid == Visible(states[3].avoid)
  {
    RoundIsCeiling(size, 8);
    var entry := Avoid(ram.addr, Wrap64(ram.addr + Round(size, 8)));
    VisibleUpTo(avoid, Avoid(0, 0), []);
    VisibleUpTo(avoid, Avoid(0, 0), [entry]);
    assert avoid + [Avoid(0, 0)] + [] == avoid + [Avoid(0, 0)] == AvoidStep(avoid, 0, 0);
    assert AvoidStep(AvoidStep(avoid, 0, 0), ram.addr, Round(size, 8)) == avoid + [Avoid(0, 0)] + [entry];
  }

  /** Work space at the start of the only block, if searches see no entry there. */
  lemma WorkAtStart(s: RamState, ram: Block, size: nat)
    requires s.free == [ram] && ram.addr % 8 == 0 && 0 < ram.size && Round(size, 8) <= ram.size && ram.End() <= PADDR_LIMIT
    requires Candidate(s.avoid, ram) == Some(Span(ram.addr, ram.End()))
    ensures WsAllocStep(s, size, Some(ram.addr), s.(avoid := AvoidStep(s.avoid, ram.addr, Round(size, 8))))
  {
    StartIsLowest(s, ram, Round(size, 8), 8);
  }

  lemma HiddenIsRun(avoid: seq<Avoid>, early: nat, ram: Block, size: nat)
    requires 0 < ram.size < TEMP_SYSPAGE_SIZE && ram.End() <= PADDR_LIMIT && ram.addr % 8 == 0 && Round(size, 8) <= ram.size
    requires var s := HiddenStates(avoid, early, ram, size);
      Candidate(s[2].avoid, ram) == Candidate(s[3].avoid, ram) == Some(Span(ram.addr, ram.End()))
    ensures Run(HiddenStates(avoid, early, ram, size), HiddenEvents(ram, size))
  {
    var states, events := HiddenStates(avoid, early, ram, size), HiddenEvents(ram, size);
    AddsBlock(avoid, early, ram);
    WorkAtStart(states[2], ram, size);
    WorkAtStart(states[3], ram, size);
    forall i: nat | i < |events|
      ensures Linked(states, events, i)
    {
    }
  }

  /** All guards but the one against hidden entries are met. */
  lemma HiddenIsAllowed(avoid: seq<Avoid>, early: nat, ram: Block, size: nat)
    requires ram.addr + Round(size, 8) < TWO_64
    ensures var states, events := HiddenStates(avoid, early, ram, size), HiddenEvents(ram, size);
      NeverDry(states, events) && NoReAdd(events) && Aligned(events) && NoneWraps(events)
  {
  }

  lemma HiddenOverlaps(ram: Block, size: nat)
    requires size > 0
    ensures !Exclusive(HiddenEvents(ram, size), 4)
  {
    RoundIsCeiling(size, 8);
    var events := HiddenEvents(ram, size);
    var a, b := Handed(events[2]).value, Handed(events[3]).value;
    assert a.Has(ram.addr) && b.Has(ram.addr);
    assert !a.Disjoint(b);
  }

  /** Such a run in general, for RAM behind everything avoided so far. */
  lemma HiddenReuses(avoid: seq<Avoid>, early: nat, ram: Block, size: nat)
    requires Shown(avoid) && (forall i :: 0 <= i < |avoid| ==> avoid[i].end <= ram.addr) && size > 0
    requires 0 < ram.addr && ram.addr % 8 == 0 && ram.End() <= PADDR_LIMIT && 0 < Round(size, 8) <= ram.size < TEMP_SYSPAGE_SIZE
    ensures var states, events := HiddenStates(avoid, early, ram, size), HiddenEvents(ram, size);
      && Run(states, events) && NeverDry(states, events) && NoReAdd(events) && Aligned(events) && NoneWraps(events)
      && Candidate(states[2].avoid, ram) == Candidate(states[3].avoid, ram) == Some(Span(ram.addr, ram.End()))
      && !Exclusive(events, |events|)
  {
    HiddenSeen(avoid, early, ram, size);
    RemainderUntouched(avoid, Span(ram.addr, ram.End()));
    HiddenIsRun(avoid, early, ram, size);
    HiddenIsAllowed(avoid, early, ram, size);
    HiddenOverlaps(ram, size);
  }

  /** ... and behind a boot image of 4K at 0. */
  lemma HiddenBehindImage(image: nat, ram: Block, size: nat)
    requires image == 0x1000 && ram.addr == 0x10000 && ram.size == 0x1000 && size == 8
    ensures var avoid, early := InitialAvoids(0, image, image), Round(image, 8) + 4096;
      var states, events := HiddenStates(avoid, early, ram, size), HiddenEvents(ram, size);
      && Run(states, events) && NeverDry(states, events) && NoReAdd(events) && Aligned(events) && NoneWraps(events)
      && Candidate(states[2].avoid, ram) == Candidate(states[3].avoid, ram) == Some(Span(ram.addr, ram.End()))
      && !Exclusive(events, |events|)
  {
    SmallImage();
    RoundIsCeiling(size, 8);
    HiddenReuses(InitialAvoids(0, image, image), Round(image, 8) + 4096, ram, size);
  }

  /** A run from what ws_init leaves for a boot image of 4K at 0, with 4K of RAM, too little for the
  temporary system page: behind avoid_ram(0, 0) both searches see the whole block and answer its start. */
  lemma HiddenEntryReusesMemory() returns (states: seq<RamState>, events: seq<Event>, ram: Block)
    ensures Run(states, events) && NeverDry(states, events) && NoReAdd(events) && Aligned(events) && NoneWraps(events)
    ensures states[0] == InitialState(0, 0x1000, 0x1000) && |events| == 4 && events[1] == AvoidCall(0, 0)
    ensures ram.size < TEMP_SYSPAGE_SIZE && states[2].free == states[3].free == [ram]
    ensures Candidate(states[2].avoid, ram) == Candidate(states[3].avoid, ram) == Some(Span(ram.addr, ram.End()))
    ensures events[2] == events[3] == WsAllocCall(8, Some(ram.addr)) && !Exclusive(events, |events|)
  {
    var image, size := 0x1000, 8;
    ram := Block(0x10000, image);
    HiddenBehindImage(image, ram, size);
    states := HiddenStates(InitialAvoids(0, image, image), Round(image, 8) + 4096, ram, size);
    events := HiddenEvents(ram, size);
  }
}
