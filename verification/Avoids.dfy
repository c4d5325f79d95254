/** The avoid list (lib/ram.c:115-148, 400-419): ranges that searches keep out of a candidate, one
after the other. */
module Avoids {
  import opened Align
  import opened Options

  /** struct avoid_entry; an entry whose end is 0 ends the list. */
  datatype Avoid = Avoid(start: nat, end: nat) {
    predicate Has(x: nat) {
      start <= x < end
    }
  }

  /** A nonempty candidate range [s, e). */
  datatype Span = Span(s: nat, e: nat)

  /** fix_size: what is left of a candidate when one avoid range is kept out of it. */
  function FixSize(c: Span, a: Avoid): (r: Option<Span>)
  {
    if c.s >= a.end || c.e <= a.start then Some(c)
    else if c.s >= a.start then
      if c.e <= a.end then None else Some(Span(a.end, c.e))
    else if c.e < a.end then Some(Span(c.s, a.start))
    else if a.start - c.s > c.e - a.end then Some(Span(c.s, a.start))
    else Some(Span(a.end, c.e))
  }

  /** The search stops at the first entry whose end is zero: entries behind it are never seen. */
  function Visible(avoid: seq<Avoid>): (r: seq<Avoid>)
    ensures forall i :: 0 <= i < |r| ==> r[i].end != 0
    ensures r <= avoid
  {
    if avoid == [] || avoid[0].end == 0 then [] else
      var rest := Visible(avoid[1..]);
      assert avoid == [avoid[0]] + avoid[1..];
      [avoid[0]] + rest
  }

  /** No entry ends at 0 or wraps around: searches see all of the list. */
  ghost predicate Shown(avoid: seq<Avoid>) {
    forall i :: 0 <= i < |avoid| ==> avoid[i].start <= avoid[i].end && avoid[i].end != 0
  }

  /** Searches see entry i: no entry up to it ends at 0. */
  ghost predicate Seen(avoid: seq<Avoid>, i: nat) {
    i < |avoid| && forall j :: 0 <= j <= i ==> avoid[j].end != 0
  }

  lemma {:induction false} SeenIsVisible(avoid: seq<Avoid>, i: nat)
    ensures Seen(avoid, i) <==> i < |Visible(avoid)|
  {
    if avoid != [] && avoid[0].end != 0 && i > 0 {
      var rest := avoid[1..];
      SeenIsVisible(rest, i - 1);
      assert forall j :: 0 < j < |avoid| ==> avoid[j] == rest[j - 1];
    }
  }

  ghost predicate InAvoid(avoid: seq<Avoid>, x: nat) {
    exists i :: 0 <= i < |avoid| && avoid[i].Has(x)
  }

  /** Folding fix_size over a list of avoid ranges, in order. */
  function Remainder(avoid: seq<Avoid>, c: Span): Option<Span>
  {
    if avoid == [] then Some(c)
    else
      var before := Remainder(avoid[..|avoid| - 1], c);
      if before.None? then None else FixSize(before.value, avoid[|avoid| - 1])
  }

  /** What survives the fold is a nonempty part of the candidate, clear of every avoid range. */
  lemma {:induction false} RemainderSound(avoid: seq<Avoid>, c: Span)
    requires c.s < c.e
    ensures Remainder(avoid, c).Some? ==>
      var r := Remainder(avoid, c).value;
      && c.s <= r.s < r.e <= c.e
      && forall x: nat :: r.s <= x < r.e ==> !InAvoid(avoid, x)
  {
    if avoid != [] && Remainder(avoid, c).Some? {
      var init, last := avoid[..|avoid| - 1], avoid[|avoid| - 1];
      RemainderSound(init, c);
      var r := Remainder(avoid, c).value;
      forall x: nat | r.s <= x < r.e
        ensures !InAvoid(avoid, x)
      {
        assert !InAvoid(init, x);
        assert forall i :: 0 <= i < |init| ==> avoid[i] == init[i];
        assert !last.Has(x);
      }
    }
  }

  /** Ranges elsewhere take nothing away. */
  lemma {:induction false} RemainderUntouched(avoid: seq<Avoid>, c: Span)
    requires forall i :: 0 <= i < |avoid| ==> c.s >= avoid[i].end || c.e <= avoid[i].start
    ensures Remainder(avoid, c) == Some(c)
  {
    if avoid != [] {
      RemainderUntouched(avoid[..|avoid| - 1], c);
    }
  }

  /** Range a does not leave room on both sides of candidate c. */
  predicate OneSided(c: Span, a: Avoid) {
    a.start <= c.s || c.e <= a.end
  }

  predicate Inside(r: Option<Span>, x: nat) {
    r.Some? && r.value.s <= x < r.value.e
  }

  /** The fold gives up the candidate only when nothing of it is left, and otherwise keeps every
  address that is not avoided. */
  ghost predicate KeepsRoom(avoid: seq<Avoid>, c: Span) {
    forall x: nat :: c.s <= x < c.e && !InAvoid(avoid, x) ==> Inside(Remainder(avoid, c), x)
  }

  /** No room is lost to ranges that leave no room on both sides. */
  lemma {:induction false} FoldKeepsRoom(avoid: seq<Avoid>, c: Span)
    requires c.s < c.e && forall i :: 0 <= i < |avoid| ==> OneSided(c, avoid[i])
    ensures KeepsRoom(avoid, c)
  {
    if avoid != [] {
      var init, last := avoid[..|avoid| - 1], avoid[|avoid| - 1];
      FoldKeepsRoom(init, c);
      RemainderSound(init, c);
      forall x: nat | c.s <= x < c.e && !InAvoid(avoid, x)
        ensures Inside(Remainder(avoid, c), x)
      {
        assert forall i :: 0 <= i < |init| ==> init[i] == avoid[i];
        assert !InAvoid(init, x) && !last.Has(x);
      }
    }
  }

  /** The smaller side of a candidate around range a, which fix_size drops. */
  function Side(c: Span, a: Avoid): Span {
    if a.start - c.s > c.e - a.end then Span(a.end, c.e) else Span(c.s, a.start)
  }

  /** If range i leaves room on both sides of what the ranges before it left of c, the list avoids all
  of the smaller side. */
  ghost predicate SideAvoided(avoid: seq<Avoid>, c: Span, i: nat)
    requires i < |avoid|
  {
    var r := Remainder(avoid[..i], c);
    r.Some? && !OneSided(r.value, avoid[i]) ==>
      forall x: nat :: Inside(Some(Side(r.value, avoid[i])), x) ==> InAvoid(avoid, x)
  }

  /** One step of the fold drops what lies in its range, and the smaller side if there are two. */
  lemma StepDrops(r: Span, a: Avoid, x: nat)
    requires r.s <= x < r.e && a.start <= a.end
    ensures Inside(FixSize(r, a), x) <==> !a.Has(x) && !(!OneSided(r, a) && Inside(Some(Side(r, a)), x))
  {
  }

  lemma NextRemainder(avoid: seq<Avoid>, c: Span, i: nat)
    requires i < |avoid|
    ensures var r := Remainder(avoid[..i], c);
      Remainder(avoid[..i + 1], c) == if r.None? then None else FixSize(r.value, avoid[i])
  {
    assert avoid[..i + 1][..i] == avoid[..i];
  }

  lemma LeftOneBefore(avoid: seq<Avoid>, c: Span, i: nat, x: nat)
    requires i < |avoid| && Inside(Remainder(avoid[..i + 1], c), x)
    ensures Inside(Remainder(avoid[..i], c), x)
  {
    NextRemainder(avoid, c, i);
  }

  /** An address that is left later was left before. */
  lemma {:induction false} LeftBefore(avoid: seq<Avoid>, c: Span, i: nat, j: nat, x: nat)
    requires i <= j <= |avoid| && Inside(Remainder(avoid[..j], c), x)
    ensures Inside(Remainder(avoid[..i], c), x)
    decreases j
  {
    if i < j {
      LeftOneBefore(avoid, c, j - 1, x);
      LeftBefore(avoid, c, i, j - 1, x);
    }
  }

  /** If no side is lost, an address that is not avoided is never dropped. */
  lemma {:induction false} StaysInside(avoid: seq<Avoid>, c: Span, i: nat, x: nat)
    requires i <= |avoid| && c.s <= x < c.e && !InAvoid(avoid, x)
    requires forall k :: 0 <= k < |avoid| ==> avoid[k].start <= avoid[k].end && SideAvoided(avoid, c, k)
    ensures Inside(Remainder(avoid[..i], c), x)
  {
    if i > 0 {
      StaysInside(avoid, c, i - 1, x);
      NextRemainder(avoid, c, i - 1);
      assert SideAvoided(avoid, c, i - 1);
      StepDrops(Remainder(avoid[..i - 1], c).value, avoid[i - 1], x);
    }
  }

  /** If the fold keeps all room, range i costs none. */
  lemma SideIsAvoided(avoid: seq<Avoid>, c: Span, i: nat)
    requires i < |avoid| && avoid[i].start <= avoid[i].end && KeepsRoom(avoid, c)
    ensures SideAvoided(avoid, c, i)
  {
    var r := Remainder(avoid[..i], c);
    if r.Some? && !OneSided(r.value, avoid[i]) {
      forall x: nat | Inside(Some(Side(r.value, avoid[i])), x)
        ensures InAvoid(avoid, x)
      {
        NextRemainder(avoid, c, i);
        StepDrops(r.value, avoid[i], x);
        LeftBefore(avoid, c, 0, i, x);
        assert avoid[..|avoid|] == avoid && avoid[..0] == [];
        if Inside(Remainder(avoid, c), x) {
          LeftBefore(avoid, c, i + 1, |avoid|, x);
        }
      }
    }
  }

  /** The fold keeps all room exactly when no range with room on both sides of what is left at its turn
  costs an address that the list does not avoid. */
  lemma KeepsRoomExactly(avoid: seq<Avoid>, c: Span)
    requires forall i :: 0 <= i < |avoid| ==> avoid[i].start <= avoid[i].end
    ensures KeepsRoom(avoid, c) <==> forall i :: 0 <= i < |avoid| ==> SideAvoided(avoid, c, i)
  {
    assert avoid[..|avoid|] == avoid;
    if forall i :: 0 <= i < |avoid| ==> SideAvoided(avoid, c, i) {
      forall x: nat | c.s <= x < c.e && !InAvoid(avoid, x)
        ensures Inside(Remainder(avoid, c), x)
      {
        StaysInside(avoid, c, |avoid|, x);
      }
    }
    if KeepsRoom(avoid, c) {
      forall i | 0 <= i < |avoid|
        ensures SideAvoided(avoid, c, i)
      {
        SideIsAvoided(avoid, c, i);
      }
    }
  }

  /** What the list may hold after a range, if it has no other range with room on both sides. */
  ghost predicate Harmless(c: Span, rest: seq<Avoid>) {
    forall i :: 0 <= i < |rest| ==> OneSided(c, rest[i])
  }

  /** Exactly the ranges with room on both sides can lose room: the fold keeps the larger side, and
  the next range may take that one. */
  lemma SplitsLoseRoom(c: Span, a: Avoid)
    requires c.s < c.e && a.start <= a.end
    ensures (forall rest :: Harmless(c, rest) ==> KeepsRoom([a] + rest, c)) <==> OneSided(c, a)
  {
    if OneSided(c, a) {
      forall rest | Harmless(c, rest)
        ensures KeepsRoom([a] + rest, c)
      {
        FoldKeepsRoom([a] + rest, c);
      }
    } else {
      var rest := if a.start - c.s > c.e - a.end then [Avoid(c.s, a.start)] else [Avoid(a.end, c.e)];
      var x := if a.start - c.s > c.e - a.end then a.end else c.s;
      var both := [a] + rest;
      assert both[..1] == [a] && [a][..0] == [];
      assert Remainder([a], c) == FixSize(c, a);
      assert Remainder(both, c).None?;
      assert !InAvoid(both, x);
      assert Harmless(c, rest) && !KeepsRoom([a] + rest, c);
    }
  }

  /** A sum of two addresses in 64 bits. */
  function Wrap64(x: nat): nat {
    if x >= TWO_64 then x - TWO_64 else x
  }

  /** What avoid_ram makes of the list. */
  function AvoidStep(avoid: seq<Avoid>, start: nat, size: nat): seq<Avoid> {
    if avoid != [] && avoid[|avoid| - 1].end == start then
      avoid[|avoid| - 1 := Avoid(avoid[|avoid| - 1].start, Wrap64(start + size))]
    else
      avoid + [Avoid(start, Wrap64(start + size))]
  }

  /** The avoid list that ws_init leaves: the two lists behind the boot image, and the startup program. */
  function InitialAvoids(imageStart: nat, imageSize: nat, startupSize: nat): seq<Avoid> {
    var next := Round(imageStart + imageSize, 8);
    AvoidStep(AvoidStep([Avoid(next, next + 1024)], next + 1024, 3 * 1024), imageStart, startupSize)
  }

  /** Every entry of an avoid list with nonzero ends is visible. */
  lemma {:induction false} AllVisible(avoid: seq<Avoid>)
    requires forall i :: 0 <= i < |avoid| ==> avoid[i].end != 0
    ensures Visible(avoid) == avoid
  {
    if avoid != [] {
      AllVisible(avoid[1..]);
      assert avoid == [avoid[0]] + avoid[1..];
    }
  }

  /** Room lost in a list that avoid_ram does build, from the ranges that ws_init leaves for a boot
  image of 4K at 0x1000: searches give up [0x10000, 0x20000), although its first 16K are not avoided. */
  lemma GreedyFoldLosesRoom()
    ensures var avoid := AvoidStep(AvoidStep(InitialAvoids(0x1000, 0x1000, 0x1000), 0x14000, 0x2000), 0x15000, 0xb000);
      && Remainder(Visible(avoid), Span(0x1_0000, 0x2_0000)).None?
      && forall x: nat :: 0x1_0000 <= x < 0x1_4000 ==> !InAvoid(avoid, x)
  {
    var init := InitialAvoids(0x1000, 0x1000, 0x1000);
    assert init == [Avoid(0x2000, 0x3000), Avoid(0x1000, 0x2000)];
    var a, b := Avoid(0x1_4000, 0x1_6000), Avoid(0x1_5000, 0x2_0000);
    var avoid := AvoidStep(AvoidStep(init, 0x14000, 0x2000), 0x15000, 0xb000);
    assert avoid == init + [a] + [b];
    AllVisible(avoid);
    var c := Span(0x1_0000, 0x2_0000);
    assert avoid[..3] == init + [a] && (init + [a])[..2] == init && init[..1][..0] == [];
    assert init[..1] == [Avoid(0x2000, 0x3000)];
    assert Remainder(init[..1], c) == Some(c);
    assert Remainder(init, c) == Some(c);
    assert Remainder(init + [a], c) == Some(Span(0x1_6000, 0x2_0000));
  }

  /** The two lists lie behind each other, so their ranges are merged. */
  lemma ListsMerge(imageStart: nat, imageSize: nat)
    requires imageStart + imageSize <= PADDR_LIMIT
    ensures var next := Round(imageStart + imageSize, 8);
      && next < PADDR_LIMIT + 8 && AvoidStep([Avoid(next, next + 1024)], next + 1024, 3 * 1024) == [Avoid(next, next + 4096)]
  {
    RoundIsCeiling(imageStart + imageSize, 8);
  }

  /** avoid_ram adds exactly its range to what is avoided. */
  lemma StepAdds(avoid: seq<Avoid>, start: nat, size: nat)
    requires start + size < TWO_64 && forall i :: 0 <= i < |avoid| ==> avoid[i].start <= avoid[i].end
    ensures forall x: nat :: InAvoid(AvoidStep(avoid, start, size), x) <==> InAvoid(avoid, x) || start <= x < start + size
  {
    var l, n := AvoidStep(avoid, start, size), |avoid|;
    forall x: nat
      ensures InAvoid(l, x) <==> InAvoid(avoid, x) || start <= x < start + size
    {
      assert forall i :: 0 <= i < n - 1 ==> l[i] == avoid[i];
      if start <= x < start + size {
        assert l[|l| - 1].Has(x);
      }
      if i :| 0 <= i < n && avoid[i].Has(x) {
        assert l[i].Has(x);
      }
    }
  }

  lemma InitialAvoidsSound(imageStart: nat, imageSize: nat, startupSize: nat)
    requires 0 < startupSize <= imageSize && imageStart + imageSize <= PADDR_LIMIT
    ensures var l := InitialAvoids(imageStart, imageSize, startupSize);
      && |l| <= 2 && Shown(l)
      && forall x: nat :: InAvoid(l, x) <==>
        || Round(imageStart + imageSize, 8) <= x < Round(imageStart + imageSize, 8) + 4096
        || imageStart <= x < imageStart + startupSize
  {
    ListsMerge(imageStart, imageSize);
    var next := Round(imageStart + imageSize, 8);
    var one := [Avoid(next, next + 4096)];
    assert forall x: nat :: InAvoid(one, x) <==> one[0].Has(x);
    StepAdds(one, imageStart, startupSize);
  }

  /** Nothing from the first entry with end 0 on is visible. */
  lemma {:induction false} VisibleUpTo(front: seq<Avoid>, zero: Avoid, back: seq<Avoid>)
    requires zero.end == 0 && forall i :: 0 <= i < |front| ==> front[i].end != 0
    ensures Visible(front + [zero] + back) == front
  {
    var l := front + [zero] + back;
    if front != [] {
      VisibleUpTo(front[1..], zero, back);
      assert l[1..] == front[1..] + [zero] + back;
      assert front == [front[0]] + front[1..];
    }
  }

  /** The entries before the one that avoid_ram writes, and where that one starts. */
  function Front(avoid: seq<Avoid>, start: nat): seq<Avoid> {
    if avoid != [] && avoid[|avoid| - 1].end == start then avoid[..|avoid| - 1] else avoid
  }

  function Head(avoid: seq<Avoid>, start: nat): nat {
    if avoid != [] && avoid[|avoid| - 1].end == start then avoid[|avoid| - 1].start else start
  }

  /** Address x of the next range is visible behind an entry [head, 0): it lies in an entry before
  that one, or the next call starts at 0, so that it extends the entry, and x is not below head. */
  ghost predicate StillVisible(front: seq<Avoid>, head: nat, next: nat, x: nat) {
    InAvoid(front, x) || (next == 0 && head <= x)
  }

  lemma ExtendedZero(front: seq<Avoid>, start: nat, more: nat)
    ensures forall x: nat :: x < more ==> (InAvoid(front + [Avoid(start, more)], x) <==> InAvoid(front, x) || start <= x)
  {
    var l := front + [Avoid(start, more)];
    forall x: nat | x < more
      ensures InAvoid(l, x) <==> InAvoid(front, x) || start <= x
    {
      assert forall i :: 0 <= i < |front| ==> l[i] == front[i];
      assert l[|front|].Has(x) <==> start <= x;
    }
  }

  lemma BehindZero(front: seq<Avoid>, head: nat, next: nat, more: nat, x: nat)
    requires forall i :: 0 <= i < |front| ==> front[i].end != 0
    requires next <= x < next + more < TWO_64
    ensures InAvoid(Visible(AvoidStep(front + [Avoid(head, 0)], next, more)), x) <==> StillVisible(front, head, next, x)
  {
    var l1 := front + [Avoid(head, 0)];
    var l := AvoidStep(l1, next, more);
    assert l1[|l1| - 1] == Avoid(head, 0) && l1[..|l1| - 1] == front;
    if next == 0 {
      assert l == front + [Avoid(head, more)];
      AllVisible(l);
      ExtendedZero(front, head, more);
    } else {
      assert l == front + [Avoid(head, 0)] + [Avoid(next, next + more)];
      VisibleUpTo(front, Avoid(head, 0), [Avoid(next, next + more)]);
    }
  }

  lemma LastHas(avoid: seq<Avoid>, start: nat, size: nat, x: nat)
    requires start <= x < start + size < TWO_64 && forall i :: 0 <= i < |avoid| ==> avoid[i].start <= avoid[i].end
    ensures InAvoid(AvoidStep(avoid, start, size), x)
  {
    var l := AvoidStep(avoid, start, size);
    assert l[|l| - 1].Has(x);
  }

  lemma BehindNonzero(avoid: seq<Avoid>, next: nat, more: nat, x: nat)
    requires Shown(avoid)
    requires next <= x < next + more < TWO_64
    ensures InAvoid(Visible(AvoidStep(avoid, next, more)), x)
  {
    LastHas(avoid, next, more, x);
    AllVisible(AvoidStep(avoid, next, more));
  }

  /** Searches see every address of [next, next + more). */
  ghost predicate RangeVisible(avoid: seq<Avoid>, next: nat, more: nat) {
    forall x: nat :: next <= x < next + more ==> InAvoid(Visible(avoid), x)
  }

  /** Behind an entry [head, 0) they still do. */
  ghost predicate RangeStillVisible(front: seq<Avoid>, head: nat, next: nat, more: nat) {
    forall x: nat :: next <= x < next + more ==> StillVisible(front, head, next, x)
  }

  lemma RangeBehindNonzero(avoid: seq<Avoid>, next: nat, more: nat)
    requires Shown(avoid)
    requires next + more < TWO_64
    ensures RangeVisible(AvoidStep(avoid, next, more), next, more)
  {
    forall x: nat | next <= x < next + more
      ensures InAvoid(Visible(AvoidStep(avoid, next, more)), x)
    {
      BehindNonzero(avoid, next, more, x);
    }
  }

  lemma RangeBehindZero(front: seq<Avoid>, head: nat, next: nat, more: nat)
    requires forall i :: 0 <= i < |front| ==> front[i].end != 0
    requires next + more < TWO_64
    ensures RangeVisible(AvoidStep(front + [Avoid(head, 0)], next, more), next, more) <==>
      RangeStillVisible(front, head, next, more)
  {
    var l := AvoidStep(front + [Avoid(head, 0)], next, more);
    forall x: nat | next <= x < next + more
      ensures InAvoid(Visible(l), x) <==> StillVisible(front, head, next, x)
    {
      BehindZero(front, head, next, more, x);
    }
  }

  lemma StepWrites(avoid: seq<Avoid>, start: nat, size: nat)
    ensures AvoidStep(avoid, start, size) == Front(avoid, start) + [Avoid(Head(avoid, start), Wrap64(start + size))]
  {
  }

  lemma StepNonzero(avoid: seq<Avoid>, start: nat, size: nat)
    requires Shown(avoid)
    requires start + size < TWO_64 && start + size != 0
    ensures Shown(AvoidStep(avoid, start, size))
  {
  }

  /** Searches see all of the range of an avoid_ram call exactly when the call before it did not end
  at zero (by starting there with size 0, or by running up to the end of 64 bits), or when the range
  is still visible all the same. */
  lemma LaterRangeVisible(avoid: seq<Avoid>, start: nat, size: nat, next: nat, more: nat)
    requires Shown(avoid)
    requires start + size <= TWO_64 && next + more < TWO_64
    ensures RangeVisible(AvoidStep(AvoidStep(avoid, start, size), next, more), next, more) <==>
      || Wrap64(start + size) != 0
      || RangeStillVisible(Front(avoid, start), Head(avoid, start), next, more)
  {
    if Wrap64(start + size) != 0 {
      StepNonzero(avoid, start, size);
      RangeBehindNonzero(AvoidStep(avoid, start, size), next, more);
    } else {
      StepWrites(avoid, start, size);
      RangeBehindZero(Front(avoid, start), Head(avoid, start), next, more);
    }
  }

  /** What searches see of a list. */
  lemma InSight(avoid: seq<Avoid>, x: nat)
    ensures InAvoid(Visible(avoid), x) <==> exists i: nat :: Seen(avoid, i) && avoid[i].Has(x)
  {
    var seen := Visible(avoid);
    if i :| 0 <= i < |seen| && seen[i].Has(x) {
      SeenIsVisible(avoid, i);
      assert Seen(avoid, i) && avoid[i].Has(x);
    }
    if i: nat :| Seen(avoid, i) && avoid[i].Has(x) {
      SeenIsVisible(avoid, i);
      assert seen[i].Has(x);
    }
  }

  /** What searches see stays in sight when a range that does not wrap is added. */
  lemma StaysVisible(avoid: seq<Avoid>, start: nat, size: nat, x: nat)
    requires start + size < TWO_64 && InAvoid(Visible(avoid), x)
    ensures InAvoid(Visible(AvoidStep(avoid, start, size)), x)
  {
    var l := AvoidStep(avoid, start, size);
    InSight(avoid, x);
    InSight(l, x);
    var i: nat :| Seen(avoid, i) && avoid[i].Has(x);
    assert Seen(l, i) && l[i].Has(x);
  }

  predicate EndsZero(avoid: seq<Avoid>) {
    avoid != [] && avoid[|avoid| - 1].end == 0
  }

  /** An entry that ends at 0 stays in front of what avoid_ram writes for a range from a on. */
  predicate KeepsZero(avoid: seq<Avoid>, a: nat) {
    (exists j :: 0 <= j < |avoid| - 1 && avoid[j].end == 0) || (EndsZero(avoid) && a != 0)
  }

  /** After avoid_ram wrote [a, a + n) for a place in a candidate that ends at e, the next search finds the
  place again: an entry that ends at 0 stays in front of the range, or becomes one that begins behind
  it and whose other side the fold drops. */
  predicate Hides(avoid: seq<Avoid>, a: nat, n: nat, e: nat) {
    || KeepsZero(avoid, a)
    || (EndsZero(avoid) && a == 0 && n <= avoid[|avoid| - 1].start && e < n + avoid[|avoid| - 1].start)
  }

  /** Then searches see the same list as before. */
  lemma SameSight(avoid: seq<Avoid>, a: nat, n: nat)
    requires KeepsZero(avoid, a)
    ensures Visible(AvoidStep(avoid, a, n)) == Visible(avoid)
  {
    var l, last := AvoidStep(avoid, a, n), |avoid| - 1;
    assert forall j :: 0 <= j < last ==> l[j] == avoid[j];
    var z :| 0 <= z <= last && avoid[z].end == 0 && l[z] == avoid[z];
    forall i: nat
      ensures Seen(l, i) <==> Seen(avoid, i)
    {
      assert Seen(l, i) ==> i < z;
      assert Seen(avoid, i) ==> i < z;
    }
    var k, k' := |Visible(avoid)|, |Visible(l)|;
    SeenIsVisible(avoid, k);
    SeenIsVisible(l, k);
    SeenIsVisible(avoid, k');
    SeenIsVisible(l, k');
    if k > 0 {
      SeenIsVisible(avoid, k - 1);
    }
  }

  /** Otherwise they see the new range, unless the last entry ended at 0 and begins behind it. */
  lemma SomeInSight(avoid: seq<Avoid>, a: nat, n: nat) returns (x: nat)
    requires 0 < n && a + n < TWO_64 && !KeepsZero(avoid, a) && (EndsZero(avoid) ==> avoid[|avoid| - 1].start < n)
    requires forall i :: 0 <= i < |avoid| ==> avoid[i].end == 0 || avoid[i].start <= avoid[i].end
    ensures a <= x < a + n && InAvoid(Visible(AvoidStep(avoid, a, n)), x)
  {
    var l, n0 := AvoidStep(avoid, a, n), |avoid|;
    x := if EndsZero(avoid) then avoid[n0 - 1].start else a;
    InSight(l, x);
    assert forall j :: 0 <= j < n0 - 1 ==> l[j] == avoid[j];
    assert Seen(l, |l| - 1) && l[|l| - 1].Has(x);
  }

  /** An entry [h, 0) that becomes [h, n) acts on candidates as one more range does. */
  lemma ZeroBecomes(avoid: seq<Avoid>, n: nat, c: Span)
    requires EndsZero(avoid) && !KeepsZero(avoid, 0) && 0 < n < TWO_64
    ensures var before := Remainder(Visible(avoid), c);
      Remainder(Visible(AvoidStep(avoid, 0, n)), c) ==
        if before.None? then None else FixSize(before.value, Avoid(avoid[|avoid| - 1].start, n))
  {
    var last := |avoid| - 1;
    var front, h, l := avoid[..last], avoid[last].start, AvoidStep(avoid, 0, n);
    VisibleUpTo(front, avoid[last], []);
    assert avoid == front + [avoid[last]] + [];
    AllVisible(l);
    assert l[..last] == front && l[last] == Avoid(h, n);
  }

  lemma {:induction false} VisibleNext(avoid: seq<Avoid>, a: nat)
    requires a < |avoid| && avoid[a].end != 0 && a <= |Visible(avoid)|
    ensures a < |Visible(avoid)|
    decreases |avoid|
  {
    if a > 0 {
      VisibleNext(avoid[1..], a - 1);
    }
  }

  lemma {:induction false} VisibleEnd(avoid: seq<Avoid>, a: nat)
    requires a <= |Visible(avoid)| && (a < |avoid| ==> avoid[a].end == 0)
    ensures a == |Visible(avoid)|
    decreases |avoid|
  {
    if a > 0 {
      VisibleEnd(avoid[1..], a - 1);
    }
  }

  lemma {:induction false} RemainderLost(avoid: seq<Avoid>, a: nat, c: Span)
    requires a <= |avoid| && Remainder(avoid[..a], c).None?
    ensures Remainder(avoid, c).None?
    decreases |avoid|
  {
    if a == |avoid| {
      assert avoid[..a] == avoid;
    } else {
      var init := avoid[..|avoid| - 1];
      assert init[..a] == avoid[..a];
      RemainderLost(init, a, c);
    }
  }
}
