/** The system page under construction (lib/syspage_memory.c:47-138): many sections packed into one
buffer. A section grows by shifting everything behind it; registered addresses into the buffer
(lib/callouts.c:180-191) are shifted along. */
module Arena {
  import opened Align
  import opened Memory

  /** One SYSPAGE_SECTION of struct local_syspage: a pointer and a size. */
  datatype Section = Section(p: nat, size: nat) {
    function End(): nat {
      p + size
    }
  }

  /** The address a is byte o of section j. */
  ghost predicate Denotes(sections: seq<Section>, a: nat, j: nat, o: nat) {
    j < |sections| && o < sections[j].size && a == sections[j].p + o
  }

  ghost predicate Apart(s: Section, t: Section) {
    s.End() <= t.p || t.End() <= s.p
  }

  ghost predicate Inside(sections: seq<Section>, a: nat) {
    exists j :: 0 <= j < |sections| && sections[j].p <= a < sections[j].End()
  }

  /** The sections tile [base, base + total): they lie inside, do not overlap, and leave no hole.
  An empty section sits between two others, never inside one. */
  ghost predicate Tiled(sections: seq<Section>, base: nat, total: nat) {
    && (forall i :: 0 <= i < |sections| ==> base <= sections[i].p && sections[i].End() <= base + total)
    && (forall i, j :: 0 <= i < |sections| && 0 <= j < |sections| && i != j ==> Apart(sections[i], sections[j]))
    && forall a: nat :: base <= a < base + total ==> Inside(sections, a)
  }

  /** No section crosses the border between the fixed front and the growable rest. */
  ghost predicate FrontFixed(sections: seq<Section>, border: nat) {
    forall i :: 0 <= i < |sections| ==> sections[i].End() <= border || border <= sections[i].p
  }

  function ShiftedOne(sections: seq<Section>, i: nat, add: nat, k: nat): Section
    requires i < |sections| && k < |sections|
  {
    if k == i then Section(sections[i].p, sections[i].size + add)
    else if sections[k].p >= sections[i].End() then Section(sections[k].p + add, sections[k].size)
    else sections[k]
  }

  /** grow_syspage_section on the section pointers: whatever starts at or behind the end of
  section i moves up. */
  function Shifted(sections: seq<Section>, i: nat, add: nat): (r: seq<Section>)
    requires i < |sections|
    ensures |r| == |sections|
    ensures forall k :: 0 <= k < |sections| ==> r[k] == ShiftedOne(sections, i, add, k)
  {
    seq(|sections|, k requires 0 <= k < |sections| => ShiftedOne(sections, i, add, k))
  }

  /** Where an address goes when everything from bottom on moves up by add. */
  function MovedAddress(a: nat, bottom: nat, end: nat, add: nat): nat {
    if bottom <= a < end then a + add else a
  }

  lemma ShiftedTiles(sections: seq<Section>, base: nat, total: nat, i: nat, add: nat)
    requires i < |sections| && Tiled(sections, base, total)
    ensures Tiled(Shifted(sections, i, add), base, total + add)
  {
    var s', bottom := Shifted(sections, i, add), sections[i].End();
    forall j, k | 0 <= j < |s'| && 0 <= k < |s'| && j != k
      ensures Apart(s'[j], s'[k])
    {
      assert Apart(sections[j], sections[k]);
      assert j != i ==> Apart(sections[j], sections[i]);
      assert k != i ==> Apart(sections[k], sections[i]);
    }
    forall a: nat | base <= a < base + total + add
      ensures Inside(s', a)
    {
      if bottom <= a < bottom + add {
        assert s'[i].p <= a < s'[i].End();
      } else {
        var b := if a < bottom then a else a - add;
        assert Inside(sections, b);
        var j :| 0 <= j < |sections| && sections[j].p <= b < sections[j].End();
        assert j != i ==> Apart(sections[j], sections[i]);
        assert s'[j].p <= a < s'[j].End();
      }
    }
  }

  /** A section that does not grow lies on one side of the growing end. */
  lemma OneSide(sections: seq<Section>, base: nat, total: nat, i: nat, j: nat)
    requires Tiled(sections, base, total) && i < |sections| && j < |sections| && i != j
    ensures sections[j].End() <= sections[i].End() || sections[i].End() <= sections[j].p
  {
    assert Apart(sections[j], sections[i]);
  }

  /** The contents of a section in memory. */
  function Bytes(m: seq<byte>, s: Section): (r: seq<byte>)
    requires s.End() <= |m|
    ensures |r| == s.size
    ensures forall k :: 0 <= k < s.size ==> r[k] == m[s.p + k]
  {
    seq(s.size, k requires 0 <= k < s.size => m[s.p + k])
  }

  /** The bytes of [bottom, end) moved up by add and left zeros. */
  ghost predicate GapOpened(m: seq<byte>, m': seq<byte>, bottom: nat, end: nat, add: nat) {
    && |m'| == |m| && bottom <= end && end + add <= |m|
    && (forall a :: 0 <= a < bottom ==> m'[a] == m[a])
    && (forall a :: bottom <= a < bottom + add ==> m'[a] == 0)
    && (forall a :: bottom + add <= a < end + add ==> m'[a] == m[a - add])
    && (forall a :: end + add <= a < |m| ==> m'[a] == m[a])
  }

  lemma GapFromMove(m: seq<byte>, m1: seq<byte>, m': seq<byte>, bottom: nat, end: nat, add: nat)
    requires bottom <= end && Moved(m, m1, bottom + add, bottom, end - bottom) && Filled(m1, m', bottom, add, 0)
    ensures GapOpened(m, m', bottom, end, add)
  {
    forall a | bottom + add <= a < end + add
      ensures m'[a] == m[a - add]
    {
      assert m1[a] == m[bottom + (a - (bottom + add))];
    }
  }

  /** Section t holds the bytes of s in front, and zeros behind them. */
  lemma SameBytes(m: seq<byte>, m': seq<byte>, s: Section, t: Section)
    requires s.End() <= |m| && t.End() <= |m'| && s.size <= t.size
    requires forall a :: t.p <= a < t.p + s.size ==> m'[a] == m[s.p + (a - t.p)]
    requires forall a :: t.p + s.size <= a < t.End() ==> m'[a] == 0
    ensures Bytes(m', t) == Bytes(m, s) + Zeros(t.size - s.size)
  {
    forall k | 0 <= k < t.size
      ensures Bytes(m', t)[k] == (Bytes(m, s) + Zeros(t.size - s.size))[k]
    {
      var a := t.p + k;
      assert Bytes(m', t)[k] == m'[a];
    }
  }

  /** The contents of section j after section i got add zero bytes. */
  function Longer(m: seq<byte>, s: seq<Section>, i: nat, add: nat, j: nat): seq<byte>
    requires i < |s| && j < |s| && s[j].End() <= |m|
  {
    if j == i then Bytes(m, s[j]) + Zeros(add) else Bytes(m, s[j])
  }

  lemma ShiftedBytesOf(m: seq<byte>, m': seq<byte>, sections: seq<Section>, base: nat, total: nat, i: nat, add: nat, j: nat)
    requires Tiled(sections, base, total) && i < |sections| && j < |sections|
    requires GapOpened(m, m', sections[i].End(), base + total, add)
    requires j != i ==> sections[j].End() <= sections[i].End() || sections[i].End() <= sections[j].p
    ensures Shifted(sections, i, add)[j].End() <= |m'| && sections[j].End() <= |m|
    ensures Bytes(m', Shifted(sections, i, add)[j]) == Longer(m, sections, i, add, j)
  {
    var was, now := sections[j], ShiftedOne(sections, i, add, j);
    SameBytes(m, m', was, now);
    assert Bytes(m, was) + Zeros(0) == Bytes(m, was);
  }

  /** Section i got add zero bytes at its end; every other section kept its bytes. */
  ghost predicate Grown(m: seq<byte>, m': seq<byte>, s: seq<Section>, s': seq<Section>, i: nat, add: nat) {
    && |s'| == |s| && |m'| == |m| && i < |s|
    && forall j :: 0 <= j < |s| ==>
         s[j].End() <= |m| && s'[j].End() <= |m| && Bytes(m', s'[j]) == Longer(m, s, i, add, j)
  }

  /** After the shift each section has its old bytes, and the growing one new zeros behind them. */
  lemma ShiftedBytes(m: seq<byte>, m': seq<byte>, sections: seq<Section>, base: nat, total: nat, i: nat, add: nat)
    requires Tiled(sections, base, total) && i < |sections|
    requires GapOpened(m, m', sections[i].End(), base + total, add)
    ensures Tiled(Shifted(sections, i, add), base, total + add)
    ensures Grown(m, m', sections, Shifted(sections, i, add), i, add)
  {
    ShiftedTiles(sections, base, total, i, add);
    forall j | 0 <= j < |sections|
      ensures Bytes(m', Shifted(sections, i, add)[j]) == Longer(m, sections, i, add, j)
    {
      if j != i {
        OneSide(sections, base, total, i, j);
      }
      ShiftedBytesOf(m, m', sections, base, total, i, add, j);
    }
  }

  /** Shifting addresses together with the sections keeps what they denote. */
  lemma ShiftedDenotes(sections: seq<Section>, base: nat, total: nat, i: nat, add: nat, a: nat, j: nat, o: nat)
    requires Tiled(sections, base, total) && i < |sections| && Denotes(sections, a, j, o)
    ensures Denotes(Shifted(sections, i, add), MovedAddress(a, sections[i].End(), base + total, add), j, o)
  {
    if j != i {
      OneSide(sections, base, total, i, j);
    }
  }

  /** Every registered address denotes the byte it denoted before. */
  ghost predicate SameOwners(s: seq<Section>, o: seq<nat>, s': seq<Section>, o': seq<nat>) {
    && |o'| == |o|
    && forall k, j, x :: 0 <= k < |o| && Denotes(s, o[k], j, x) ==> Denotes(s', o'[k], j, x)
  }

  lemma ShiftedOwners(s: seq<Section>, base: nat, total: nat, i: nat, add: nat, o: seq<nat>, o': seq<nat>)
    requires Tiled(s, base, total) && i < |s| && |o'| == |o|
    requires forall k :: 0 <= k < |o| ==> o'[k] == MovedAddress(o[k], s[i].End(), base + total, add)
    ensures SameOwners(s, o, Shifted(s, i, add), o')
  {
    forall k, j, x | 0 <= k < |o| && Denotes(s, o[k], j, x)
      ensures Denotes(Shifted(s, i, add), o'[k], j, x)
    {
      ShiftedDenotes(s, base, total, i, add, o[k], j, x);
    }
  }

  /** Growing behind the border leaves the border alone. */
  lemma FrontStays(s: seq<Section>, i: nat, add: nat, border: nat)
    requires i < |s|
    ensures FrontFixed(s, border) && border <= s[i].p ==> FrontFixed(Shifted(s, i, add), border)
  {
  }

  /** Growing by nothing changes nothing. */
  lemma NotGrown(s: seq<Section>, i: nat)
    requires i < |s|
    ensures Shifted(s, i, 0) == s
  {
  }

  /** The header of a page: its size, where its 32-bit words total_size and size are, and the four
  bytes a word is stored as. */
  datatype Header = Header(size: nat, totalAt: nat, maxAt: nat, word: nat -> seq<byte>) {
    ghost predicate Sound() {
      && totalAt + 4 <= size && maxAt + 4 <= size && (totalAt + 4 <= maxAt || maxAt + 4 <= totalAt)
      && forall v :: |word(v)| == 4
    }

    /** Byte k of the header of a new page. */
    function Fresh(k: nat, total: nat, max: nat): byte
      requires |word(total)| == 4 == |word(max)|
    {
      if totalAt <= k < totalAt + 4 then word(total)[k - totalAt]
      else if maxAt <= k < maxAt + 4 then word(max)[k - maxAt]
      else 0
    }
  }

  /** The header is section 0 and comes first. */
  ghost predicate Headed(s: seq<Section>, base: nat, h: Header) {
    && h.Sound() && s != [] && s[0].p == base && s[0].size >= h.size
    && forall j :: 0 < j < |s| ==> s[0].End() <= s[j].p
  }

  lemma ShiftedHead(s: seq<Section>, base: nat, h: Header, i: nat, add: nat)
    requires Headed(s, base, h) && i < |s|
    ensures Headed(Shifted(s, i, add), base, h)
  {
  }

  /** The contents b of section j after w was stored at offset at of the header, which is section 0. */
  function Stamped(j: nat, b: seq<byte>, at: nat, w: seq<byte>): (r: seq<byte>)
    ensures |r| == |b|
    ensures forall k :: 0 <= k < |b| ==> r[k] == if j == 0 && at <= k < at + |w| then w[k - at] else b[k]
  {
    seq(|b|, k requires 0 <= k < |b| => if j == 0 && at <= k < at + |w| then w[k - at] else b[k])
  }

  /** Storing a word in the header changes the contents of section 0 only. */
  lemma StampedBytes(m: seq<byte>, m': seq<byte>, s: seq<Section>, base: nat, h: Header, at: nat, w: seq<byte>, j: nat, b: seq<byte>)
    requires Headed(s, base, h) && at + 4 <= h.size && j < |s| && s[j].End() <= |m|
    requires WordPut(m, m', base + at, w) && Bytes(m, s[j]) == b
    ensures Bytes(m', s[j]) == Stamped(j, b, at, w)
  {
    var b' := Bytes(m', s[j]);
    forall k | 0 <= k < |b|
      ensures b'[k] == if j == 0 && at <= k < at + 4 then w[k - at] else b[k]
    {
      assert b'[k] == m'[s[j].p + k] && b[k] == m[s[j].p + k];
    }
  }

  /** Section j holds in m' what it held in m, with add zero bytes behind it for j == i and with the
  word w at offset at for j == 0. */
  ghost predicate GrownOne(m: seq<byte>, m': seq<byte>, s: seq<Section>, s': seq<Section>, i: nat, add: nat, at: nat, w: seq<byte>, j: nat) {
    && i < |s| && j < |s| && j < |s'| && s[j].End() <= |m| && s'[j].End() <= |m'|
    && Bytes(m', s'[j]) == Stamped(j, Longer(m, s, i, add, j), at, w)
  }

  /** Section i got add zero bytes at its end, the word w was stored at offset at of the header, and
  every other byte of a section was kept. */
  ghost predicate GrownPage(m: seq<byte>, m': seq<byte>, s: seq<Section>, s': seq<Section>, i: nat, add: nat, at: nat, w: seq<byte>) {
    |s'| == |s| && |m'| == |m| && forall j: nat :: j < |s| ==> GrownOne(m, m', s, s', i, add, at, w, j)
  }

  lemma GrownStampedOne(m: seq<byte>, m1: seq<byte>, m': seq<byte>, s: seq<Section>, s': seq<Section>, base: nat, h: Header, i: nat, add: nat, w: seq<byte>, j: nat)
    requires Grown(m, m1, s, s', i, add) && Headed(s', base, h) && WordPut(m1, m', base + h.totalAt, w) && j < |s|
    ensures GrownOne(m, m', s, s', i, add, h.totalAt, w, j)
  {
    StampedBytes(m1, m', s', base, h, h.totalAt, w, j, Longer(m, s, i, add, j));
  }

  lemma GrownStamped(m: seq<byte>, m1: seq<byte>, m': seq<byte>, s: seq<Section>, s': seq<Section>, base: nat, h: Header, i: nat, add: nat, w: seq<byte>)
    requires Grown(m, m1, s, s', i, add) && Headed(s', base, h) && WordPut(m1, m', base + h.totalAt, w)
    ensures GrownPage(m, m', s, s', i, add, h.totalAt, w)
  {
    forall j: nat | j < |s|
      ensures GrownOne(m, m', s, s', i, add, h.totalAt, w, j)
    {
      GrownStampedOne(m, m1, m', s, s', base, h, i, add, w, j);
    }
  }

  /** Nothing outside [lo, hi) changed. */
  ghost predicate SameOutside(m: seq<byte>, m': seq<byte>, lo: nat, hi: nat) {
    |m'| == |m| && forall a :: 0 <= a < |m| && !(lo <= a < hi) ==> m'[a] == m[a]
  }

  /** Opening a gap inside the page leaves the rest of memory alone. */
  lemma Outside(m: seq<byte>, m': seq<byte>, bottom: nat, base: nat, total: nat, add: nat)
    requires GapOpened(m, m', bottom, base + total, add) && base <= bottom
    ensures SameOutside(m, m', base, base + (total + add))
  {
  }

  lemma WordInside(m: seq<byte>, m1: seq<byte>, m2: seq<byte>, lo: nat, hi: nat, at: nat, w: seq<byte>)
    requires SameOutside(m, m1, lo, hi) && WordPut(m1, m2, at, w) && lo <= at && at + 4 <= hi
    ensures SameOutside(m, m2, lo, hi)
  {
  }

  /** An empty section may sit at any border between sections. */
  lemma MoveEmpty(s: seq<Section>, base: nat, total: nat, i: nat, at: nat)
    requires Tiled(s, base, total) && i < |s| && s[i].size == 0
    requires base <= at <= base + total && FrontFixed(s, at)
    ensures Tiled(s[i := Section(at, 0)], base, total) && FrontFixed(s[i := Section(at, 0)], at)
    ensures forall h: Header :: Headed(s, base, h) && base < at ==> Headed(s[i := Section(at, 0)], base, h)
  {
    var s' := s[i := Section(at, 0)];
    forall j, k | 0 <= j < |s'| && 0 <= k < |s'| && j != k
      ensures Apart(s'[j], s'[k])
    {
      if j != i && k != i {
        assert Apart(s[j], s[k]);
      }
    }
    forall a: nat | base <= a < base + total
      ensures Inside(s', a)
    {
      assert Inside(s, a);
      var j :| 0 <= j < |s| && s[j].p <= a < s[j].End();
      assert s'[j].p <= a < s'[j].End();
    }
  }

  /** Behind the grown section the new border holds. */
  lemma FrontExtended(s: seq<Section>, i: nat, add: nat, border: nat)
    requires i < |s| && FrontFixed(s, border) && s[i] == Section(border, 0)
    ensures FrontFixed(Shifted(s, i, add), border + add)
  {
  }

  /** Growing after an empty section was placed elsewhere reads like growing it where it was. */
  lemma MovedEmpty(m: seq<byte>, m': seq<byte>, s: seq<Section>, s1: seq<Section>, s': seq<Section>, i: nat, at: nat, add: nat,
      word: nat, w: seq<byte>)
    requires i < |s| && s[i].size == 0 && s[i].End() <= |m| && s1 == s[i := Section(at, 0)]
    requires GrownPage(m, m', s1, s', i, add, word, w)
    ensures GrownPage(m, m', s, s', i, add, word, w)
  {
    forall j: nat | j < |s|
      ensures GrownOne(m, m', s, s', i, add, word, w, j)
    {
      assert GrownOne(m, m', s1, s', i, add, word, w, j);
      assert j == i ==> Bytes(m, s[i]) == [] && Bytes(m, s1[i]) == [];
    }
  }

  lemma EmptyOwns(s: seq<Section>, o: seq<nat>, s1: seq<Section>, s': seq<Section>, o': seq<nat>, i: nat, at: nat)
    requires i < |s| && s[i].size == 0 && s1 == s[i := Section(at, 0)] && SameOwners(s1, o, s', o')
    ensures SameOwners(s, o, s', o')
  {
    forall k, j: nat, x: nat | 0 <= k < |o| && Denotes(s, o[k], j, x)
      ensures Denotes(s', o'[k], j, x)
    {
      assert Denotes(s1, o[k], j, x);
    }
  }

  /** s' is s moved from base to newBase. */
  ghost predicate MovedSections(s: seq<Section>, s': seq<Section>, base: nat, newBase: nat) {
    |s'| == |s| && forall j :: 0 <= j < |s| ==> s'[j].p - newBase == s[j].p - base && s'[j].size == s[j].size
  }

  lemma MovedTiles(s: seq<Section>, s': seq<Section>, base: nat, total: nat, newBase: nat, front: nat)
    requires Tiled(s, base, total) && MovedSections(s, s', base, newBase)
    ensures Tiled(s', newBase, total) && (FrontFixed(s, base + front) ==> FrontFixed(s', newBase + front))
  {
    forall j, k | 0 <= j < |s'| && 0 <= k < |s'| && j != k
      ensures Apart(s'[j], s'[k])
    {
      assert Apart(s[j], s[k]);
    }
    forall a: nat | newBase <= a < newBase + total
      ensures Inside(s', a)
    {
      assert Inside(s, a - newBase + base);
      var j :| 0 <= j < |s| && s[j].p <= a - newBase + base < s[j].End();
      assert s'[j].p <= a < s'[j].End();
    }
  }

  lemma MovedBytes(m: seq<byte>, m': seq<byte>, s: seq<Section>, s': seq<Section>, base: nat, total: nat, newBase: nat)
    requires Tiled(s, base, total) && MovedSections(s, s', base, newBase)
    requires Moved(m, m', newBase, base, total)
    ensures forall j :: 0 <= j < |s| ==> s[j].End() <= |m| && s'[j].End() <= |m'| && Bytes(m', s'[j]) == Bytes(m, s[j])
  {
    forall j | 0 <= j < |s|
      ensures s[j].End() <= |m| && s'[j].End() <= |m'| && Bytes(m', s'[j]) == Bytes(m, s[j])
    {
      forall a | s'[j].p <= a < s'[j].End()
        ensures m'[a] == m[a - newBase + base]
      {
        assert m'[a] == m[base + (a - newBase)];
      }
    }
  }

  /** Registered addresses move with the page. */
  lemma MovedOwners(s: seq<Section>, s': seq<Section>, base: nat, total: nat, newBase: nat, o: seq<nat>, o': seq<nat>)
    requires Tiled(s, base, total) && MovedSections(s, s', base, newBase) && |o'| == |o|
    requires forall k :: 0 <= k < |o| ==> o'[k] == if base <= o[k] < base + total then o[k] + newBase - base else o[k]
    ensures SameOwners(s, o, s', o')
  {
    forall k, j: nat, x: nat | 0 <= k < |o| && Denotes(s, o[k], j, x)
      ensures Denotes(s', o'[k], j, x)
    {
      assert base <= s[j].p && s[j].End() <= base + total;
    }
  }

  lemma HeaderInside(s: seq<Section>, base: nat, total: nat, h: Header)
    requires Tiled(s, base, total) && Headed(s, base, h)
    ensures h.size <= total
  {
    assert s[0].End() <= base + total;
  }

  /** The sections at their new place, after the word at offset at of the header was stored. */
  lemma MovedStamped(m0: seq<byte>, m1: seq<byte>, m2: seq<byte>, s: seq<Section>, s': seq<Section>, newBase: nat, h: Header, at: nat, w: seq<byte>)
    requires Headed(s', newBase, h) && |s'| == |s| && at + 4 <= h.size && WordPut(m1, m2, newBase + at, w)
    requires forall j :: 0 <= j < |s| ==> s[j].End() <= |m0| && s'[j].End() <= |m1| && Bytes(m1, s'[j]) == Bytes(m0, s[j])
    ensures forall j :: 0 <= j < |s| ==> Bytes(m2, s'[j]) == Stamped(j, Bytes(m0, s[j]), at, w)
  {
    forall j | 0 <= j < |s|
      ensures Bytes(m2, s'[j]) == Stamped(j, Bytes(m0, s[j]), at, w)
    {
      StampedBytes(m1, m2, s', newBase, h, at, w, j, Bytes(m0, s[j]));
    }
  }

  lemma MovedHead(s: seq<Section>, s': seq<Section>, base: nat, newBase: nat, h: Header)
    requires Headed(s, base, h) && MovedSections(s, s', base, newBase)
    ensures Headed(s', newBase, h)
  {
  }

  lemma ShiftedAt(s: seq<Section>, i: nat, add: nat)
    requires i < |s|
    ensures Shifted(s, i, add)[i] == Section(s[i].p, s[i].size + add)
  {
  }

  /** Together: an empty section was placed at at and then grown, with bytes if some were asked for. */
  lemma PlacedAndGrown(m: seq<byte>, m': seq<byte>, s: seq<Section>, o: seq<nat>, s1: seq<Section>, s': seq<Section>, o': seq<nat>,
      i: nat, at: nat, add: nat, some: bool, word: nat, w: seq<byte>)
    requires i < |s| && s[i].size == 0 && s[i].End() <= |m| && s1 == s[i := Section(at, 0)]
    requires s' == Shifted(s1, i, add) && SameOwners(s1, o, s', o')
    requires some ==> GrownPage(m, m', s1, s', i, add, word, w)
    ensures |s'| == |s| && s'[i] == Section(at, add) && SameOwners(s, o, s', o')
    ensures some ==> GrownPage(m, m', s, s', i, add, word, w)
  {
    ShiftedAt(s1, i, add);
    EmptyOwns(s, o, s1, s', o', i, at);
    if some {
      MovedEmpty(m, m', s, s1, s', i, at, add, word, w);
    }
  }

  lemma FirstTiles(s: seq<Section>, base: nat, size: nat)
    requires s != [] && s[0] == Section(base, size) && forall j :: 0 < j < |s| ==> s[j] == Section(base + size, 0)
    ensures Tiled(s, base, size)
  {
    forall a: nat | base <= a < base + size
      ensures Inside(s, a)
    {
      assert s[0].p <= a < s[0].End();
    }
  }

  class SysPage {
    const mem: array<byte>
    const header: Header

    /** lsp.syspage.p, and its total_size and size fields, which are also words of the header */
    var base: nat

    var totalSize: nat
    var maxSize: nat
    var fixedSize: nat

    /** struct local_syspage as a list; entry 0 is the system page header itself. */
    var sections: seq<Section>

    /** The owner fields of the patch_data list. */
    var owners: seq<nat>

    ghost predicate Valid()
      reads this
    {
      && Tiled(sections, base, totalSize) && Headed(sections, base, header)
      && base + totalSize <= mem.Length && base + maxSize <= mem.Length
      && header.size <= fixedSize <= totalSize < TWO_32
    }

    /** The sections set so far fill the fixed front, and nothing else reaches into it. */
    ghost predicate Settled()
      reads this
    {
      FrontFixed(sections, base + fixedSize)
    }

    ghost function Content(j: nat): seq<byte>
      requires Valid() && j < |sections|
      reads this, mem
    {
      Bytes(mem[..], sections[j])
    }

    /** The header of a new page. */
    method WriteHeader()
      requires header.Sound() && header.size <= totalSize < TWO_32 && maxSize < TWO_32 && base + totalSize <= mem.Length
      modifies mem
      ensures forall k :: 0 <= k < totalSize ==> mem[base + k] == header.Fresh(k, totalSize, maxSize)
    {
      Memset(mem, base, 0, totalSize);
      PutWord(mem, base + header.totalAt, header.word(totalSize));
      PutWord(mem, base + header.maxAt, header.word(maxSize));
    }

    /** init_syspage_memory before its own set and grow calls: a header that is zero but for its two
    words, and every other section empty behind it. */
    constructor (mem: array<byte>, base: nat, maxSize: nat, header: Header, count: nat)
      requires header.Sound() && count > 0 && Round8(header.size) <= maxSize < TWO_32 && base + maxSize <= mem.Length
      modifies mem
      ensures Valid() && Settled() && this.mem == mem && this.header == header && this.base == base && this.maxSize == maxSize
      ensures |sections| == count && owners == [] && totalSize == fixedSize == Round8(header.size)
      ensures sections[0] == Section(base, fixedSize) && forall j :: 0 < j < count ==> sections[j].size == 0
      ensures forall k :: 0 <= k < fixedSize ==> Content(0)[k] == header.Fresh(k, fixedSize, maxSize)
    {
      this.mem, this.header, this.base, this.maxSize := mem, header, base, maxSize;
      var spsize := Round8(header.size);
      totalSize, fixedSize, owners := spsize, spsize, [];
      sections := seq(count, k => if k == 0 then Section(base, spsize) else Section(base + spsize, 0));
      new;
      assert sections[0] == Section(base, spsize);
      FirstTiles(sections, base, spsize);
      WriteHeader();
    }

    /** callout_reloc_data: addresses in [from, from + len) move by diff. */
    method RelocOwners(from: nat, len: nat, diff: int)
      requires forall k :: 0 <= k < |owners| && from <= owners[k] < from + len ==> owners[k] + diff >= 0
      modifies this`owners
      ensures |owners| == |old(owners)|
      ensures forall k :: 0 <= k < |owners| ==>
        owners[k] == if from <= old(owners)[k] < from + len then old(owners)[k] + diff else old(owners)[k]
    {
      var k := 0;
      while k < |owners|
        invariant 0 <= k <= |owners| == |old(owners)|
        invariant forall i :: 0 <= i < k ==>
          owners[i] == if from <= old(owners)[i] < from + len then old(owners)[i] + diff else old(owners)[i]
        invariant forall i :: k <= i < |owners| ==> owners[i] == old(owners)[i]
      {
        if from <= owners[k] && from + len > owners[k] {
          owners := owners[k := owners[k] + diff];
        }
        k := k + 1;
      }
    }

    /** The pointer loop of grow_syspage_section. */
    method ShiftSections(i: nat, bottom: nat, add: nat)
      requires i < |sections| && bottom == sections[i].End()
      modifies this`sections
      ensures sections == Shifted(old(sections), i, add)[i := old(sections)[i]]
    {
      var k := 0;
      ghost var s0 := sections;
      while k < |sections|
        invariant 0 <= k <= |sections| == |s0|
        invariant forall j :: 0 <= j < k ==> sections[j] == if j == i then s0[i] else Shifted(s0, i, add)[j]
        invariant forall j :: k <= j < |sections| ==> sections[j] == s0[j]
      {
        if k != i && sections[k].p >= bottom {
          sections := sections[k := Section(sections[k].p + add, sections[k].size)];
        }
        k := k + 1;
      }
    }

    /** The memory updates of grow_syspage_section. */
    method OpenGap(bottom: nat, end: nat, add: nat)
      requires bottom <= end && end + add <= mem.Length && end - bottom < TWO_32
      modifies mem
      ensures GapOpened(old(mem[..]), mem[..], bottom, end, add)
    {
      ghost var m0 := mem[..];
      Memmove(mem, bottom + add, bottom, end - bottom);
      ghost var m1 := mem[..];
      Memset(mem, bottom, 0, add);
      GapFromMove(m0, m1, mem[..], bottom, end, add);
    }

    /** The pointer, memory and owner updates of grow_syspage_section, once add is known to fit. */
    method MakeRoom(i: nat, add: nat)
      requires Valid() && i < |sections|
      requires totalSize + add < TWO_32 && base + totalSize + add <= mem.Length
      modifies this`sections, this`owners, mem
      ensures sections == Shifted(old(sections), i, add)
      ensures GapOpened(old(mem[..]), mem[..], old(sections)[i].End(), base + totalSize, add)
      ensures |owners| == |old(owners)|
      ensures forall k :: 0 <= k < |owners| ==>
        owners[k] == MovedAddress(old(owners)[k], old(sections)[i].End(), base + totalSize, add)
    {
      ghost var s0 := sections;
      var bottom := sections[i].End();
      ShiftSections(i, bottom, add);
      var len := totalSize - (bottom - base);
      OpenGap(bottom, bottom + len, add);
      RelocOwners(bottom, len, add);
      sections := sections[i := Section(sections[i].p, sections[i].size + add)];
      assert sections == Shifted(s0, i, add);
    }

    /** The updates of grow_syspage_section but for its last one, for add > 0 bytes that fit. */
    method Spread(i: nat, add: nat)
      requires Valid() && i < |sections|
      requires totalSize + add < TWO_32 && totalSize + add <= maxSize
      modifies this`sections, this`owners, mem
      ensures Tiled(sections, base, totalSize + add) && sections == Shifted(old(sections), i, add)
      ensures Grown(old(mem[..]), mem[..], old(sections), sections, i, add)
      ensures SameOwners(old(sections), old(owners), sections, owners)
      ensures SameOutside(old(mem[..]), mem[..], base, base + (totalSize + add))
    {
      ghost var s0, m0, o0 := sections, mem[..], owners;
      MakeRoom(i, add);
      ShiftedBytes(m0, mem[..], s0, base, totalSize, i, add);
      ShiftedOwners(s0, base, totalSize, i, add, o0, owners);
      Outside(m0, mem[..], s0[i].End(), base, totalSize, add);
    }

    /** All of them: at the end total_size is stored in the header. */
    method Widen(i: nat, add: nat)
      requires Valid() && i < |sections|
      requires totalSize + add < TWO_32 && totalSize + add <= maxSize
      modifies this`sections, this`totalSize, this`owners, mem
      ensures Valid() && totalSize == old(totalSize) + add && sections == Shifted(old(sections), i, add)
      ensures GrownPage(old(mem[..]), mem[..], old(sections), sections, i, add, header.totalAt, header.word(totalSize))
      ensures SameOwners(old(sections), old(owners), sections, owners)
      ensures SameOutside(old(mem[..]), mem[..], base, base + totalSize)
    {
      ghost var s0, m0 := sections, mem[..];
      HeaderInside(s0, base, totalSize, header);
      ShiftedHead(s0, base, header, i, add);
      assert base + header.totalAt + 4 <= mem.Length;
      Spread(i, add);
      totalSize := totalSize + add;
      ghost var m1, s1, b1, t1 := mem[..], sections, base, totalSize;
      PutWord(mem, base + header.totalAt, header.word(totalSize));
      assert sections == s1 && base == b1 && totalSize == t1;
      GrownStamped(m0, m1, mem[..], s0, sections, base, header, i, add, header.word(totalSize));
      WordInside(m0, m1, mem[..], base, base + totalSize, base + header.totalAt, header.word(totalSize));
    }

    /** grow_syspage_section; ok is false when the page would exceed its maximum. Growing keeps the
    fixed front in place when the section starts behind it. */
    method GrowSection(i: nat, add0: nat) returns (ok: bool)
      requires Valid() && i < |sections| && totalSize + Round8(add0) < TWO_32
      modifies this`sections, this`totalSize, this`owners, mem
      ensures Valid() && (old(Settled()) && base + fixedSize <= old(sections)[i].p ==> Settled())
      ensures !ok <==> add0 > 0 && old(totalSize) + Round8(add0) > maxSize
      ensures !ok ==> unchanged(this, mem)
      ensures add0 == 0 ==> unchanged(this, mem) && Shifted(sections, i, 0) == sections
      ensures ok ==> totalSize == old(totalSize) + Round8(add0) && sections == Shifted(old(sections), i, Round8(add0))
      ensures ok && add0 > 0 ==>
        GrownPage(old(mem[..]), mem[..], old(sections), sections, i, Round8(add0), header.totalAt, header.word(totalSize))
      ensures ok ==> SameOwners(old(sections), old(owners), sections, owners)
      ensures ok ==> SameOutside(old(mem[..]), mem[..], base, base + totalSize)
    {
      ok := true;
      var add := Round8(add0);
      if add0 > 0 {
        if totalSize + add > maxSize {
          return false;
        }
        FrontStays(sections, i, add, base + fixedSize);
        Widen(i, add);
      } else {
        NotGrown(sections, i);
      }
    }

    /** The fixed front grows by the empty section that starts at its end. */
    method GrowFront(i: nat, size: nat) returns (ok: bool)
      requires Valid() && Settled() && i < |sections| && sections[i] == Section(base + fixedSize, 0)
      requires size % 8 == 0 && totalSize + size < TWO_32
      modifies this`sections, this`totalSize, this`fixedSize, this`owners, mem
      ensures !ok <==> size > 0 && old(totalSize) + size > maxSize
      ensures ok ==> Valid() && Settled() && sections == Shifted(old(sections), i, size)
      ensures ok ==> fixedSize == old(fixedSize) + size && totalSize == old(totalSize) + size
      ensures ok && size > 0 ==> GrownPage(old(mem[..]), mem[..], old(sections), sections, i, size, header.totalAt, header.word(totalSize))
      ensures size == 0 ==> unchanged(mem)
      ensures ok ==> SameOwners(old(sections), old(owners), sections, owners)
    {
      Round8OfMultiple(size);
      FrontExtended(sections, i, size, base + fixedSize);
      ok := GrowSection(i, size);
      fixedSize := fixedSize + size;
    }

    /** The next fixed section starts where the fixed front ends. */
    method PlaceAtFront(i: nat)
      requires Valid() && Settled() && i < |sections| && sections[i].size == 0
      modifies this`sections
      ensures Valid() && Settled() && sections == old(sections)[i := Section(base + fixedSize, 0)]
    {
      MoveEmpty(sections, base, totalSize, i, base + fixedSize);
      sections := sections[i := Section(base + fixedSize, 0)];
    }

    /** set_syspage_section behind its rounding. */
    method SetRounded(i: nat, size: nat) returns (ok: bool)
      requires Valid() && Settled() && i < |sections| && sections[i].size == 0
      requires size % 8 == 0 && totalSize + size < TWO_32
      modifies this`sections, this`totalSize, this`fixedSize, this`owners, mem
      ensures !ok <==> size > 0 && old(totalSize) + size > maxSize
      ensures ok ==> Valid() && Settled() && |sections| == |old(sections)|
      ensures ok ==> sections[i] == Section(base + old(fixedSize), size) && fixedSize == old(fixedSize) + size
      ensures ok ==> totalSize == old(totalSize) + size
      ensures ok && size > 0 ==> GrownPage(old(mem[..]), mem[..], old(sections), sections, i, size, header.totalAt, header.word(totalSize))
      ensures size == 0 ==> unchanged(mem)
      ensures ok ==> SameOwners(old(sections), old(owners), sections, owners)
    {
      ghost var s0, m0, o0, at := sections, mem[..], owners, base + fixedSize;
      assert s0[i].End() <= |m0|;
      PlaceAtFront(i);
      ghost var s1, m1 := sections, mem[..];
      assert m1 == m0;
      ok := GrowFront(i, size);
      if ok {
        PlacedAndGrown(m1, mem[..], s0, o0, s1, sections, owners, i, at, size, size > 0, header.totalAt, header.word(totalSize));
      }
    }

    /** set_syspage_section: an empty section becomes the next one of the fixed front. */
    method SetSection(i: nat, size0: nat) returns (ok: bool)
      requires Valid() && Settled() && i < |sections| && sections[i].size == 0
      requires totalSize + Round8(size0) < TWO_32
      modifies this`sections, this`totalSize, this`fixedSize, this`owners, mem
      ensures !ok <==> size0 > 0 && old(totalSize) + Round8(size0) > maxSize
      ensures ok ==> Valid() && Settled() && |sections| == |old(sections)|
      ensures ok ==> sections[i] == Section(base + old(fixedSize), Round8(size0)) && fixedSize == old(fixedSize) + Round8(size0)
      ensures ok ==> totalSize == old(totalSize) + Round8(size0)
      ensures ok && size0 > 0 ==>
        GrownPage(old(mem[..]), mem[..], old(sections), sections, i, Round8(size0), header.totalAt, header.word(totalSize))
      ensures size0 == 0 ==> unchanged(mem)
      ensures ok ==> SameOwners(old(sections), old(owners), sections, owners)
    {
      var size := Round8(size0);
      assert size > 0 <==> size0 > 0;
      ok := SetRounded(i, size);
    }

    /** The pointer loop of reloc_syspage_memory. */
    method MoveSections(diff: int)
      requires forall j :: 0 <= j < |sections| ==> sections[j].p + diff >= 0
      modifies this`sections
      ensures |sections| == |old(sections)|
      ensures forall j :: 0 <= j < |sections| ==> sections[j].p == old(sections)[j].p + diff && sections[j].size == old(sections)[j].size
    {
      var k := 0;
      ghost var s0 := sections;
      while k < |sections|
        invariant 0 <= k <= |sections| == |s0|
        invariant forall j :: 0 <= j < |s0| ==>
          sections[j] == if j < k then Section(s0[j].p + diff, s0[j].size) else s0[j]
      {
        sections := sections[k := Section(sections[k].p + diff, sections[k].size)];
        k := k + 1;
      }
    }

    /** The pointer updates of reloc_syspage_memory. */
    method MovePointers(newBase: nat)
      requires Valid()
      modifies this`base, this`sections, this`owners
      ensures base == newBase && MovedSections(old(sections), sections, old(base), base)
      ensures Tiled(sections, base, totalSize) && Headed(sections, base, header) && (old(Settled()) ==> Settled())
      ensures SameOwners(old(sections), old(owners), sections, owners)
    {
      ghost var s0, b0, o0 := sections, base, owners;
      var diff := newBase - base;
      RelocOwners(base, totalSize, diff);
      MoveSections(diff);
      base := newBase;
      MovedTiles(s0, sections, b0, totalSize, newBase, fixedSize);
      MovedHead(s0, sections, b0, newBase, header);
      MovedOwners(s0, sections, b0, totalSize, newBase, o0, owners);
    }

    /** The updates of reloc_syspage_memory but for its last one. */
    method MovePage(newBase: nat)
      requires Valid() && newBase + totalSize <= mem.Length
      modifies this`base, this`sections, this`owners, mem
      ensures base == newBase && Tiled(sections, base, totalSize) && Headed(sections, base, header)
      ensures |sections| == |old(sections)| && (old(Settled()) ==> Settled())
      ensures forall j :: 0 <= j < |sections| ==>
        && old(sections)[j].End() <= mem.Length && sections[j].End() <= mem.Length && sections[j].size == old(sections)[j].size
        && Bytes(mem[..], sections[j]) == Bytes(old(mem[..]), old(sections)[j])
      ensures SameOwners(old(sections), old(owners), sections, owners)
    {
      ghost var m0, s0, b0 := mem[..], sections, base;
      Memmove(mem, newBase, base, totalSize);
      MovePointers(newBase);
      MovedBytes(m0, mem[..], s0, sections, b0, totalSize, newBase);
    }

    /** reloc_syspage_memory: the page moves to newBase, with everything that points into it. Only the
    word size of its header changes. */
    method Reloc(newBase: nat, newMax: nat)
      requires Valid() && newBase + totalSize <= mem.Length && newBase + newMax <= mem.Length && newMax < TWO_32
      modifies this, mem
      ensures Valid() && (old(Settled()) ==> Settled())
      ensures base == newBase && maxSize == newMax && totalSize == old(totalSize) && |sections| == |old(sections)|
      ensures forall j :: 0 <= j < |sections| ==>
        sections[j].size == old(sections)[j].size && Content(j) == Stamped(j, old(Content(j)), header.maxAt, header.word(newMax))
      ensures SameOwners(old(sections), old(owners), sections, owners)
    {
      ghost var m0, s0 := mem[..], sections;
      HeaderInside(s0, base, totalSize, header);
      MovePage(newBase);
      maxSize := newMax;
      ghost var m1, s1, b1, t1 := mem[..], sections, base, totalSize;
      PutWord(mem, base + header.maxAt, header.word(newMax));
      assert sections == s1 && base == b1 && totalSize == t1;
      MovedStamped(m0, m1, mem[..], s0, sections, base, header, header.maxAt, header.word(newMax));
    }
  }
}
