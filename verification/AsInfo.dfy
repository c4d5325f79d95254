/** The asinfo table: address-space entries linked to an owner by offset
(lib/as_add64.c, lib/as_find_containing.c, lib/as_add_containing.c, lib/as_set_priority.c).

Offsets into the table are indices here, and AS_NULL_OFF is None. Ranges are inclusive on both
ends, as in the C structure. A range with start > end is empty. */
module AsInfo {
  import opened Options

  /** The attribute bits; ram is AS_ATTR_RAM, and other stands for the bits that nothing here looks at. */
  datatype Attr = Attr(overlayIo: bool, continued: bool, kids: bool, ram: bool, other: nat)

  datatype AsEntry = AsEntry(start: int, end: int, owner: Option<nat>, name: string, attr: Attr, priority: nat) {
    predicate Has(x: int) {
      start <= x <= end
    }
  }

  /** struct as_range of lib/as_add_containing.c:29-34. */
  datatype AsRange = AsRange(start: int, end: int, owner: nat) {
    predicate Has(x: int) {
      start <= x <= end
    }
  }

  const AS_PRIORITY_DEFAULT: nat := 100

  /** Every owner link points to an earlier entry, so owner chains end. */
  ghost predicate OwnersBelow(entries: seq<AsEntry>) {
    forall i :: 0 <= i < |entries| && entries[i].owner.Some? ==> entries[i].owner.value < i
  }

  /** Entry i or one of its owners carries the name. */
  ghost predicate MatchName(entries: seq<AsEntry>, i: nat, name: string)
    requires OwnersBelow(entries) && i < |entries|
    decreases i
  {
    entries[i].name == name || (entries[i].owner.Some? && MatchName(entries, entries[i].owner.value, name))
  }

  /** The three-way test of as_find_containing. */
  predicate Overlaps(start: int, end: int, e: AsEntry) {
    e.Has(start) || e.Has(end) || (start <= e.start && end >= e.end)
  }

  ghost predicate Hit(entries: seq<AsEntry>, i: nat, start: int, end: int, container: string)
    requires OwnersBelow(entries)
  {
    i < |entries| && MatchName(entries, i, container) && Overlaps(start, end, entries[i])
  }

  /** Some entry that matches the name holds address x. */
  ghost predicate NameCovers(entries: seq<AsEntry>, name: string, x: int)
    requires OwnersBelow(entries)
  {
    exists i :: 0 <= i < |entries| && MatchName(entries, i, name) && entries[i].Has(x)
  }

  /** i is the last entry that matches the name and holds address x: the innermost container. */
  ghost predicate LastOwner(entries: seq<AsEntry>, name: string, upto: nat, x: int, i: nat)
    requires OwnersBelow(entries) && upto <= |entries|
  {
    && i < upto && MatchName(entries, i, name) && entries[i].Has(x)
    && forall k :: i < k < upto && MatchName(entries, k, name) ==> !entries[k].Has(x)
  }

  function Clip(e: AsEntry, start: int, end: int, owner: nat): AsRange {
    AsRange(if e.start > start then e.start else start, if e.end < end then e.end else end, owner)
  }

  ghost predicate Within(p: AsRange, q: AsRange) {
    q.start <= p.start && p.end <= q.end
  }

  ghost predicate Apart(p: AsRange, q: AsRange) {
    p.end < q.start || q.end < p.start
  }

  /** Inside [start, end], matching containers are disjoint or the later one is nested in the earlier. */
  ghost predicate Laminar(entries: seq<AsEntry>, start: int, end: int, container: string)
    requires OwnersBelow(entries)
  {
    && start <= end
    && (forall i :: 0 <= i < |entries| && MatchName(entries, i, container) ==> entries[i].start <= entries[i].end)
    && forall i, j :: 0 <= i < j < |entries| && Hit(entries, i, start, end, container) && Hit(entries, j, start, end, container) ==>
        var p, q := Clip(entries[i], start, end, i), Clip(entries[j], start, end, j);
        Within(q, p) || Apart(p, q)
  }

  ghost predicate RangeCovers(list: seq<AsRange>, x: int) {
    exists i :: 0 <= i < |list| && list[i].Has(x)
  }

  /** Some range of the list holds x on behalf of owner o. */
  ghost predicate Holds(list: seq<AsRange>, x: int, o: nat) {
    exists i :: 0 <= i < |list| && list[i].Has(x) && list[i].owner == o
  }

  /** Apart, and not touching when they belong to one owner. */
  ghost predicate Separate(p: AsRange, q: AsRange) {
    Apart(p, q) && (p.owner == q.owner ==> p.end + 1 != q.start && q.end + 1 != p.start)
  }

  /** Nonempty, pairwise disjoint, and no two ranges of one owner touch. */
  ghost predicate Tidy(list: seq<AsRange>) {
    && (forall i :: 0 <= i < |list| ==> list[i].start <= list[i].end)
    && (forall i, j :: 0 <= i < j < |list| ==> Separate(list[i], list[j]))
  }

  function SplitOne(c: AsRange, p: AsRange): seq<AsRange> {
    if c.start == p.start && c.end == p.end then [AsRange(c.start, c.end, p.owner)]
    else if c.start == p.start then [p, AsRange(p.end + 1, c.end, c.owner)]
    else if c.end != p.end then
      [AsRange(c.start, p.start - 1, c.owner), p, AsRange(p.end + 1, c.end, c.owner)]
    else [AsRange(c.start, p.start - 1, c.owner), p]
  }

  /** Which list as_add_containing builds when range p meets the list at position k. */
  function Split(list: seq<AsRange>, k: nat, p: AsRange): seq<AsRange>
    requires k <= |list|
  {
    if k == |list| then list + [p]
    else list[..k] + SplitOne(list[k], p) + list[k + 1..]
  }

  lemma HoldsConcat(a: seq<AsRange>, b: seq<AsRange>, x: int, o: nat)
    ensures Holds(a + b, x, o) <==> Holds(a, x, o) || Holds(b, x, o)
  {
    var c := a + b;
    if i :| 0 <= i < |a| && a[i].Has(x) && a[i].owner == o {
      assert c[i].Has(x);
    }
    if i :| 0 <= i < |b| && b[i].Has(x) && b[i].owner == o {
      assert c[|a| + i].Has(x);
    }
  }

  lemma RangeConcat(a: seq<AsRange>, b: seq<AsRange>, x: int)
    ensures RangeCovers(a + b, x) <==> RangeCovers(a, x) || RangeCovers(b, x)
  {
    var c := a + b;
    if i :| 0 <= i < |a| && a[i].Has(x) {
      assert c[i].Has(x);
    }
    if i :| 0 <= i < |b| && b[i].Has(x) {
      assert c[|a| + i].Has(x);
    }
  }

  lemma SplitOneCovers(c: AsRange, p: AsRange, x: int)
    requires c.Has(p.start) && p.start <= p.end + 1
    ensures RangeCovers(SplitOne(c, p), x) <==> c.Has(x) || p.Has(x)
  {
    var s := SplitOne(c, p);
    if p.Has(x) {
      assert s[if c.start == p.start then 0 else 1].Has(x);
    } else if c.Has(x) {
      assert s[if c.start != p.start && x < p.start then 0 else |s| - 1].Has(x);
    }
  }

  /** Whatever the ranges are, splitting adds exactly the addresses of p. */
  lemma SplitCovers(list: seq<AsRange>, k: nat, p: AsRange, x: int)
    requires k <= |list|
    requires k < |list| ==> list[k].Has(p.start)
    requires p.start <= p.end + 1
    ensures RangeCovers(Split(list, k, p), x) <==> RangeCovers(list, x) || p.Has(x)
  {
    var one := [p];
    assert RangeCovers(one, x) <==> one[0].Has(x);
    if k == |list| {
      RangeConcat(list, one, x);
    } else {
      var c, s := list[k], SplitOne(list[k], p);
      RangeConcat(list[..k], s, x);
      RangeConcat(list[..k] + s, list[k + 1..], x);
      assert list == list[..k] + [c] + list[k + 1..];
      RangeConcat(list[..k], [c], x);
      RangeConcat(list[..k] + [c], list[k + 1..], x);
      assert RangeCovers([c], x) <==> [c][0].Has(x);
      SplitOneCovers(c, p, x);
    }
  }

  /** p lies inside the range it meets, or meets none: then p takes over exactly its own addresses. */
  ghost predicate Nests(list: seq<AsRange>, k: nat, p: AsRange) {
    && k <= |list| && p.start <= p.end
    && (forall i :: 0 <= i < |list| ==> list[i].owner < p.owner)
    && (k == |list| ==> forall i :: 0 <= i < |list| ==> Apart(list[i], p))
    && (k < |list| ==> Within(p, list[k]))
  }

  lemma TidyConcat(a: seq<AsRange>, b: seq<AsRange>)
    requires Tidy(a) && Tidy(b)
    requires forall i, j :: 0 <= i < |a| && 0 <= j < |b| ==> Separate(a[i], b[j])
    ensures Tidy(a + b)
  {
  }

  lemma SplitOneTidy(c: AsRange, p: AsRange)
    requires p.start <= p.end && Within(p, c) && c.owner < p.owner
    ensures Tidy(SplitOne(c, p))
  {
  }

  /** A piece lies inside c and keeps an end that touches the outside only if c had it. */
  lemma SplitOneInside(c: AsRange, p: AsRange, i: nat)
    requires p.start <= p.end && Within(p, c) && c.owner < p.owner
    requires i < |SplitOne(c, p)|
    ensures Within(SplitOne(c, p)[i], c)
    ensures SplitOne(c, p)[i].owner in {c.owner, p.owner}
  {
  }

  lemma SplitTidy(list: seq<AsRange>, k: nat, p: AsRange)
    requires Tidy(list) && Nests(list, k, p)
    ensures Tidy(Split(list, k, p))
  {
    if k < |list| {
      var c, s := list[k], SplitOne(list[k], p);
      SplitOneTidy(c, p);
      forall i, m | 0 <= i < |s| && 0 <= m < |list| && m != k
        ensures Separate(s[i], list[m]) && Separate(list[m], s[i])
      {
        assert m < k ==> Separate(list[m], c);
        assert k < m ==> Separate(c, list[m]);
        SplitOneInside(c, p, i);
      }
      assert forall i :: 0 <= i < |s| ==> s[i].start <= s[i].end;
      TidyConcat(list[..k], s);
      TidyConcat(list[..k] + s, list[k + 1..]);
    }
  }

  lemma SplitOneHolds(c: AsRange, p: AsRange, x: int, o: nat)
    requires p.start <= p.end && Within(p, c)
    ensures Holds(SplitOne(c, p), x, o) <==>
      if p.Has(x) then o == p.owner else c.Has(x) && o == c.owner
  {
    var s := SplitOne(c, p);
    if p.Has(x) {
      assert s[if c.start == p.start then 0 else 1].Has(x);
    } else if c.Has(x) {
      assert s[if c.start != p.start && x < p.start then 0 else |s| - 1].Has(x);
    }
  }

  lemma SplitHolds(list: seq<AsRange>, k: nat, p: AsRange, x: int, o: nat)
    requires Tidy(list) && Nests(list, k, p)
    ensures Holds(Split(list, k, p), x, o) <==> if p.Has(x) then o == p.owner else Holds(list, x, o)
  {
    var one := [p];
    assert Holds(one, x, o) <==> one[0].Has(x) && one[0].owner == o;
    if k == |list| {
      HoldsConcat(list, one, x, o);
    } else {
      var c, s := list[k], SplitOne(list[k], p);
      var cs := [c];
      HoldsConcat(list[..k], s, x, o);
      HoldsConcat(list[..k] + s, list[k + 1..], x, o);
      assert list == list[..k] + cs + list[k + 1..];
      HoldsConcat(list[..k], cs, x, o);
      HoldsConcat(list[..k] + cs, list[k + 1..], x, o);
      assert Holds(cs, x, o) <==> cs[0].Has(x) && cs[0].owner == o;
      SplitOneHolds(c, p, x, o);
      if c.Has(x) {
        forall i | 0 <= i < |list| && i != k
          ensures !list[i].Has(x)
        {
          assert Separate(list[i], c) || Separate(c, list[i]);
        }
      }
    }
  }

  /** The table after as_add64: the new entry goes last and its owner learns it has kids. */
  function Appended(entries: seq<AsEntry>, start: int, end: int, attr: Attr, name: string, owner: Option<nat>): seq<AsEntry>
    requires owner.Some? ==> owner.value < |entries|
  {
    var more := entries + [AsEntry(start, end, owner, name, attr.(overlayIo := false), AS_PRIORITY_DEFAULT)];
    if owner.Some? then
      more[owner.value := more[owner.value].(attr := more[owner.value].attr.(kids := true))]
    else
      more
  }

  /** Entries that differ at most in the kids bit. */
  ghost predicate SameButKids(a: AsEntry, b: AsEntry) {
    a == b.(attr := b.attr.(kids := a.attr.kids))
  }

  /** after begins with the entries of before, up to kids bits. */
  ghost predicate Extends(before: seq<AsEntry>, after: seq<AsEntry>) {
    && |before| <= |after|
    && forall i :: 0 <= i < |before| ==> SameButKids(after[i], before[i])
  }

  lemma {:induction false} MatchNameExtends(before: seq<AsEntry>, after: seq<AsEntry>, i: nat, name: string)
    requires OwnersBelow(before) && OwnersBelow(after) && Extends(before, after) && i < |before|
    ensures MatchName(after, i, name) <==> MatchName(before, i, name)
    decreases i
  {
    if before[i].owner.Some? {
      MatchNameExtends(before, after, before[i].owner.value, name);
    }
  }

  /** Entry e carries on exactly the range r it was made from, with the default priority and the asked
  attributes; whether it is CONTINUED or has kids is said apart. */
  ghost predicate Emitted(e: AsEntry, r: AsRange, name: string, attr: Attr) {
    && e.start == r.start && e.end == r.end && e.owner == Some(r.owner) && e.name == name && e.priority == AS_PRIORITY_DEFAULT
    && !e.attr.overlayIo && e.attr.ram == attr.ram && e.attr.other == attr.other
  }

  /** An old entry is marked as having kids exactly if it was before or owns one of the pieces. */
  ghost predicate KidsMarked(before: seq<AsEntry>, after: seq<AsEntry>, pieces: seq<AsRange>)
    requires |before| <= |after|
  {
    forall i :: 0 <= i < |before| ==>
      (after[i].attr.kids <==> before[i].attr.kids || exists k :: 0 <= k < |pieces| && pieces[k].owner == i)
  }

  lemma KidsOfNext(before: seq<AsEntry>, now: seq<AsEntry>, after: seq<AsEntry>, pieces: seq<AsRange>, p: AsRange)
    requires |before| <= |now| <= |after| && p.owner < |before| && KidsMarked(before, now, pieces)
    requires forall i :: 0 <= i < |before| ==> after[i].attr.kids == (now[i].attr.kids || i == p.owner)
    ensures KidsMarked(before, after, pieces + [p])
  {
    var more := pieces + [p];
    assert more[|pieces|] == p && forall k :: 0 <= k < |pieces| ==> more[k] == pieces[k];
  }

  /** The ranges that as_add_containing turns into entries: the empty ones are skipped. */
  function Nonempty(list: seq<AsRange>): seq<AsRange> {
    if list == [] then []
    else
      var rest := Nonempty(list[..|list| - 1]);
      var last := list[|list| - 1];
      if last.start <= last.end then rest + [last] else rest
  }

  lemma {:induction false} NonemptyCovers(list: seq<AsRange>, x: int)
    ensures RangeCovers(Nonempty(list), x) <==> RangeCovers(list, x)
    ensures forall i :: 0 <= i < |Nonempty(list)| ==> Nonempty(list)[i].start <= Nonempty(list)[i].end
  {
    if list != [] {
      var init, last := list[..|list| - 1], [list[|list| - 1]];
      NonemptyCovers(init, x);
      assert list == init + last;
      RangeConcat(init, last, x);
      RangeConcat(Nonempty(init), last, x);
      assert RangeCovers(last, x) <==> last[0].Has(x);
    }
  }

  lemma {:induction false} NonemptyOfTidy(list: seq<AsRange>)
    requires forall i :: 0 <= i < |list| ==> list[i].start <= list[i].end
    ensures Nonempty(list) == list
  {
    if list != [] {
      NonemptyOfTidy(list[..|list| - 1]);
    }
  }

  lemma {:induction false} NonemptyPrefix(list: seq<AsRange>, i: nat)
    requires i <= |list|
    ensures Nonempty(list[..i]) <= Nonempty(list)
    decreases |list|
  {
    if i < |list| {
      var init := list[..|list| - 1];
      assert init[..i] == list[..i];
      NonemptyPrefix(init, i);
    } else {
      assert list[..i] == list;
    }
  }

  /** The list covers [start, end] inside the matching entries before upto. */
  ghost predicate CoversUpTo(entries: seq<AsEntry>, start: int, end: int, container: string, upto: nat, list: seq<AsRange>)
    requires OwnersBelow(entries) && upto <= |entries|
  {
    forall x :: RangeCovers(list, x) <==>
      start <= x <= end && exists i :: 0 <= i < upto && MatchName(entries, i, container) && entries[i].Has(x)
  }

  /** Every address of [start, end] is held for its innermost container before upto, and no other is held. */
  ghost predicate OwnedUpTo(entries: seq<AsEntry>, start: int, end: int, container: string, upto: nat, list: seq<AsRange>)
    requires OwnersBelow(entries) && upto <= |entries|
  {
    && Tidy(list)
    && (forall i :: 0 <= i < |list| ==> list[i].owner < upto)
    && forall x, o :: Holds(list, x, o) <==> start <= x <= end && LastOwner(entries, container, upto, x, o)
  }

  /** Entries that as_find_containing passes over hold nothing of [start, end]. */
  lemma SkippedHoldNothing(entries: seq<AsEntry>, start: int, end: int, container: string, from: nat, upto: nat, list: seq<AsRange>)
    requires OwnersBelow(entries) && from <= upto <= |entries|
    requires forall k :: from <= k < upto ==> !Hit(entries, k, start, end, container)
    ensures CoversUpTo(entries, start, end, container, from, list) ==> CoversUpTo(entries, start, end, container, upto, list)
    ensures OwnedUpTo(entries, start, end, container, from, list) ==> OwnedUpTo(entries, start, end, container, upto, list)
  {
    forall k, x | from <= k < upto && start <= x <= end && MatchName(entries, k, container)
      ensures !entries[k].Has(x)
    {
      assert !Hit(entries, k, start, end, container);
    }
  }

  lemma InsertCovers(entries: seq<AsEntry>, start: int, end: int, container: string, c: nat, list: seq<AsRange>, k: nat)
    requires OwnersBelow(entries) && Hit(entries, c, start, end, container)
    requires CoversUpTo(entries, start, end, container, c, list)
    requires k <= |list|
    requires var p := Clip(entries[c], start, end, c); p.start <= p.end + 1 && (k < |list| ==> list[k].Has(p.start))
    ensures CoversUpTo(entries, start, end, container, c + 1, Split(list, k, Clip(entries[c], start, end, c)))
  {
    var p := Clip(entries[c], start, end, c);
    forall x
      ensures RangeCovers(Split(list, k, p), x) <==>
        start <= x <= end && exists i :: 0 <= i < c + 1 && MatchName(entries, i, container) && entries[i].Has(x)
    {
      SplitCovers(list, k, p, x);
    }
  }

  /** In a laminar table all addresses of a later piece have one innermost owner so far. */
  lemma OneOwner(entries: seq<AsEntry>, start: int, end: int, container: string, c: nat, x: int, y: int, o: nat)
    requires OwnersBelow(entries) && Laminar(entries, start, end, container)
    requires Hit(entries, c, start, end, container)
    requires Clip(entries[c], start, end, c).Has(x) && Clip(entries[c], start, end, c).Has(y)
    requires LastOwner(entries, container, c, x, o)
    ensures LastOwner(entries, container, c, y, o)
  {
    assert Hit(entries, o, start, end, container);
    forall k | o < k < c && MatchName(entries, k, container)
      ensures !entries[k].Has(y)
    {
      if entries[k].Has(y) {
        assert Hit(entries, k, start, end, container);
      }
    }
  }

  /** A later piece that meets a range of the list lies inside it. */
  lemma MeetingMeansWithin(entries: seq<AsEntry>, start: int, end: int, container: string, c: nat, list: seq<AsRange>, i: nat, x: int)
    requires OwnersBelow(entries) && Laminar(entries, start, end, container)
    requires Hit(entries, c, start, end, container)
    requires OwnedUpTo(entries, start, end, container, c, list)
    requires i < |list| && list[i].Has(x) && Clip(entries[c], start, end, c).Has(x)
    ensures Within(Clip(entries[c], start, end, c), list[i])
  {
    var p, r := Clip(entries[c], start, end, c), list[i];
    assert Holds(list, x, r.owner);
    if p.end > r.end {
      OneOwner(entries, start, end, container, c, x, r.end + 1, r.owner);
    }
    if p.start < r.start {
      OneOwner(entries, start, end, container, c, x, r.start - 1, r.owner);
    }
  }

  lemma InsertOwned(entries: seq<AsEntry>, start: int, end: int, container: string, c: nat, list: seq<AsRange>, k: nat)
    requires OwnersBelow(entries) && Laminar(entries, start, end, container)
    requires Hit(entries, c, start, end, container)
    requires OwnedUpTo(entries, start, end, container, c, list)
    requires k <= |list| && (k < |list| ==> list[k].Has(Clip(entries[c], start, end, c).start))
    requires forall i :: 0 <= i < k ==> !list[i].Has(Clip(entries[c], start, end, c).start)
    ensures OwnedUpTo(entries, start, end, container, c + 1, Split(list, k, Clip(entries[c], start, end, c)))
  {
    var p := Clip(entries[c], start, end, c);
    var l' := Split(list, k, p);
    if k < |list| {
      MeetingMeansWithin(entries, start, end, container, c, list, k, p.start);
    } else {
      forall i | 0 <= i < |list|
        ensures Apart(list[i], p)
      {
        if !Apart(list[i], p) {
          MeetingMeansWithin(entries, start, end, container, c, list, i, if list[i].start > p.start then list[i].start else p.start);
        }
      }
    }
    SplitTidy(list, k, p);
    forall x, o
      ensures Holds(l', x, o) <==> start <= x <= end && LastOwner(entries, container, c + 1, x, o)
    {
      SplitHolds(list, k, p, x, o);
    }
  }

  ghost predicate OwnersMatch(entries: seq<AsEntry>, list: seq<AsRange>, container: string)
    requires OwnersBelow(entries)
  {
    forall i :: 0 <= i < |list| ==> list[i].owner < |entries| && MatchName(entries, list[i].owner, container)
  }

  lemma {:induction false} NonemptyOwners(entries: seq<AsEntry>, list: seq<AsRange>, container: string)
    requires OwnersBelow(entries) && OwnersMatch(entries, list, container)
    ensures OwnersMatch(entries, Nonempty(list), container)
  {
    if list != [] {
      NonemptyOwners(entries, list[..|list| - 1], container);
    }
  }

  /** Both claims about the list after the matching entries before upto. */
  ghost predicate SplitSoFar(entries: seq<AsEntry>, start: int, end: int, container: string, upto: nat, list: seq<AsRange>)
    requires OwnersBelow(entries) && upto <= |entries|
  {
    && OwnersMatch(entries, list, container)
    && CoversUpTo(entries, start, end, container, upto, list)
    && (Laminar(entries, start, end, container) ==> OwnedUpTo(entries, start, end, container, upto, list))
  }

  lemma SplitStep(entries: seq<AsEntry>, start: int, end: int, container: string, upto: nat, c: nat, list: seq<AsRange>, k: nat)
    requires OwnersBelow(entries) && upto <= c < |entries|
    requires SplitSoFar(entries, start, end, container, upto, list)
    requires forall i :: upto <= i < c ==> !Hit(entries, i, start, end, container)
    requires Hit(entries, c, start, end, container)
    requires var p := Clip(entries[c], start, end, c);
      && p.start <= p.end + 1
      && k <= |list| && (k < |list| ==> list[k].Has(p.start))
      && forall i :: 0 <= i < k ==> !list[i].Has(p.start)
    ensures SplitSoFar(entries, start, end, container, c + 1, Split(list, k, Clip(entries[c], start, end, c)))
  {
    SkippedHoldNothing(entries, start, end, container, upto, c, list);
    InsertCovers(entries, start, end, container, c, list, k);
    if Laminar(entries, start, end, container) {
      InsertOwned(entries, start, end, container, c, list, k);
    }
  }

  /** What as_add_containing appends from n0 on: one entry per piece, chained by the CONTINUED attribute. */
  ghost predicate Chain(entries: seq<AsEntry>, n0: nat, pieces: seq<AsRange>, name: string, attr: Attr) {
    && n0 + |pieces| <= |entries|
    && forall i :: n0 <= i < n0 + |pieces| ==>
         Emitted(entries[i], pieces[i - n0], name, attr) && entries[i].attr.continued == (i < n0 + |pieces| - 1)
  }

  /** Entry i is RAM under this name with no other attribute than its links, and belongs to an entry that
  matches the container. */
  ghost predicate FiledAs(entries: seq<AsEntry>, i: nat, name: string, container: string)
    requires OwnersBelow(entries)
  {
    && i < |entries| && entries[i].name == name && entries[i].priority == AS_PRIORITY_DEFAULT
    && !entries[i].attr.overlayIo && entries[i].attr.ram && entries[i].attr.other == 0
    && entries[i].owner.Some? && MatchName(entries, entries[i].owner.value, container)
  }

  /** All entries from n0 on. */
  ghost predicate FiledFrom(entries: seq<AsEntry>, n0: nat, name: string, container: string)
    requires OwnersBelow(entries)
  {
    forall i :: n0 <= i < |entries| ==> FiledAs(entries, i, name, container)
  }

  lemma FiledStays(before: seq<AsEntry>, after: seq<AsEntry>, i: nat, name: string, container: string)
    requires OwnersBelow(before) && OwnersBelow(after) && Extends(before, after) && FiledAs(before, i, name, container)
    ensures FiledAs(after, i, name, container)
  {
    MatchNameExtends(before, after, before[i].owner.value, container);
  }

  /** A further call files its entries behind those filed since n0. */
  lemma FiledMore(n0: nat, before: seq<AsEntry>, after: seq<AsEntry>, name: string, container: string)
    requires OwnersBelow(before) && OwnersBelow(after) && Extends(before, after)
    requires FiledFrom(before, n0, name, container) && FiledFrom(after, |before|, name, container)
    ensures FiledFrom(after, n0, name, container)
  {
    forall i | n0 <= i < |before|
      ensures FiledAs(after, i, name, container)
    {
      FiledStays(before, after, i, name, container);
    }
  }

  lemma PiecesFiled(before: seq<AsEntry>, after: seq<AsEntry>, pieces: seq<AsRange>, name: string, container: string)
    requires OwnersBelow(before) && OwnersBelow(after) && Extends(before, after) && |after| == |before| + |pieces|
    requires OwnersMatch(before, pieces, container) && Chain(after, |before|, pieces, name, Attr(false, false, false, true, 0))
    ensures FiledFrom(after, |before|, name, container)
  {
    forall i | |before| <= i < |after|
      ensures FiledAs(after, i, name, container)
    {
      assert Emitted(after[i], pieces[i - |before|], name, Attr(false, false, false, true, 0));
      MatchNameExtends(before, after, pieces[i - |before|].owner, container);
    }
  }

  /** The same before the last piece loses its CONTINUED attribute. */
  ghost predicate AllChained(entries: seq<AsEntry>, n0: nat, pieces: seq<AsRange>, name: string, attr: Attr) {
    && n0 + |pieces| <= |entries|
    && forall i :: n0 <= i < n0 + |pieces| ==>
         Emitted(entries[i], pieces[i - n0], name, attr) && entries[i].attr.continued && entries[i].attr.kids == attr.kids
  }

  /** The first count pieces are marked as having kids, the others only if the call asked for it. */
  ghost predicate PieceKids(entries: seq<AsEntry>, n0: nat, pieces: seq<AsRange>, count: nat, attr: Attr) {
    && n0 + |pieces| <= |entries|
    && forall i :: n0 <= i < n0 + |pieces| ==> entries[i].attr.kids == (attr.kids || i < n0 + count)
  }

  /** The CONTINUED chain that starts at off ends at last. */
  ghost predicate ChainEnds(entries: seq<AsEntry>, off: nat, last: nat) {
    && off <= last < |entries| && !entries[last].attr.continued
    && forall i :: off <= i < last ==> entries[i].attr.continued
  }

  /** The first count AS_OVERLAY_IO entries: one more per piece, owned by that piece. */
  ghost predicate Overlays(entries: seq<AsEntry>, n0: nat, pieces: seq<AsRange>, name: string, attr: Attr, count: nat) {
    && count <= |pieces| && n0 + |pieces| + count <= |entries|
    && forall j :: n0 + |pieces| <= j < n0 + |pieces| + count ==>
         && Emitted(entries[j], pieces[j - n0 - |pieces|].(owner := j - |pieces|), name, attr)
         && entries[j].attr.continued == attr.continued && entries[j].attr.kids == attr.kids
  }

  lemma OverlayStep(entries: seq<AsEntry>, n0: nat, pieces: seq<AsRange>, name: string, count: nat, attr: Attr)
    requires Chain(entries, n0, pieces, name, attr) && Overlays(entries, n0, pieces, name, attr, count)
    requires PieceKids(entries, n0, pieces, count, attr)
    requires count < |pieces| && |entries| == n0 + |pieces| + count
    ensures var r := pieces[count];
      var after := Appended(entries, r.start, r.end, attr, name, Some(n0 + count));
      && Chain(after, n0, pieces, name, attr) && Overlays(after, n0, pieces, name, attr, count + 1)
      && PieceKids(after, n0, pieces, count + 1, attr) && after[..n0] == entries[..n0]
  {
  }

  lemma ExtendsTrans(a: seq<AsEntry>, b: seq<AsEntry>, c: seq<AsEntry>)
    requires Extends(a, b) && Extends(b, c)
    ensures Extends(a, c)
  {
    forall i | 0 <= i < |a|
      ensures SameButKids(c[i], a[i])
    {
      assert SameButKids(b[i], a[i]);
      assert SameButKids(c[i], b[i]);
    }
  }

  /** What a name covers after the pieces of a range called name were appended. */
  lemma CoversAfterPieces(before: seq<AsEntry>, after: seq<AsEntry>, pieces: seq<AsRange>, name: string, attr: Attr, query: string, x: int)
    requires OwnersBelow(before) && OwnersBelow(after) && Extends(before, after)
    requires |after| == |before| + |pieces| && Chain(after, |before|, pieces, name, attr)
    requires forall i :: 0 <= i < |pieces| ==> pieces[i].owner < |before|
    ensures NameCovers(after, query, x) <==>
      || NameCovers(before, query, x)
      || exists i :: 0 <= i < |pieces| && pieces[i].Has(x) && (name == query || MatchName(before, pieces[i].owner, query))
  {
    forall i | 0 <= i < |before|
      ensures MatchName(after, i, query) <==> MatchName(before, i, query)
      ensures after[i].Has(x) <==> before[i].Has(x)
    {
      MatchNameExtends(before, after, i, query);
    }
    forall i | 0 <= i < |pieces|
      ensures MatchName(after, |before| + i, query) <==> name == query || MatchName(before, pieces[i].owner, query)
      ensures after[|before| + i].Has(x) <==> pieces[i].Has(x)
    {
      assert Emitted(after[|before| + i], pieces[i], name, attr);
    }
    if i :| 0 <= i < |after| && MatchName(after, i, query) && after[i].Has(x) {
      if i >= |before| {
        assert pieces[i - |before|].Has(x);
      } else {
        assert before[i].Has(x);
      }
    }
    if i :| 0 <= i < |before| && MatchName(before, i, query) && before[i].Has(x) {
      assert after[i].Has(x);
    }
    if i :| 0 <= i < |pieces| && pieces[i].Has(x) && (name == query || MatchName(before, pieces[i].owner, query)) {
      assert after[|before| + i].Has(x);
    }
  }

  /** Range k is the first of the list that holds x, or k is the end of the list. */
  predicate FirstHolder(list: seq<AsRange>, x: int, k: nat) {
    && k <= |list| && (k < |list| ==> list[k].Has(x))
    && forall i :: 0 <= i < k ==> !list[i].Has(x)
  }

  class AsTable {
    var entries: seq<AsEntry>

    /** How many entries the system page has room for; growing past it crashes. */
    const capacity: nat

    ghost predicate Valid()
      reads this
    {
      OwnersBelow(entries) && forall i :: 0 <= i < |entries| ==> entries[i].start <= entries[i].end + 1
    }

    constructor (capacity: nat)
      ensures Valid() && entries == [] && this.capacity == capacity
    {
      entries := [];
      this.capacity := capacity;
    }

    /** as_add64; ok is false when grow_syspage_section crashes. */
    method AsAdd(start: int, end: int, attr: Attr, name: string, owner: Option<nat>) returns (ok: bool, off: nat)
      requires Valid() && start <= end + 1
      requires owner.Some? ==> owner.value < |entries|
      modifies this
      ensures Valid() && Extends(old(entries), entries)
      ensures ok <==> |old(entries)| + (if attr.overlayIo then 2 else 1) <= capacity
      ensures !ok ==> |entries| >= capacity
      ensures ok ==> off == |old(entries)|
      ensures ok && !attr.overlayIo ==> entries == Appended(old(entries), start, end, attr, name, owner)
      ensures ok && attr.overlayIo ==>
        entries == Appended(Appended(old(entries), start, end, attr, name, owner), start, end, attr.(overlayIo := false), "io", Some(off))
    {
      off := |entries|;
      if |entries| >= capacity {
        return false, off;
      }
      entries := entries + [AsEntry(start, end, owner, name, attr.(overlayIo := false), AS_PRIORITY_DEFAULT)];
      if owner.Some? {
        var own := owner.value;
        entries := entries[own := entries[own].(attr := entries[own].attr.(kids := true))];
      }
      ok := true;
      if attr.overlayIo {
        if |entries| >= capacity {
          return false, off;
        }
        entries := entries + [AsEntry(start, end, Some(off), "io", attr.(overlayIo := false), AS_PRIORITY_DEFAULT)];
        entries := entries[off := entries[off].(attr := entries[off].attr.(kids := true))];
      }
    }

    /** match_name: walks up the owner chain. */
    method MatchNameUp(i: nat, name: string) returns (b: bool)
      requires Valid() && i < |entries|
      ensures b <==> MatchName(entries, i, name)
    {
      var cur: nat := i;
      while true
        invariant cur < |entries|
        invariant MatchName(entries, i, name) <==> MatchName(entries, cur, name)
        decreases cur
      {
        if entries[cur].name == name {
          return true;
        }
        if entries[cur].owner.None? {
          return false;
        }
        cur := entries[cur].owner.value;
      }
    }

    /** as_find_containing: the first matching entry after off that overlaps [start, end]. */
    method FindContaining(off: Option<nat>, start: int, end: int, container: string) returns (found: Option<nat>)
      requires Valid()
      ensures var from := if off.Some? then off.value + 1 else 0;
        && (found.Some? ==>
              && from <= found.value
              && Hit(entries, found.value, start, end, container)
              && forall k :: from <= k < found.value ==> !Hit(entries, k, start, end, container))
        && (found.None? ==>
              forall k :: from <= k < |entries| ==> !Hit(entries, k, start, end, container))
    {
      var as_ := if off.Some? then off.value + 1 else 0;
      ghost var from := as_;
      while as_ < |entries|
        invariant from <= as_
        invariant forall k :: from <= k < as_ ==> !Hit(entries, k, start, end, container)
      {
        var matched := MatchNameUp(as_, container);
        if matched && Overlaps(start, end, entries[as_]) {
          return Some(as_);
        }
        as_ := as_ + 1;
      }
      found := None;
    }

    /** The inner loop of as_add_containing: one more piece goes into the range list. */
    method InsertPiece(list: seq<AsRange>, p: AsRange) returns (list': seq<AsRange>, ghost k: nat)
      requires p.start <= p.end + 1
      ensures FirstHolder(list, p.start, k)
      ensures list' == Split(list, k, p)
    {
      var at := 0;
      while at < |list|
        invariant 0 <= at <= |list|
        invariant forall i :: 0 <= i < at ==> !list[i].Has(p.start)
      {
        var curr := list[at];
        if curr.start <= p.start && curr.end >= p.start {
          k := at;
          if curr.start == p.start && curr.end == p.end {
            list' := list[at := curr.(owner := p.owner)];
            return;
          }
          if curr.start == p.start {
            list' := list[..at] + [p, curr.(start := p.end + 1)] + list[at + 1..];
            return;
          }
          var oldEnd := curr.end;
          list' := list[..at] + [curr.(end := p.start - 1), p];
          if oldEnd != p.end {
            list' := list' + [AsRange(p.end + 1, oldEnd, curr.owner)];
          }
          list' := list' + list[at + 1..];
          return;
        }
        at := at + 1;
      }
      k := at;
      list' := list + [p];
    }

    /** One turn of the first loop of as_add_containing: the part of container c goes into the list. */
    method SplitOverOne(c: nat, start: int, end: int, container: string, list0: seq<AsRange>, ghost upto: nat)
        returns (list: seq<AsRange>)
      requires Valid() && start <= end + 1 && upto <= c < |entries| && Hit(entries, c, start, end, container)
      requires forall k :: upto <= k < c ==> !Hit(entries, k, start, end, container)
      requires SplitSoFar(entries, start, end, container, upto, list0)
      ensures SplitSoFar(entries, start, end, container, c + 1, list)
    {
      var piece := Clip(entries[c], start, end, c);
      ghost var k;
      list, k := InsertPiece(list0, piece);
      SplitStep(entries, start, end, container, upto, c, list0, k);
    }

    /** as_add_containing, first loop: split [start, end] over the containers. */
    method SplitOverContainers(start: int, end: int, container: string) returns (list: seq<AsRange>)
      requires Valid() && start <= end + 1
      ensures forall x :: RangeCovers(list, x) <==> start <= x <= end && NameCovers(entries, container, x)
      ensures OwnersMatch(entries, list, container)
      ensures Laminar(entries, start, end, container) ==>
        OwnedUpTo(entries, start, end, container, |entries|, list)
    {
      list := [];
      var owner := FindContaining(None, start, end, container);
      ghost var upto := 0;
      while owner.Some?
        invariant 0 <= upto <= |entries|
        invariant owner.Some? ==> upto <= owner.value && Hit(entries, owner.value, start, end, container)
        invariant forall k :: upto <= k < (if owner.Some? then owner.value else |entries|) ==> !Hit(entries, k, start, end, container)
        invariant SplitSoFar(entries, start, end, container, upto, list)
        decreases if owner.Some? then |entries| - owner.value else 0
      {
        list := SplitOverOne(owner.value, start, end, container, list, upto);
        upto := owner.value + 1;
        owner := FindContaining(owner, start, end, container);
      }
      SkippedHoldNothing(entries, start, end, container, upto, |entries|, list);
    }

    /** The last loop of as_add_containing: walk the chain and overlay every piece. */
    method OverlayPieces(startOff: nat, ghost pieces: seq<AsRange>, attr: Attr, name: string) returns (ok: bool)
      requires Valid() && Chain(entries, startOff, pieces, name, attr) && pieces != []
      requires |entries| == startOff + |pieces| <= capacity && PieceKids(entries, startOff, pieces, 0, attr)
      requires forall i :: 0 <= i < |pieces| ==> pieces[i].start <= pieces[i].end && pieces[i].owner < startOff
      modifies this
      ensures Valid() && Extends(old(entries), entries)
      ensures ok <==> startOff + 2 * |pieces| <= capacity
      ensures !ok ==> |entries| >= capacity
      ensures ok ==> |entries| == startOff + 2 * |pieces| && entries[..startOff] == old(entries)[..startOff]
      ensures ok ==> Chain(entries, startOff, pieces, name, attr) && PieceKids(entries, startOff, pieces, |pieces|, attr)
      ensures ok ==> Overlays(entries, startOff, pieces, name, attr, |pieces|)
    {
      var off := startOff;
      ghost var n0 := startOff;
      while true
        invariant n0 <= off < n0 + |pieces|
        invariant Valid() && Extends(old(entries), entries)
        invariant |entries| == off + |pieces| <= capacity && entries[..n0] == old(entries)[..n0]
        invariant Chain(entries, n0, pieces, name, attr) && Overlays(entries, n0, pieces, name, attr, off - n0)
        invariant PieceKids(entries, n0, pieces, off - n0, attr)
        decreases n0 + |pieces| - off
      {
        var e := entries[off];
        assert Emitted(e, pieces[off - n0], name, attr);
        OverlayStep(entries, n0, pieces, name, off - n0, attr);
        ghost var added;
        ghost var before := entries;
        ok, added := AsAdd(e.start, e.end, attr.(overlayIo := false), name, Some(off));
        ExtendsTrans(old(entries), before, entries);
        if !ok {
          return;
        }
        if !entries[off].attr.continued {
          return;
        }
        off := off + 1;
      }
    }

    /** The end of as_add_containing: the last piece is not CONTINUED, and overlays are added. */
    method FinishChain(startOff: nat, off: nat, ghost pieces: seq<AsRange>, attr: Attr, name: string) returns (ok: bool)
      requires Valid() && AllChained(entries, startOff, pieces, name, attr) && pieces != []
      requires |entries| == startOff + |pieces| <= capacity && off == |entries| - 1
      requires forall i :: 0 <= i < |pieces| ==> pieces[i].start <= pieces[i].end && pieces[i].owner < startOff
      modifies this
      ensures Valid() && Extends(old(entries)[..startOff], entries)
      ensures ok <==> startOff + (if attr.overlayIo then 2 else 1) * |pieces| <= capacity
      ensures !ok ==> |entries| >= capacity
      ensures ok ==> |entries| == startOff + (if attr.overlayIo then 2 else 1) * |pieces|
      ensures ok ==> entries[..startOff] == old(entries)[..startOff]
      ensures ok ==> Chain(entries, startOff, pieces, name, attr) && ChainEnds(entries, startOff, off)
      ensures ok ==> PieceKids(entries, startOff, pieces, if attr.overlayIo then |pieces| else 0, attr)
      ensures ok && attr.overlayIo ==> Overlays(entries, startOff, pieces, name, attr, |pieces|)
    {
      ghost var before := entries[..startOff];
      entries := entries[off := entries[off].(attr := entries[off].attr.(continued := false))];
      ok := true;
      ghost var mid := entries;
      assert mid[..startOff] == before && Extends(before, mid);
      if attr.overlayIo {
        ok := OverlayPieces(startOff, pieces, attr, name);
        ExtendsTrans(before, mid, entries);
      }
    }

    /** One as_add of as_add_containing, behind the pieces done since the table was as before. */
    method EmitPiece(p: AsRange, attr: Attr, name: string, ghost before: seq<AsEntry>, ghost done: seq<AsRange>)
      returns (ok: bool, off: nat)
      requires Valid() && p.start <= p.end && p.owner < |before| && |entries| == |before| + |done| && Extends(before, entries)
      requires AllChained(entries, |before|, done, name, attr) && KidsMarked(before, entries, done)
      modifies this
      ensures Valid() && Extends(before, entries)
      ensures ok <==> |old(entries)| < capacity
      ensures !ok ==> |entries| >= capacity
      ensures ok ==> |entries| == |old(entries)| + 1 && off == |old(entries)|
      ensures ok ==> AllChained(entries, |before|, done + [p], name, attr) && KidsMarked(before, entries, done + [p])
    {
      ghost var now := entries;
      ok, off := AsAdd(p.start, p.end, Attr(false, true, attr.kids, attr.ram, attr.other), name, Some(p.owner));
      ExtendsTrans(before, now, entries);
      if ok {
        KidsOfNext(before, now, entries, done, p);
      }
    }

    /** The second loop of as_add_containing: add the nonempty ranges one after another. */
    method EmitPieces(list: seq<AsRange>, attr: Attr, name: string) returns (ok: bool, startOff: Option<nat>, off: nat)
      requires Valid() && forall i :: 0 <= i < |list| ==> list[i].owner < |entries|
      modifies this
      ensures Valid() && Extends(old(entries), entries)
      ensures ok <==> Nonempty(list) == [] || |old(entries)| + |Nonempty(list)| <= capacity
      ensures !ok ==> |entries| >= capacity
      ensures ok ==> |entries| == |old(entries)| + |Nonempty(list)|
      ensures ok ==> startOff == if Nonempty(list) == [] then None else Some(|old(entries)|)
      ensures ok && startOff.Some? ==> off == |entries| - 1
      ensures ok ==> AllChained(entries, |old(entries)|, Nonempty(list), name, attr)
      ensures ok ==> KidsMarked(old(entries), entries, Nonempty(list))
    {
      ghost var n0 := |entries|;
      ghost var all := Nonempty(list);
      startOff := None;
      off := 0;
      var i := 0;
      assert list[..0] == [];
      while i < |list|
        invariant 0 <= i <= |list|
        invariant Valid() && Extends(old(entries), entries)
        invariant |entries| == n0 + |Nonempty(list[..i])|
        invariant |Nonempty(list[..i])| > 0 ==> |entries| <= capacity && off == |entries| - 1
        invariant startOff == if Nonempty(list[..i]) == [] then None else Some(n0)
        invariant AllChained(entries, n0, Nonempty(list[..i]), name, attr)
        invariant KidsMarked(old(entries), entries, Nonempty(list[..i]))
      {
        assert list[..i + 1][..i] == list[..i];
        NonemptyPrefix(list, i + 1);
        if list[i].start <= list[i].end {
          ok, off := EmitPiece(list[i], attr, name, old(entries), Nonempty(list[..i]));
          if !ok {
            return;
          }
          if startOff.None? {
            startOff := Some(off);
          }
        }
        i := i + 1;
      }
      assert list[..i] == list;
      ok := true;
    }

    /** as_add_containing. pieces are the nonempty ranges it found, in the order it adds them. */
    method AddContaining(start: int, end: int, attr: Attr, name: string, container: string)
      returns (ok: bool, startOff: Option<nat>, ghost pieces: seq<AsRange>)
      requires Valid() && start <= end + 1
      modifies this
      ensures Valid() && Extends(old(entries), entries)
      ensures OwnersMatch(old(entries), pieces, container)
      ensures forall i :: 0 <= i < |pieces| ==> pieces[i].start <= pieces[i].end
      ensures forall x :: RangeCovers(pieces, x) <==> start <= x <= end && NameCovers(old(entries), container, x)
      ensures Laminar(old(entries), start, end, container) ==>
        OwnedUpTo(old(entries), start, end, container, |old(entries)|, pieces)
      ensures ok <==> |old(entries)| + (if attr.overlayIo then 2 else 1) * |pieces| <= capacity || pieces == []
      ensures !ok ==> |entries| >= capacity
      ensures ok ==> startOff == if pieces == [] then None else Some(|old(entries)|)
      ensures ok ==> |entries| == |old(entries)| + (if attr.overlayIo then 2 else 1) * |pieces|
      ensures ok ==> KidsMarked(old(entries), entries, pieces)
      ensures ok ==> Chain(entries, |old(entries)|, pieces, name, attr)
      ensures ok ==> PieceKids(entries, |old(entries)|, pieces, if attr.overlayIo then |pieces| else 0, attr)
      ensures ok && startOff.Some? ==> ChainEnds(entries, startOff.value, startOff.value + |pieces| - 1)
      ensures ok && attr.overlayIo ==> Overlays(entries, |old(entries)|, pieces, name, attr, |pieces|)
    {
      var list := SplitOverContainers(start, end, container);
      pieces := Nonempty(list);
      ghost var n0 := |entries|;
      ghost var before := entries;
      forall x
        ensures RangeCovers(pieces, x) <==> RangeCovers(list, x)
      {
        NonemptyCovers(list, x);
      }
      NonemptyCovers(list, 0);
      NonemptyOwners(entries, list, container);
      if Laminar(before, start, end, container) {
        NonemptyOfTidy(list);
      }
      var off;
      ok, startOff, off := EmitPieces(list, attr, name);
      if ok && startOff.Some? {
        ghost var mid := entries;
        ok := FinishChain(startOff.value, off, pieces, attr, name);
        assert Extends(before, mid[..startOff.value]);
        ExtendsTrans(before, mid[..startOff.value], entries);
      }
    }

    /** as_set_priority: runs along the CONTINUED chain from off. */
    method SetPriority(off: nat, priority: nat, ghost last: nat)
      requires ChainEnds(entries, off, last)
      modifies this
      ensures |entries| == |old(entries)|
      ensures forall i :: 0 <= i < |entries| ==>
        entries[i] == if off <= i <= last then old(entries)[i].(priority := priority) else old(entries)[i]
    {
      var as_ := off;
      while true
        invariant off <= as_ <= last
        invariant |entries| == |old(entries)|
        invariant forall i :: 0 <= i < |entries| ==>
          entries[i] == if off <= i < as_ then old(entries)[i].(priority := priority) else old(entries)[i]
        decreases last - as_
      {
        entries := entries[as_ := entries[as_].(priority := priority)];
        if !entries[as_].attr.continued {
          return;
        }
        as_ := as_ + 1;
      }
    }
  }
}
