/** The second half of alloc_ram (lib/ram.c:318-348): keeping the "sysram" entries of the asinfo
table in step with the free list. */
module Sysram {
  import opened Options
  import opened AsInfo

  /** The first entries differ at most in their ranges and the kids bit, so names match the same entries. */
  ghost predicate SameLinks(before: seq<AsEntry>, after: seq<AsEntry>) {
    && |before| <= |after|
    && forall i :: 0 <= i < |before| ==> SameButKids(after[i], before[i].(start := after[i].start, end := after[i].end))
  }

  /** Entry e carries on the upper end of entry o, with its owner. */
  ghost predicate UpperPart(e: AsEntry, o: AsEntry, end: int) {
    && e.start == end + 1 && e.end == o.end && o.start <= end && e.owner == o.owner
    && e.name == "sysram" && e.attr == Attr(false, false, false, true, 0) && e.priority == AS_PRIORITY_DEFAULT
  }

  /** Every appended entry is what is left above end of one of the old "sysram" entries. */
  ghost predicate SplitOff(before: seq<AsEntry>, now: seq<AsEntry>, end: int)
    requires OwnersBelow(before)
  {
    forall i :: |before| <= i < |now| ==>
      exists k :: 0 <= k < |before| && MatchName(before, k, "sysram") && UpperPart(now[i], before[k], end)
  }

  lemma {:induction false} MatchSameLinks(before: seq<AsEntry>, after: seq<AsEntry>, i: nat, name: string)
    requires OwnersBelow(before) && OwnersBelow(after) && SameLinks(before, after) && i < |before|
    ensures MatchName(after, i, name) <==> MatchName(before, i, name)
    decreases i
  {
    if before[i].owner.Some? {
      MatchSameLinks(before, after, before[i].owner.value, name);
    }
  }

  /** [addr, end] swallows the whole entry: alloc_ram refuses to remove one. */
  predicate Swallows(addr: int, end: int, e: AsEntry) {
    addr <= e.start && e.end <= end
  }

  ghost predicate AnySwallowed(entries: seq<AsEntry>, addr: int, end: int)
    requires OwnersBelow(entries)
  {
    exists i :: 0 <= i < |entries| && MatchName(entries, i, "sysram") && Swallows(addr, end, entries[i])
  }

  /** Some "sysram" entry holds no more than size addresses. */
  ghost predicate ShortEntry(entries: seq<AsEntry>, size: nat)
    requires OwnersBelow(entries)
  {
    exists i :: 0 <= i < |entries| && MatchName(entries, i, "sysram") && entries[i].end - entries[i].start < size
  }

  /** An entry holds an address of [addr, end]. */
  ghost predicate Touches(addr: int, end: int, e: AsEntry) {
    exists x :: addr <= x <= end && e.Has(x)
  }

  /** The three-way overlap test finds every entry that holds an address of the range. */
  lemma OverlapMeaning(addr: int, end: int, e: AsEntry)
    requires addr <= end && e.start <= e.end
    ensures Overlaps(addr, end, e) <==> Touches(addr, end, e)
  {
    if Overlaps(addr, end, e) {
      var x := if e.Has(addr) then addr else if e.Has(end) then end else e.start;
      assert addr <= x <= end && e.Has(x);
    }
  }

  /** The entry list after entry c, which sticks out of [addr, end], gives up that range. */
  function Trimmed(entries: seq<AsEntry>, c: nat, addr: int, end: int): seq<AsEntry>
    requires c < |entries| && (entries[c].owner.Some? ==> entries[c].owner.value < |entries|)
  {
    var e := entries[c];
    if addr <= e.start then entries[c := e.(start := end + 1)]
    else
      var cut := entries[c := e.(end := addr - 1)];
      if e.end <= end then cut
      else Appended(cut, end + 1, e.end, Attr(false, false, false, true, 0), "sysram", e.owner)
  }

  lemma TrimmedLinks(entries: seq<AsEntry>, c: nat, addr: int, end: int)
    requires OwnersBelow(entries) && c < |entries|
    requires addr <= end + 1 && !Swallows(addr, end, entries[c])
    ensures var t := Trimmed(entries, c, addr, end);
      && OwnersBelow(t) && SameLinks(entries, t)
      && (forall i :: 0 <= i < |entries| && i != c ==> t[i].start == entries[i].start && t[i].end == entries[i].end)
      && (|t| > |entries| ==> |t| == |entries| + 1 && MatchName(t, |entries|, "sysram") && t[|entries|].start == end + 1 && t[|entries|].end > end)
      && (|t| > |entries| ==> UpperPart(t[|entries|], entries[c], end))
      && (forall i :: 0 <= i < |entries| && i != c ==> SameButKids(t[i], entries[i]))
  {
  }

  /** Trimming entry c takes [addr, end] away from what c contributes and changes nothing else. */
  lemma TrimmedCovers(entries: seq<AsEntry>, c: nat, addr: int, end: int, x: int)
    requires OwnersBelow(entries) && c < |entries| && MatchName(entries, c, "sysram")
    requires addr <= end + 1 && Overlaps(addr, end, entries[c]) && !Swallows(addr, end, entries[c])
    requires OwnersBelow(Trimmed(entries, c, addr, end))
    ensures NameCovers(Trimmed(entries, c, addr, end), "sysram", x) ==> NameCovers(entries, "sysram", x)
    ensures NameCovers(entries, "sysram", x) && !(addr <= x <= end) ==> NameCovers(Trimmed(entries, c, addr, end), "sysram", x)
    ensures !(addr <= x <= end) || !Trimmed(entries, c, addr, end)[c].Has(x)
  {
    var t := Trimmed(entries, c, addr, end);
    TrimmedLinks(entries, c, addr, end);
    forall i | 0 <= i < |entries|
      ensures MatchName(t, i, "sysram") <==> MatchName(entries, i, "sysram")
    {
      MatchSameLinks(entries, t, i, "sysram");
    }
    if i :| 0 <= i < |t| && MatchName(t, i, "sysram") && t[i].Has(x) {
      assert entries[if i < |entries| then i else c].Has(x);
    }
    if i :| 0 <= i < |entries| && MatchName(entries, i, "sysram") && entries[i].Has(x) {
      if !(addr <= x <= end) {
        assert t[if i == c && |t| > |entries| && x > end then |entries| else i].Has(x);
      }
    }
  }

  /** What holds while the trimming loop has looked at every entry before from. */
  ghost predicate TrimInv(before: seq<AsEntry>, now: seq<AsEntry>, from: nat, addr: int, end: int)
    requires OwnersBelow(before) && OwnersBelow(now)
  {
    && SameLinks(before, now) && from <= |now| && SplitOff(before, now, end)
    && (forall i :: 0 <= i < from && MatchName(now, i, "sysram") ==> !Touches(addr, end, now[i]))
    && (forall i :: from <= i < |before| ==> now[i].start == before[i].start && now[i].end == before[i].end)
    && (forall i :: |before| <= i < |now| ==> now[i].start == end + 1 && now[i].end > end)
    && (forall i :: 0 <= i < from && i < |before| && MatchName(before, i, "sysram") ==> !Swallows(addr, end, before[i]))
    && (forall x :: NameCovers(now, "sysram", x) ==> NameCovers(before, "sysram", x))
    && (forall x :: NameCovers(before, "sysram", x) && !(addr <= x <= end) ==> NameCovers(now, "sysram", x))
  }

  lemma TrimSkip(before: seq<AsEntry>, now: seq<AsEntry>, from: nat, c: nat, addr: int, end: int)
    requires OwnersBelow(before) && OwnersBelow(now) && addr <= end + 1
    requires forall i :: 0 <= i < |now| ==> now[i].start <= now[i].end + 1
    requires TrimInv(before, now, from, addr, end) && from <= c <= |now|
    requires forall k :: from <= k < c ==> !Hit(now, k, addr, end, "sysram")
    ensures TrimInv(before, now, c, addr, end)
  {
    forall i | from <= i < c && MatchName(now, i, "sysram")
      ensures !Touches(addr, end, now[i]) && !Swallows(addr, end, now[i])
    {
      assert !Hit(now, i, addr, end, "sysram");
      if addr <= end && now[i].start <= now[i].end {
        OverlapMeaning(addr, end, now[i]);
      }
    }
    forall i | from <= i < c && i < |before| && MatchName(before, i, "sysram")
      ensures !Swallows(addr, end, before[i])
    {
      MatchSameLinks(before, now, i, "sysram");
    }
  }

  /** What TrimInv says about ranges and links, without the covered set. */
  lemma TrimOneRanges(before: seq<AsEntry>, now: seq<AsEntry>, c: nat, addr: int, end: int)
    requires OwnersBelow(before) && OwnersBelow(now) && addr <= end + 1
    requires TrimInv(before, now, c, addr, end)
    requires Hit(now, c, addr, end, "sysram") && !Swallows(addr, end, now[c])
    ensures var t := Trimmed(now, c, addr, end);
      && OwnersBelow(t) && SameLinks(before, t) && (c < |before| ==> !Swallows(addr, end, before[c]))
      && (forall i :: c < i < |before| ==> t[i].start == before[i].start && t[i].end == before[i].end)
      && (forall i :: |before| <= i < |t| ==> t[i].start == end + 1 && t[i].end > end)
  {
    TrimmedLinks(now, c, addr, end);
  }

  lemma TrimOneSplit(before: seq<AsEntry>, now: seq<AsEntry>, c: nat, addr: int, end: int)
    requires OwnersBelow(before) && OwnersBelow(now) && addr <= end + 1
    requires TrimInv(before, now, c, addr, end)
    requires Hit(now, c, addr, end, "sysram") && !Swallows(addr, end, now[c])
    ensures SplitOff(before, Trimmed(now, c, addr, end), end)
  {
    var t := Trimmed(now, c, addr, end);
    TrimOneRanges(before, now, c, addr, end);
    TrimmedLinks(now, c, addr, end);
    if c < |before| {
      MatchSameLinks(before, now, c, "sysram");
    }
    forall i | |before| <= i < |t|
      ensures exists k :: 0 <= k < |before| && MatchName(before, k, "sysram") && UpperPart(t[i], before[k], end)
    {
      if i < |now| {
        var k :| 0 <= k < |before| && MatchName(before, k, "sysram") && UpperPart(now[i], before[k], end);
        assert UpperPart(t[i], before[k], end);
      } else {
        assert UpperPart(t[i], before[c], end);
      }
    }
  }

  /** No entry up to c holds an address of the range any more. */
  lemma TrimOneClear(before: seq<AsEntry>, now: seq<AsEntry>, c: nat, addr: int, end: int, i: nat)
    requires OwnersBelow(before) && OwnersBelow(now) && addr <= end + 1 && i <= c
    requires TrimInv(before, now, c, addr, end)
    requires Hit(now, c, addr, end, "sysram") && !Swallows(addr, end, now[c])
    ensures var t := Trimmed(now, c, addr, end);
      OwnersBelow(t) && (MatchName(t, i, "sysram") ==> !Touches(addr, end, t[i]))
  {
    var t := Trimmed(now, c, addr, end);
    TrimmedLinks(now, c, addr, end);
    MatchSameLinks(now, t, i, "sysram");
    if i == c {
      forall x
        ensures !(addr <= x <= end) || !t[c].Has(x)
      {
        TrimmedCovers(now, c, addr, end, x);
      }
    } else {
      assert forall x :: t[i].Has(x) <==> now[i].Has(x);
    }
  }

  lemma TrimOne(before: seq<AsEntry>, now: seq<AsEntry>, c: nat, addr: int, end: int)
    requires OwnersBelow(before) && OwnersBelow(now) && addr <= end + 1
    requires TrimInv(before, now, c, addr, end)
    requires Hit(now, c, addr, end, "sysram") && !Swallows(addr, end, now[c])
    ensures OwnersBelow(Trimmed(now, c, addr, end))
    ensures TrimInv(before, Trimmed(now, c, addr, end), c + 1, addr, end)
  {
    var t := Trimmed(now, c, addr, end);
    TrimOneRanges(before, now, c, addr, end);
    TrimOneSplit(before, now, c, addr, end);
    forall i | 0 <= i < c + 1 && MatchName(t, i, "sysram")
      ensures !Touches(addr, end, t[i])
    {
      TrimOneClear(before, now, c, addr, end, i);
    }
    forall x
      ensures NameCovers(t, "sysram", x) ==> NameCovers(before, "sysram", x)
      ensures NameCovers(before, "sysram", x) && !(addr <= x <= end) ==> NameCovers(t, "sysram", x)
    {
      TrimmedCovers(now, c, addr, end, x);
    }
  }

  /** An entry that would vanish is one of those the loop started with. */
  lemma TrimCrash(before: seq<AsEntry>, now: seq<AsEntry>, c: nat, addr: int, end: int)
    requires OwnersBelow(before) && OwnersBelow(now) && addr <= end + 1
    requires TrimInv(before, now, c, addr, end) && Hit(now, c, addr, end, "sysram") && Swallows(addr, end, now[c])
    ensures AnySwallowed(before, addr, end)
  {
    MatchSameLinks(before, now, c, "sysram");
    assert Swallows(addr, end, before[c]);
  }

  lemma TrimDone(before: seq<AsEntry>, now: seq<AsEntry>, addr: int, end: int)
    requires OwnersBelow(before) && OwnersBelow(now) && TrimInv(before, now, |now|, addr, end) && |before| <= |now|
    ensures !AnySwallowed(before, addr, end)
    ensures forall x :: NameCovers(now, "sysram", x) <==> NameCovers(before, "sysram", x) && !(addr <= x <= end)
    ensures SameLinks(before, now) && SplitOff(before, now, end)
  {
  }

  /** One turn of the loop: entry c gives up [addr, end]. */
  method TrimEntry(asinfo: AsTable, c: nat, addr: int, end: int) returns (ok: bool)
    requires asinfo.Valid() && addr <= end + 1
    requires c < |asinfo.entries| && Overlaps(addr, end, asinfo.entries[c])
    modifies asinfo
    ensures asinfo.Valid()
    ensures ok ==> !Swallows(addr, end, old(asinfo.entries)[c]) && asinfo.entries == Trimmed(old(asinfo.entries), c, addr, end)
    ensures !ok ==> (Swallows(addr, end, old(asinfo.entries)[c]) && asinfo.entries == old(asinfo.entries)) || |asinfo.entries| >= asinfo.capacity
  {
    var as_ := asinfo.entries[c];
    var s := as_.start;
    var e := as_.end;
    if end > e { e := end; }
    if addr < s { s := addr; }
    ok := true;
    if addr == s && end == e {
      ok := false;
    } else if addr == s {
      asinfo.entries := asinfo.entries[c := as_.(start := end + 1)];
    } else {
      asinfo.entries := asinfo.entries[c := as_.(end := addr - 1)];
      if e != end {
        var added;
        ok, added := asinfo.AsAdd(end + 1, e, Attr(false, false, false, true, 0), "sysram", as_.owner);
      }
    }
  }

  /** alloc_ram's sysram loop over the inclusive range [addr, end]. It crashes exactly when a
  matching entry would vanish, or when a split finds the table full. */
  method TrimSysram(asinfo: AsTable, addr: int, end: int) returns (ok: bool)
    requires asinfo.Valid() && addr <= end + 1
    modifies asinfo
    ensures asinfo.Valid()
    ensures ok ==> SameLinks(old(asinfo.entries), asinfo.entries) && SplitOff(old(asinfo.entries), asinfo.entries, end)
    ensures ok ==> forall x :: NameCovers(asinfo.entries, "sysram", x) <==>
      NameCovers(old(asinfo.entries), "sysram", x) && !(addr <= x <= end)
    ensures ok ==> !AnySwallowed(old(asinfo.entries), addr, end)
    ensures !ok ==> AnySwallowed(old(asinfo.entries), addr, end) || |asinfo.entries| >= asinfo.capacity
    ensures !ok ==> AnySwallowed(asinfo.entries, addr, end) || |asinfo.entries| >= asinfo.capacity
  {
    ghost var before := asinfo.entries;
    var off := asinfo.FindContaining(None, addr, end, "sysram");
    ghost var from := 0;
    while off.Some?
      invariant asinfo.Valid() && 0 <= from <= |asinfo.entries|
      invariant TrimInv(before, asinfo.entries, from, addr, end)
      invariant off.Some? ==> from <= off.value && Hit(asinfo.entries, off.value, addr, end, "sysram")
      invariant forall k :: from <= k < (if off.Some? then off.value else |asinfo.entries|) ==> !Hit(asinfo.entries, k, addr, end, "sysram")
      decreases if off.Some? && off.value < |before| then |before| - off.value else 0,
                if off.Some? then |asinfo.entries| - off.value else 0
    {
      var c := off.value;
      ghost var now := asinfo.entries;
      TrimSkip(before, now, from, c, addr, end);
      ok := TrimEntry(asinfo, c, addr, end);
      if !ok {
        if Swallows(addr, end, now[c]) {
          TrimCrash(before, now, c, addr, end);
        }
        return;
      }
      TrimOne(before, now, c, addr, end);
      from := c + 1;
      off := asinfo.FindContaining(off, addr, end, "sysram");
    }
    TrimSkip(before, asinfo.entries, from, |asinfo.entries|, addr, end);
    TrimDone(before, asinfo.entries, addr, end);
    ok := true;
  }
}
