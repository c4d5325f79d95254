/** The firmware's memory map: sorted in place once, then walked (lib/efi_entry_point.c:107-168).
Descriptors as in section 7.2 of the UEFI specification, GetMemoryMap. */
module EfiMap {
  import opened Align
  import opened Options

  datatype Desc = Desc(typ: nat, start: nat, pages: nat)

  ghost predicate Ascending(s: seq<Desc>) {
    forall i, j :: 0 <= i < j < |s| ==> s[i].start <= s[j].start
  }

  /** Node p has the children 2p + 1 and 2p + 2. */
  function Parent(k: nat): (p: nat)
    requires k > 0
    ensures k == 2 * p + 1 || k == 2 * p + 2
  {
    (k - 1) / 2
  }

  ghost predicate HeapAt(s: seq<Desc>, k: nat)
    requires 0 < k < |s|
  {
    s[Parent(k)].start >= s[k].start
  }

  /** The first n descriptors form a heap: no child starts above its parent. */
  ghost predicate Heap(s: seq<Desc>, n: nat)
    requires n <= |s|
  {
    forall k :: 0 < k < n ==> HeapAt(s, k)
  }

  /** A heap but for the link above node child; its children already fit under its parent. */
  ghost predicate HeapBut(s: seq<Desc>, n: nat, child: nat)
    requires child < n <= |s|
  {
    && (forall k :: 0 < k < n && k != child ==> HeapAt(s, k))
    && (forall k :: 0 < k < n && Parent(k) == child && child > 0 ==> s[Parent(child)].start >= s[k].start)
  }

  /** The root of a heap starts highest. */
  lemma {:induction false} RootIsLast(s: seq<Desc>, n: nat, k: nat)
    requires n <= |s| && Heap(s, n) && k < n
    ensures s[0].start >= s[k].start
  {
    if k > 0 {
      assert HeapAt(s, k);
      RootIsLast(s, n, Parent(k));
    }
  }

  function Swapped(s: seq<Desc>, i: nat, j: nat): (r: seq<Desc>)
    requires i < |s| && j < |s|
    ensures |r| == |s|
  {
    s[i := s[j]][j := s[i]]
  }

  lemma SwapPermutes(s: seq<Desc>, i: nat, j: nat)
    requires i < |s| && j < |s|
    ensures multiset(Swapped(s, i, j)) == multiset(s)
  {
  }

  lemma SwapInFront(s: seq<Desc>, i: nat, j: nat, n: nat)
    requires i < n && j < n && n <= |s|
    ensures Swapped(s, i, j)[..n] == Swapped(s[..n], i, j) && Swapped(s, i, j)[n..] == s[n..]
    ensures multiset(Swapped(s, i, j)[..n]) == multiset(s[..n])
  {
    SwapPermutes(s[..n], i, j);
    assert Swapped(s, i, j)[..n] == Swapped(s[..n], i, j);
  }

  /** t is s with its first n descriptors in another order. */
  ghost predicate Rearranged(s: seq<Desc>, t: seq<Desc>, n: nat) {
    n <= |s| == |t| && multiset(t[..n]) == multiset(s[..n]) && t[n..] == s[n..]
  }

  lemma FrontPermuted(s: seq<Desc>, t: seq<Desc>, u: seq<Desc>, n: nat)
    requires Rearranged(s, t, n) && Rearranged(t, u, n)
    ensures Rearranged(s, u, n)
  {
  }

  /** Swapping a node with its smaller parent moves the open link up. */
  lemma SiftUp(s: seq<Desc>, n: nat, child: nat)
    requires 0 < child < n <= |s| && HeapBut(s, n, child) && s[Parent(child)].start < s[child].start
    ensures HeapBut(Swapped(s, Parent(child), child), n, Parent(child))
  {
    var p := Parent(child);
    var t := Swapped(s, p, child);
    forall k | 0 < k < n && k != p
      ensures HeapAt(t, k)
    {
      assert k != child ==> HeapAt(s, k);
    }
    forall k | 0 < k < n && Parent(k) == p && p > 0
      ensures t[Parent(p)].start >= t[k].start
    {
      assert HeapAt(s, p);
      assert k != child ==> HeapAt(s, k);
    }
  }

  /** From index n on the descriptors ascend, and none before n starts above them. */
  ghost predicate SortedFrom(s: seq<Desc>, n: nat) {
    forall i, j :: 0 <= i < j < |s| && n <= j ==> s[i].start <= s[j].start
  }

  /** The root of the heap belongs right before the sorted tail. */
  lemma TakeRoot(s: seq<Desc>, end: nat)
    requires 0 < end < |s| && Heap(s, end + 1) && SortedFrom(s, end + 1)
    ensures SortedFrom(Swapped(s, end, 0), end)
  {
    forall i | 0 <= i <= end
      ensures s[i].start <= s[0].start
    {
      RootIsLast(s, end + 1, i);
    }
  }

  /** Rearranging the front keeps the tail sorted and above it. */
  lemma KeepTail(s: seq<Desc>, t: seq<Desc>, n: nat)
    requires |s| == |t| && n <= |s| && SortedFrom(s, n)
    requires multiset(t[..n]) == multiset(s[..n]) && t[n..] == s[n..]
    ensures SortedFrom(t, n) && multiset(t) == multiset(s)
  {
    assert s == s[..n] + s[n..] && t == t[..n] + t[n..];
    forall j | n <= j < |t|
      ensures t[j] == s[j]
    {
      assert t[j] == t[n..][j - n] && s[j] == s[n..][j - n];
    }
    forall i, j | 0 <= i < n <= j < |t|
      ensures t[i].start <= t[j].start
    {
      assert t[i] == t[..n][i];
      assert t[i] in multiset(s[..n]);
      var k :| 0 <= k < n && s[..n][k] == t[i];
      assert s[k] == t[i];
    }
  }

  /** When descriptors fill the map, the walk stops right behind the last one. */
  lemma WalkStops(mapSize: nat, descSize: nat, i: nat)
    requires descSize > 0 && mapSize % descSize == 0
    ensures i * descSize + descSize < mapSize <==> i + 1 < mapSize / descSize
  {
    var n := mapSize / descSize;
    assert mapSize == n * descSize;
    assert i * descSize + descSize == (i + 1) * descSize;
    if i + 1 < n {
      MulMono(descSize, i + 2, n);
    } else {
      MulMono(descSize, n, i + 1);
    }
  }

  class MemoryMap {
    const descs: array<Desc>

    /** efi_map_size and efi_map_desc_size */
    const mapSize: nat

    const descSize: nat

    var sorted: bool

    ghost predicate Valid()
      reads this, descs
    {
      && descSize > 0 && descs.Length == mapSize / descSize && descs.Length > 0
      && (sorted ==> Ascending(descs[..]))
    }

    constructor (descs: array<Desc>, mapSize: nat, descSize: nat)
      requires descSize > 0 && descs.Length == mapSize / descSize && descs.Length > 0
      ensures Valid() && !sorted && this.descs == descs && this.mapSize == mapSize && this.descSize == descSize
    {
      this.descs, this.mapSize, this.descSize := descs, mapSize, descSize;
      sorted := false;
    }

    method Swap(i: nat, j: nat)
      requires i < descs.Length && j < descs.Length
      modifies descs
      ensures descs[..] == Swapped(old(descs[..]), i, j)
    {
      var desc := descs[i];
      descs[i] := descs[j];
      descs[j] := desc;
    }

    /** One turn of the inner loop of heapify: compare with the parent and swap, or stop. */
    method Sift(child0: nat, n: nat) returns (done: bool, child: nat)
      requires 0 < child0 < n <= descs.Length && HeapBut(descs[..], n, child0)
      modifies descs
      ensures child <= child0 && (!done ==> child < child0)
      ensures Rearranged(old(descs[..]), descs[..], n)
      ensures if done then Heap(descs[..], n) else HeapBut(descs[..], n, child)
    {
      child := child0;
      var parent := (child - 1) / 2;
      done := descs[parent].start >= descs[child].start;
      if !done {
        SiftUp(descs[..], n, child);
        SwapInFront(descs[..], parent, child, n);
        Swap(parent, child);
        child := parent;
      } else {
        assert HeapAt(descs[..], child);
      }
    }

    /** The inner loop of heapify: node end joins the heap of the nodes before it. */
    method Join(end: nat)
      requires 0 < end < descs.Length && Heap(descs[..], end)
      modifies descs
      ensures Heap(descs[..], end + 1)
      ensures multiset(descs[..end + 1]) == multiset(old(descs[..end + 1])) && descs[end + 1..] == old(descs[end + 1..])
    {
      var child: nat := end;
      ghost var s0 := descs[..];
      while child > 0
        invariant child <= end && HeapBut(descs[..], end + 1, child)
        decreases child
        invariant Rearranged(s0, descs[..], end + 1)
      {
        var done;
        ghost var s1 := descs[..];
        done, child := Sift(child, end + 1);
        FrontPermuted(s0, s1, descs[..], end + 1);
        if done {
          break;
        }
      }
      assert descs[..][..end + 1] == descs[..end + 1] && descs[..][end + 1..] == descs[end + 1..];
    }

    /** Join, seen from the first count descriptors. */
    method JoinInFront(end: nat, count: nat)
      requires 0 < end < count <= descs.Length && Heap(descs[..], end)
      modifies descs
      ensures Heap(descs[..], end + 1)
      ensures multiset(descs[..count]) == multiset(old(descs[..count])) && descs[count..] == old(descs[count..])
    {
      ghost var s0 := descs[..];
      Join(end);
      ghost var s1 := descs[..];
      assert s1[end + 1..] == s0[end + 1..];
      assert s0[..count] == s0[..end + 1] + s0[end + 1..][..count - end - 1];
      assert s1[..count] == s1[..end + 1] + s1[end + 1..][..count - end - 1];
      assert s0[count..] == s0[end + 1..][count - end - 1..];
      assert s1[count..] == s1[end + 1..][count - end - 1..];
    }

    /** heapify: the first count descriptors become a heap, the others stay. */
    method Heapify(count: nat)
      requires count <= descs.Length
      modifies descs
      ensures Heap(descs[..], count)
      ensures multiset(descs[..count]) == multiset(old(descs[..count])) && descs[count..] == old(descs[count..])
    {
      ghost var s0 := descs[..];
      var end := 1;
      while end < count
        invariant 1 <= end && (end <= count || count == 0) && Heap(descs[..], if count == 0 then 0 else end)
        invariant multiset(descs[..count]) == multiset(s0[..count]) && descs[count..] == s0[count..]
      {
        JoinInFront(end, count);
        end := end + 1;
      }
    }

    /** One turn of the loop: the highest of the first end + 1 descriptors goes to index end. */
    method SortStep(end: nat)
      requires 0 < end < descs.Length && Heap(descs[..], end + 1) && SortedFrom(descs[..], end + 1)
      modifies descs
      ensures multiset(descs[..]) == multiset(old(descs[..]))
      ensures Heap(descs[..], end) && SortedFrom(descs[..], end)
    {
      ghost var s0 := descs[..];
      Swap(end, 0);
      ghost var s1 := descs[..];
      TakeRoot(s0, end);
      Heapify(end);
      ghost var s2 := descs[..];
      KeepTail(s1, s2, end);
      SwapPermutes(s0, end, 0);
    }

    /** efi_sort_map. */
    method SortMap()
      requires descs.Length > 0
      modifies descs
      ensures Ascending(descs[..]) && multiset(descs[..]) == multiset(old(descs[..]))
    {
      var n := descs.Length;
      ghost var s0 := descs[..];
      Heapify(n);
      assert descs[..n] == descs[..] && s0[..n] == s0;
      var end := n - 1;
      while end > 0
        invariant 0 <= end < n && multiset(descs[..]) == multiset(s0)
        invariant Heap(descs[..], end + 1) && SortedFrom(descs[..], end + 1)
      {
        SortStep(end);
        end := end - 1;
      }
    }

    /** efi_walk_map: descriptors are named by index; None is NULL. */
    method WalkMap(previous: Option<nat>) returns (next: Option<nat>)
      requires Valid() && (previous.Some? ==> previous.value < descs.Length)
      modifies descs, this`sorted
      ensures Valid() && multiset(descs[..]) == multiset(old(descs[..]))
      ensures previous.Some? || old(sorted) ==> descs[..] == old(descs[..])
      ensures sorted == (old(sorted) || previous.None?)
      ensures previous.None? ==> next == Some(0)
      ensures previous.Some? ==> next == if (previous.value + 1) * descSize < mapSize then Some(previous.value + 1) else None
      ensures previous.Some? && mapSize % descSize == 0 ==>
        next == if previous.value + 1 < descs.Length then Some(previous.value + 1) else None
    {
      if previous.None? {
        if !sorted {
          SortMap();
          sorted := true;
        }
        return Some(0);
      }
      var offset := previous.value * descSize + descSize;
      if mapSize % descSize == 0 {
        WalkStops(mapSize, descSize, previous.value);
      }
      next := if offset >= mapSize then None else Some(previous.value + 1);
    }
  }

  /** Only then: a map with a remainder makes the walk return one descriptor too many. */
  lemma WalkOverrunsOnRemainder(mapSize: nat, descSize: nat)
    requires descSize > 0 && mapSize >= descSize
    ensures (forall i: nat :: i < mapSize / descSize ==> (i * descSize + descSize < mapSize <==> i + 1 < mapSize / descSize))
      <==> mapSize % descSize == 0
  {
    var n := mapSize / descSize;
    assert mapSize == n * descSize + mapSize % descSize;
    if mapSize % descSize == 0 {
      forall i: nat | i < n
        ensures i * descSize + descSize < mapSize <==> i + 1 < n
      {
        WalkStops(mapSize, descSize, i);
      }
    } else {
      var last: nat := n - 1;
      assert last * descSize + descSize == n * descSize;
    }
  }
}
