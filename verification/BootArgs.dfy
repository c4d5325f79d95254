/** Editing the packed argument list that the boot loader hands to a bootstrap process
(lib/bootstrap_cmdline.c:28-93): the argument strings, then the environment strings, then bytes
that belong to neither. */
module BootArgs {
  import opened Align
  import opened Flat
  import opened Memory
  import opened Options
  import opened Strings

  /** The bytes stand in memory at address base. */
  ghost predicate Holds(m: seq<byte>, base: nat, bytes: seq<byte>) {
    base + |bytes| <= |m| && m[base..base + |bytes|] == bytes
  }

  /** A part of the bytes at base. */
  lemma PartInMemory(m: seq<byte>, base: nat, whole: seq<byte>, a: seq<byte>, b: seq<byte>, c: seq<byte>)
    requires Holds(m, base, whole) && whole == a + b + c
    ensures Holds(m, base + |a|, b)
    ensures c != [] ==> base + |a| + |b| < |m| && m[base + |a| + |b|] == c[0]
  {
    forall i | 0 <= i < |b|
      ensures m[base + |a| + i] == b[i]
    {
      assert m[base..base + |whole|][|a| + i] == whole[|a| + i];
    }
    if c != [] {
      assert m[base..base + |whole|][|a| + |b|] == whole[|a| + |b|];
    }
  }

  lemma StringBytes(m: seq<byte>, base: nat, whole: seq<byte>, front: seq<byte>, s: Name, back: seq<byte>, rest: seq<byte>)
    requires Holds(m, base, whole) && whole == front + (s + [0]) + back + rest
    ensures StringAt(m, base + |front|, s)
  {
    var tail := [0] + back + rest;
    assert whole == front + s + tail;
    PartInMemory(m, base, whole, front, s, tail);
  }

  /** String k of a packed list that stands at base. */
  lemma StringInMemory(m: seq<byte>, base: nat, strs: seq<Name>, rest: seq<byte>, k: nat)
    requires Holds(m, base, Packed(strs) + rest) && k < |strs|
    ensures StringAt(m, base + Offset(strs, k), strs[k])
    ensures Offset(strs, k + 1) == Offset(strs, k) + |strs[k]| + 1 <= |Packed(strs)|
  {
    PackedAt(strs, k);
    StringBytes(m, base, Packed(strs) + rest, Packed(strs[..k]), strs[k], Packed(strs[k + 1..]), rest);
  }

  /** How many strings an edit takes away. */
  function Gone(was: Option<Name>): nat {
    if was.Some? then 1 else 0
  }

  /** Position k is where an edit works: the first string equal to was, or behind all for NULL. */
  ghost predicate Position(strs: seq<Name>, was: Option<Name>, k: nat) {
    && k + Gone(was) <= |strs|
    && (was.None? ==> k == |strs|)
    && (was.Some? ==> strs[k] == was.value && forall i :: 0 <= i < k ==> strs[i] != was.value)
  }

  /** None of the strings from first up to end is the one looked for. */
  ghost predicate NotAmong(all: seq<Name>, was: Option<Name>, first: nat, end: nat) {
    first <= end <= |all| && (was.Some? ==> forall i :: first <= i < end ==> all[i] != was.value)
  }

  lemma NotAmongMore(all: seq<Name>, was: Option<Name>, first: nat, end: nat)
    requires NotAmong(all, was, first, end) && end < |all| && was != Some(all[end])
    ensures NotAmong(all, was, first, end + 1)
  {
  }

  predicate Applies(strs: seq<Name>, was: Option<Name>) {
    was.None? || was.value in strs
  }

  lemma PositionInside(all: seq<Name>, first: nat, strs: seq<Name>, was: Option<Name>, k: nat)
    requires first + |strs| <= |all| && strs == all[first..first + |strs|] && k <= |strs| && NotAmong(all, was, first, first + k)
    ensures k == |strs| ==> (Applies(strs, was) <==> was.None?)
    ensures k == |strs| && was.None? ==> Position(strs, was, k)
    ensures k < |strs| && was == Some(all[first + k]) ==> Position(strs, was, k) && Applies(strs, was)
  {
    assert forall i :: 0 <= i < |strs| ==> strs[i] == all[first + i];
  }

  function Listed(s: Option<Name>): seq<Name> {
    if s.Some? then [s.value] else []
  }

  /** Replace, delete or append at position k. */
  function Spliced(strs: seq<Name>, k: nat, was: Option<Name>, next: Option<Name>): (r: seq<Name>)
    requires k + Gone(was) <= |strs|
    ensures |r| == |strs| - Gone(was) + Gone(next)
  {
    strs[..k] + Listed(next) + strs[k + Gone(was)..]
  }

  lemma PositionUnique(strs: seq<Name>, was: Option<Name>, k: nat, l: nat)
    requires Position(strs, was, k) && Position(strs, was, l)
    ensures k == l
  {
  }

  /** Adding a string and deleting it again changes nothing. */
  lemma AddThenDelete(strs: seq<Name>, name: Name, k: nat, l: nat)
    requires name !in strs && Position(strs, None, k)
    requires Position(Spliced(strs, k, None, Some(name)), Some(name), l)
    ensures Spliced(Spliced(strs, k, None, Some(name)), l, Some(name), None) == strs
  {
    var more := Spliced(strs, k, None, Some(name));
    assert more == strs + [name];
    PositionUnique(more, Some(name), |strs|, l);
  }

  /** Replacing a string and replacing it back changes nothing. */
  lemma ReplaceThenBack(strs: seq<Name>, a: Name, b: Name, k: nat, l: nat)
    requires b !in strs && Position(strs, Some(a), k)
    requires Position(Spliced(strs, k, Some(a), Some(b)), Some(b), l)
    ensures Spliced(Spliced(strs, k, Some(a), Some(b)), l, Some(b), Some(a)) == strs
  {
    var other := Spliced(strs, k, Some(a), Some(b));
    assert other == strs[k := b];
    PositionUnique(other, Some(b), k, l);
  }

  lemma PackedParts(a: seq<Name>, b: seq<Name>, c: seq<Name>)
    ensures Packed(a + b + c) == Packed(a) + Packed(b) + Packed(c)
  {
    PackedConcat(a + b, c);
    PackedConcat(a, b);
  }

  function Terminate(s: Option<Name>): seq<byte> {
    if s.Some? then s.value + [0] else []
  }

  lemma PackedListed(s: Option<Name>)
    ensures Packed(Listed(s)) == Terminate(s)
  {
    if s.Some? {
      PackedOne(s.value);
    }
  }

  /** Two byte strings, before and after an edit, that share front and back. */
  datatype Edit = Edit(front: seq<byte>, back: seq<byte>, c0: seq<byte>, c1: seq<byte>) {
    predicate Replaces(was: Option<Name>, next: Option<Name>) {
      c0 == front + Terminate(was) + back && c1 == front + Terminate(next) + back
    }

    lemma Lengths(was: Option<Name>, next: Option<Name>)
      requires Replaces(was, next)
      ensures |c0| == |front| + |Terminate(was)| + |back| && |c1| == |front| + |Terminate(next)| + |back|
    {
    }
  }

  /** The packed bytes of a splice. */
  lemma SplicedBytes(strs: seq<Name>, k: nat, was: Option<Name>, next: Option<Name>)
    requires k + Gone(was) <= |strs|
    ensures Packed(Spliced(strs, k, was, next)) == Packed(strs[..k]) + Terminate(next) + Packed(strs[k + Gone(was)..])
  {
    PackedParts(strs[..k], Listed(next), strs[k + Gone(was)..]);
    PackedListed(next);
  }

  lemma SpliceNothing(strs: seq<Name>, k: nat, was: Option<Name>)
    requires k + Gone(was) <= |strs| && (was.Some? ==> strs[k] == was.value)
    ensures Spliced(strs, k, was, was) == strs
  {
  }

  lemma Reassociate(a: seq<byte>, b: seq<byte>, c: seq<byte>, d: seq<byte>)
    ensures a + b + c + d == a + b + (c + d)
  {
  }

  /** The bytes before and after an edit share all but the string at its position. */
  lemma EditParts(strs: seq<Name>, k: nat, was: Option<Name>, next: Option<Name>, rest: seq<byte>) returns (e: Edit)
    requires k + Gone(was) <= |strs| && (was.Some? ==> strs[k] == was.value)
    ensures |e.front| == Offset(strs, k) && e.Replaces(was, next)
    ensures e.c0 == Packed(strs) + rest && e.c1 == Packed(Spliced(strs, k, was, next)) + rest
  {
    var front, tail := Packed(strs[..k]), Packed(strs[k + Gone(was)..]);
    SpliceNothing(strs, k, was);
    SplicedBytes(strs, k, was, was);
    SplicedBytes(strs, k, was, next);
    Reassociate(front, Terminate(was), tail, rest);
    Reassociate(front, Terminate(next), tail, rest);
    e := Edit(front, tail + rest, front + Terminate(was) + (tail + rest), front + Terminate(next) + (tail + rest));
  }

  lemma Whole(before: seq<Name>, strs: seq<Name>, after: seq<Name>) returns (all: seq<Name>)
    ensures all == before + strs + after && |before| + |strs| <= |all| && strs == all[|before|..|before| + |strs|]
  {
    all := before + strs + after;
  }

  lemma FrontOfMiddle<T>(a: seq<T>, b: seq<T>, c: seq<T>, k: nat)
    requires k <= |b|
    ensures (a + b + c)[..|a| + k] == a + b[..k]
  {
  }

  lemma BackOfMiddle<T>(a: seq<T>, b: seq<T>, c: seq<T>, k: nat)
    requires k <= |b|
    ensures (a + b + c)[|a| + k..] == b[k..] + c
  {
  }

  lemma AtOfMiddle(a: seq<Name>, b: seq<Name>, c: seq<Name>, k: nat, was: Option<Name>)
    requires Position(b, was, k)
    ensures |a| + k + Gone(was) <= |a + b + c| && (was.Some? ==> (a + b + c)[|a| + k] == was.value)
  {
  }

  /** A splice in the middle part of a list. */
  lemma SpliceInside(before: seq<Name>, strs: seq<Name>, after: seq<Name>, k: nat, was: Option<Name>, next: Option<Name>)
    requires k + Gone(was) <= |strs|
    ensures Spliced(before + strs + after, |before| + k, was, next) == before + Spliced(strs, k, was, next) + after
  {
    var all := before + strs + after;
    FrontOfMiddle(before, strs, after, k);
    BackOfMiddle(before, strs, after, k + Gone(was));
    var front, back := strs[..k], strs[k + Gone(was)..];
    assert before + front + Listed(next) + (back + after) == before + (front + Listed(next) + back) + after;
  }

  /** The bytes before and after an edit in the middle part of a list. */
  lemma EditInside(before: seq<Name>, strs: seq<Name>, after: seq<Name>, k: nat, was: Option<Name>, next: Option<Name>, rest: seq<byte>)
      returns (e: Edit)
    requires Position(strs, was, k)
    ensures |e.front| == Offset(before + strs + after, |before| + k) && e.Replaces(was, next)
    ensures e.c0 == Packed(before + strs + after) + rest
    ensures e.c1 == Packed(before + Spliced(strs, k, was, next) + after) + rest
  {
    AtOfMiddle(before, strs, after, k, was);
    e := EditParts(before + strs + after, |before| + k, was, next, rest);
    SpliceInside(before, strs, after, k, was, next);
  }

  lemma NothingBefore(a: seq<Name>, b: seq<Name>)
    ensures Packed([] + a + b) == Packed(a + b)
  {
    assert [] + a + b == a + b;
  }

  lemma NothingBehind(a: seq<Name>, b: seq<Name>)
    ensures Packed(a + b + []) == Packed(a + b)
  {
    assert a + b + [] == a + b;
  }

  /** Two bytes hold the low sixteen bits. */
  lemma Bytes16(n: nat)
    ensures n % 256 + n / 256 % 256 * 256 == n % 0x1_0000
  {
    var q, r := n / 256, n % 256;
    var hi, lo := q / 256, q % 256;
    assert n == hi * 0x1_0000 + (lo * 256 + r) && lo * 256 + r < 0x1_0000;
    DivModUnique(n, 0x1_0000, hi, lo * 256 + r);
  }

  /** An int8_t after one step up or down. */
  function Int8(x: int): (r: int)
    requires -129 <= x <= 128
    ensures -128 <= r < 128 && (r - x) % 256 == 0
  {
    if x == 128 then -128 else if x == -129 then 127 else x
  }

  /** What a move and a store leave from p on. */
  lemma SpliceBytes(m0: seq<byte>, m1: seq<byte>, m2: seq<byte>, p: nat, sub: nat, add: seq<byte>, end: nat)
    requires p + sub <= end && |add| <= p && end + |add| <= |m0|
    requires Moved(m0, m1, p, p - (|add| - sub), end - (p - (|add| - sub)))
    requires |m2| == |m1| && forall x :: 0 <= x < |m1| ==> m2[x] == if p <= x < p + |add| then add[x - p] else m1[x]
    ensures m2[p..end - sub + |add|] == add + m0[p + sub..end]
  {
    var out := m2[p..end - sub + |add|];
    assert |out| == |add + m0[p + sub..end]|;
    forall i | 0 <= i < |out|
      ensures out[i] == (add + m0[p + sub..end])[i]
    {
      assert out[i] == m2[p + i];
      if i >= |add| {
        var x := p + i;
        assert m1[x] == m0[p - (|add| - sub) + (x - p)];
      }
    }
  }

  function NewCount(count: int, was: Option<Name>, next: Option<Name>): int
    requires -128 <= count <= 127
  {
    if next.None? then Int8(count - 1) else if was.None? then Int8(count + 1) else count
  }

  /** A part of the bytes makes way for others. */
  ghost predicate Rewritten(m0: seq<byte>, m1: seq<byte>, p: nat, gone: nat, add: seq<byte>, back: nat) {
    && |m1| == |m0| && p + |add| + back <= |m1| && p + gone + back <= |m0|
    && (forall x :: 0 <= x < p ==> m1[x] == m0[x])
    && m1[p..p + |add| + back] == add + m0[p + gone..p + gone + back]
  }

  lemma SliceOfSlice<T>(m: seq<T>, a: nat, b: nat, i: nat, j: nat)
    requires a <= b <= |m| && i <= j <= b - a
    ensures m[a..b][i..j] == m[a + i..a + j]
  {
    forall k | 0 <= k < j - i
      ensures m[a..b][i..j][k] == m[a + i..a + j][k]
    {
      assert m[a..b][i + k] == m[a + i + k];
    }
  }

  lemma RewrittenHolds(m0: seq<byte>, m1: seq<byte>, base: nat, front: seq<byte>, gone: seq<byte>, add: seq<byte>, back: seq<byte>)
    requires Holds(m0, base, front + gone + back) && Rewritten(m0, m1, base + |front|, |gone|, add, |back|)
    ensures Holds(m1, base, front + add + back)
  {
    var p := base + |front|;
    var whole, end := front + gone + back, p + |gone| + |back|;
    SliceOfSlice(m0, base, end, 0, |front|);
    SliceOfSlice(m0, base, end, |front| + |gone|, |whole|);
    assert whole[0..|front|] == front && whole[|front| + |gone|..|whole|] == back;
    assert m1[base..p] == m0[base..p];
    assert m1[base..p + |add| + |back|] == m1[base..p] + m1[p..p + |add| + |back|];
    assert front + add + back == front + (add + back);
  }

  lemma EditHolds(m0: seq<byte>, m1: seq<byte>, base: nat, e: Edit, was: Option<Name>, next: Option<Name>)
    requires e.Replaces(was, next) && Holds(m0, base, e.c0)
    requires Rewritten(m0, m1, base + |e.front|, |Terminate(was)|, Terminate(next), |e.back|)
    ensures Holds(m1, base, e.c1)
  {
    RewrittenHolds(m0, m1, base, e.front, Terminate(was), Terminate(next), e.back);
  }

  /** The sixteen-bit size and the eight-bit count can hold the result. */
  predicate Fits(size: nat, count: nat, was: Option<Name>, next: Option<Name>) {
    && size < 0x1_0000 && (was.Some? || next.Some?)
    && (was.None? ==> count < 127)
  }

  /** When the fields are right after an edit of a list of n strings beside a list of m. */
  lemma FieldsFit(lo: nat, hi: nat, size: nat, count: int, n: nat, n': nat, was: Option<Name>, next: Option<Name>)
    requires n <= 127 && count == NewCount(n, was, next) && n' == n - Gone(was) + Gone(next)
    requires lo < 256 && hi < 256 && (size < 0x1_0000 ==> lo + hi * 256 == size)
    ensures Fits(size, n, was, next) <==> lo + hi * 256 == size && count == n' <= 127
  {
  }

  class Bootargs {
    const mem: array<byte>

    /** Where bap->args starts, and offsetof(struct bootargs_entry, args). */
    const base: nat

    const header: nat

    var sizeLo: nat
    var sizeHi: nat
    var argc: int
    var envc: int
    ghost var args: seq<Name>
    ghost var envs: seq<Name>
    ghost var rest: seq<byte>
    ghost var content: seq<byte>

    /** The list stands in memory. */
    ghost predicate Listing()
      reads this, mem
    {
      content == Packed(args + envs) + rest && Holds(mem[..], base, content)
    }

    /** The fields tell the truth about the list. */
    ghost predicate Truthful()
      reads this
    {
      && sizeLo < 256 && sizeHi < 256 && sizeLo + sizeHi * 256 == header + |content|
      && argc == |args| <= 127 && envc == |envs| <= 127
    }

    ghost predicate Valid()
      reads this, mem
    {
      Listing() && Truthful()
    }

    /** strlen and strcmp on string j. */
    method Compare(was: Option<Name>, p: nat, ghost all: seq<Name>, ghost j: nat) returns (same: bool, subLen: nat)
      requires Holds(mem[..], base, Packed(all) + rest) && j < |all| && p == base + Offset(all, j)
      ensures same <==> was == Some(all[j])
      ensures subLen == |all[j]| + 1 && Offset(all, j + 1) == Offset(all, j) + subLen
    {
      StringInMemory(mem[..], base, all, rest, j);
      var len := Strlen(mem[..], p, all[j]);
      subLen := len + 1;
      same := was.Some? && was.value == mem[p..p + len];
    }

    /** The loop itself. */
    method Scan(was: Option<Name>, p0: nat, first: nat, num: nat, ghost all: seq<Name>)
        returns (found: bool, p: nat, subLen: nat, ghost k: nat)
      requires Holds(mem[..], base, Packed(all) + rest) && first + num <= |all| && p0 == base + Offset(all, first)
      ensures k <= num && NotAmong(all, was, first, first + k) && p == base + Offset(all, first + k)
      ensures if found then k < num && was == Some(all[first + k]) && subLen == |all[first + k]| + 1 else k == num
    {
      p, subLen, found := p0, 0, false;
      ghost var j := first;
      var left := num;
      while left != 0
        invariant 0 <= left <= num && left + j == first + num
        invariant p == base + Offset(all, j)
        invariant NotAmong(all, was, first, j)
        invariant !found
      {
        found, subLen := Compare(was, p, all, j);
        if found {
          break;
        }
        NotAmongMore(all, was, first, j);
        p, j := p + subLen, j + 1;
        left := left - 1;
      }
      k := j - first;
    }

    /** The second loop: the first string equal to was among num, or the place behind them. */
    method Search(was: Option<Name>, p0: nat, first: nat, num: nat, ghost all: seq<Name>, ghost strs: seq<Name>)
        returns (found: bool, p: nat, subLen: nat, ghost k: nat)
      requires Holds(mem[..], base, Packed(all) + rest) && first + num <= |all| && strs == all[first..first + num]
      requires p0 == base + Offset(all, first)
      ensures found <==> Applies(strs, was)
      ensures found ==> Position(strs, was, k)
      ensures found ==> first + k <= |all| && p == base + Offset(all, first + k) && subLen == |Terminate(was)|
    {
      found, p, subLen, k := Scan(was, p0, first, num, all);
      PositionInside(all, first, strs, was, k);
      if !found && was.None? {
        found, subLen := true, 0;
      }
    }

    /** The walk over strings first and the search among num that follow. */
    method Locate(was: Option<Name>, first: nat, num: nat, ghost all: seq<Name>, ghost strs: seq<Name>)
        returns (found: bool, p: nat, subLen: nat, ghost k: nat)
      requires Holds(mem[..], base, Packed(all) + rest) && first + num <= |all| && strs == all[first..first + num]
      ensures found <==> Applies(strs, was)
      ensures found ==> Position(strs, was, k)
      ensures found ==> first + k <= |all| && p == base + Offset(all, first + k) && subLen == |Terminate(was)|
    {
      p := base;
      k := 0;
      var start := first;
      assert all[..0] == [];
      ghost var n := 0;
      while start != 0
        invariant 0 <= start <= first && n == first - start && p == base + Offset(all, n)
      {
        StringInMemory(mem[..], base, all, rest, n);
        var len := Strlen(mem[..], p, all[n]);
        p := p + len + 1;
        start, n := start - 1, n + 1;
      }
      found, p, subLen, k := Search(was, p, first, num, all, strs);
    }

    /** memcpy of a string from elsewhere. */
    method Store(p: nat, s: seq<byte>)
      requires p + |s| <= mem.Length
      modifies mem
      ensures forall x :: 0 <= x < mem.Length ==> mem[x] == if p <= x < p + |s| then s[x - p] else old(mem[x])
    {
      var i := 0;
      while i < |s|
        invariant 0 <= i <= |s|
        invariant forall x :: 0 <= x < mem.Length ==> mem[x] == if p <= x < p + i then s[x - p] else old(mem[x])
      {
        mem[p + i] := s[i];
        i := i + 1;
      }
    }

    /** From diff on: sub bytes at p make way for the bytes add, and what follows them up to end
    moves along. */
    method Splice(p: nat, sub: nat, add: seq<byte>, end: nat)
      requires p + sub <= end && |add| <= p && end + |add| <= mem.Length && end - p + |add| <= 0x40_0000_0000
      modifies mem
      ensures Rewritten(old(mem[..]), mem[..], p, sub, add, end - p - sub)
      ensures forall x :: end - sub + |add| <= x < mem.Length ==> mem[x] == old(mem[x])
    {
      var diff := |add| - sub;
      var src: nat := p - diff;
      ghost var m0 := mem[..];
      Memmove(mem, p, src, end - src);
      ghost var m1 := mem[..];
      Store(p, add);
      SpliceBytes(m0, m1, mem[..], p, sub, add, end);
    }

    /** Both scans, for strings that stand between others. */
    method LocateInside(was: Option<Name>, start: nat, count: nat, ghost before: seq<Name>, ghost strs: seq<Name>,
        ghost after: seq<Name>) returns (r: bool, p: nat, subLen: nat, ghost k: nat)
      requires count == |strs| && start == |before|
      requires Holds(mem[..], base, Packed(before + strs + after) + rest)
      ensures r <==> Applies(strs, was)
      ensures r ==> Position(strs, was, k) && subLen == |Terminate(was)|
      ensures r ==> p == base + Offset(before + strs + after, |before| + k)
    {
      ghost var all := Whole(before, strs, after);
      r, p, subLen, k := Locate(was, start, count, all, strs);
    }

    /** Where the edit takes place, and what it must do to the bytes. */
    method Plan(was: Option<Name>, ghost next: Option<Name>, start: nat, count: nat, ghost before: seq<Name>, ghost strs: seq<Name>,
        ghost after: seq<Name>) returns (r: bool, p: nat, subLen: nat, ghost k: nat, ghost e: Edit)
      requires count == |strs| && start == |before| && content == Packed(before + strs + after) + rest
      requires Holds(mem[..], base, content)
      ensures r <==> Applies(strs, was)
      ensures r ==> Position(strs, was, k) && p == base + |e.front| && subLen == |Terminate(was)|
      ensures r ==> e.Replaces(was, next) && e.c0 == content && e.c1 == Packed(before + Spliced(strs, k, was, next) + after) + rest
    {
      r, p, subLen, k := LocateInside(was, start, count, before, strs, after);
      if r {
        e := EditInside(before, strs, after, k, was, next, rest);
      } else {
        e := Edit([], [], content, content);
      }
    }

    /** The updates of *countp. */
    method CountAfter(count: int, was: Option<Name>, next: Option<Name>) returns (n: int)
      requires -128 <= count <= 127
      ensures n == NewCount(count, was, next)
    {
      n := count;
      if next.None? {
        n := Int8(n - 1);
      } else if was.None? {
        n := Int8(n + 1);
      }
    }

    /** The two bytes hold the low sixteen bits of the size. */
    ghost predicate SizeStored(n: nat)
      reads this`sizeLo, this`sizeHi
    {
      sizeLo < 256 && sizeHi < 256 && sizeLo + sizeHi * 256 == n % 0x1_0000
    }

    /** size_lo = total_len & 0xff, size_hi = total_len >> 8, each a byte. */
    method StoreSize(totalLen: nat)
      modifies this`sizeLo, this`sizeHi
      ensures SizeStored(totalLen)
    {
      Bytes16(totalLen);
      sizeLo, sizeHi := totalLen % 256, totalLen / 256 % 256;
    }

    ghost predicate SizeIs(n: nat)
      reads this
    {
      sizeLo < 256 && sizeHi < 256 && sizeLo + sizeHi * 256 == header + n
    }

    function End(n: nat, next: Option<Name>): nat {
      base + n + |Terminate(next)|
    }

    /** The new string fits behind the list, its length is an int, and the bytes before the list that
    memmove reads along with it exist. */
    ghost predicate Room(n: nat, next: Option<Name>) {
      |Terminate(next)| <= base && |Terminate(next)| < 0x8000_0000 && End(n, next) <= mem.Length
    }

    /** The bytes of an edit change. */
    method Rewrite(p: nat, subLen: nat, add: seq<byte>, end: nat, ghost was: Option<Name>, ghost next: Option<Name>, ghost e: Edit)
      requires e.Replaces(was, next) && Holds(mem[..], base, e.c0) && add == Terminate(next)
      requires p == base + |e.front| && subLen == |Terminate(was)| && end == p + subLen + |e.back|
      requires |add| <= p && end + |add| <= mem.Length && end - p + |add| <= 0x40_0000_0000
      modifies mem
      ensures Holds(mem[..], base, e.c1)
      ensures forall x :: 0 <= x < base || end - subLen + |add| <= x < mem.Length ==> mem[x] == old(mem[x])
    {
      ghost var m0 := mem[..];
      Splice(p, subLen, add, end);
      EditHolds(m0, mem[..], base, e, was, next);
    }

    /** The end of do_adjust: the bytes change, and so does the size. */
    method Replace(p: nat, subLen: nat, next: Option<Name>, ghost was: Option<Name>, ghost e: Edit)
      requires e.Replaces(was, next) && Holds(mem[..], base, e.c0)
      requires p == base + |e.front| && subLen == |Terminate(was)|
      requires SizeIs(|e.c0|) && Room(|e.c0|, next)
      modifies mem, this`sizeLo, this`sizeHi
      ensures Holds(mem[..], base, e.c1)
      ensures SizeStored(header + |e.c1|)
      ensures forall x :: 0 <= x < base || End(|e.c0|, next) <= x < mem.Length ==> mem[x] == old(mem[x])
    {
      var totalLen := sizeLo + sizeHi * 256;
      var add := Terminate(next);
      e.Lengths(was, next);
      Rewrite(p, subLen, add, base + totalLen - header, was, next, e);
      totalLen := totalLen + |add| - subLen;
      StoreSize(totalLen);
    }

    /** do_adjust on the count strings strs, which stand between before and after. */
    method DoAdjust(was: Option<Name>, next: Option<Name>, start: nat, count: int, ghost before: seq<Name>, ghost strs: seq<Name>,
        ghost after: seq<Name>) returns (r: bool, newCount: int, ghost k: nat, ghost c1: seq<byte>)
      requires count == |strs| <= 127 && start == |before| && content == Packed(before + strs + after) + rest
      requires Holds(mem[..], base, content) && SizeIs(|content|) && Room(|content|, next)
      modifies mem, this`sizeLo, this`sizeHi
      ensures r <==> Applies(strs, was)
      ensures !r ==> mem[..] == old(mem[..]) && sizeLo == old(sizeLo) && sizeHi == old(sizeHi) && newCount == count
      ensures r ==> Position(strs, was, k) && c1 == Packed(before + Spliced(strs, k, was, next) + after) + rest
      ensures r ==> Holds(mem[..], base, c1) && newCount == NewCount(count, was, next)
      ensures r ==> SizeStored(header + |c1|)
      ensures forall x :: 0 <= x < base || End(|content|, next) <= x < mem.Length ==> mem[x] == old(mem[x])
    {
      var p, subLen;
      ghost var e;
      r, p, subLen, k, e := Plan(was, next, start, count, before, strs, after);
      newCount, c1 := count, e.c1;
      if !r {
        return;
      }
      newCount := CountAfter(count, was, next);
      Replace(p, subLen, next, was, e);
    }

    /** do_adjust on the arguments. */
    method EditArgs(was: Option<Name>, next: Option<Name>)
        returns (r: bool, count: int, ghost k: nat, ghost args1: seq<Name>, ghost c1: seq<byte>)
      requires Valid() && Room(|content|, next)
      modifies mem, this`sizeLo, this`sizeHi
      ensures r <==> Applies(args, was)
      ensures !r ==> Valid()
      ensures r ==> Position(args, was, k) && args1 == Spliced(args, k, was, next) && count == NewCount(argc, was, next)
      ensures r ==> c1 == Packed(args1 + envs) + rest && Holds(mem[..], base, c1) && SizeStored(header + |c1|)
      ensures forall x :: 0 <= x < base || End(|content|, next) <= x < mem.Length ==> mem[x] == old(mem[x])
    {
      NothingBefore(args, envs);
      args1 := args;
      r, count, k, c1 := DoAdjust(was, next, 0, argc, [], args, envs);
      if r {
        args1 := Spliced(args, k, was, next);
        NothingBefore(args1, envs);
      }
    }

    /** do_adjust on the environment. */
    method EditEnvs(was: Option<Name>, next: Option<Name>)
        returns (r: bool, count: int, ghost k: nat, ghost envs1: seq<Name>, ghost c1: seq<byte>)
      requires Valid() && Room(|content|, next)
      modifies mem, this`sizeLo, this`sizeHi
      ensures r <==> Applies(envs, was)
      ensures !r ==> Valid()
      ensures r ==> Position(envs, was, k) && envs1 == Spliced(envs, k, was, next) && count == NewCount(envc, was, next)
      ensures r ==> c1 == Packed(args + envs1) + rest && Holds(mem[..], base, c1) && SizeStored(header + |c1|)
      ensures forall x :: 0 <= x < base || End(|content|, next) <= x < mem.Length ==> mem[x] == old(mem[x])
    {
      NothingBehind(args, envs);
      envs1 := envs;
      r, count, k, c1 := DoAdjust(was, next, argc, envc, args, envs, []);
      if r {
        envs1 := Spliced(envs, k, was, next);
        NothingBehind(args, envs1);
      }
    }

    /** The args and their count after an edit. */
    method SetArgs(ghost was: Option<Name>, ghost next: Option<Name>, count: int, ghost args1: seq<Name>, ghost c1: seq<byte>)
      requires c1 == Packed(args1 + envs) + rest && Holds(mem[..], base, c1) && SizeStored(header + |c1|)
      requires argc == |args| <= 127 && envc == |envs| <= 127
      requires count == NewCount(argc, was, next) && |args1| == |args| - Gone(was) + Gone(next)
      modifies this`argc, this`args, this`content
      ensures args == args1 && content == c1 && Listing()
      ensures Truthful() <==> Fits(header + |content|, |old(args)|, was, next)
    {
      FieldsFit(sizeLo, sizeHi, header + |c1|, count, |args|, |args1|, was, next);
      content, args, argc := c1, args1, count;
    }

    /** The envs and their count after an edit. */
    method SetEnvs(ghost was: Option<Name>, ghost next: Option<Name>, count: int, ghost envs1: seq<Name>, ghost c1: seq<byte>)
      requires c1 == Packed(args + envs1) + rest && Holds(mem[..], base, c1) && SizeStored(header + |c1|)
      requires argc == |args| <= 127 && envc == |envs| <= 127
      requires count == NewCount(envc, was, next) && |envs1| == |envs| - Gone(was) + Gone(next)
      modifies this`envc, this`envs, this`content
      ensures envs == envs1 && content == c1 && Listing()
      ensures Truthful() <==> Fits(header + |content|, |old(envs)|, was, next)
    {
      FieldsFit(sizeLo, sizeHi, header + |c1|, count, |envs|, |envs1|, was, next);
      content, envs, envc := c1, envs1, count;
    }

    /** bootstrap_arg_adjust. The list is edited as asked; what its fields say stays true exactly
    when the new list still fits them and the call was not given NULL twice. */
    method ArgAdjust(was: Option<Name>, next: Option<Name>) returns (r: bool, ghost k: nat)
      requires Valid() && Room(|content|, next)
      modifies this, mem
      ensures r <==> Applies(old(args), was)
      ensures r ==> Position(old(args), was, k) && args == Spliced(old(args), k, was, next)
      ensures (!r ==> args == old(args)) && envs == old(envs) && rest == old(rest)
      ensures Listing()
      ensures Truthful() <==> !r || Fits(header + |content|, |old(args)|, was, next)
      ensures forall x :: 0 <= x < base || End(|old(content)|, next) <= x < mem.Length ==> mem[x] == old(mem[x])
    {
      var count;
      ghost var args1, c1;
      r, count, k, args1, c1 := EditArgs(was, next);
      if r {
        SetArgs(was, next, count, args1, c1);
      }
    }

    /** bootstrap_env_adjust. */
    method EnvAdjust(was: Option<Name>, next: Option<Name>) returns (r: bool, ghost k: nat)
      requires Valid() && Room(|content|, next)
      modifies this, mem
      ensures r <==> Applies(old(envs), was)
      ensures r ==> Position(old(envs), was, k) && envs == Spliced(old(envs), k, was, next)
      ensures (!r ==> envs == old(envs)) && args == old(args) && rest == old(rest)
      ensures Listing()
      ensures Truthful() <==> !r || Fits(header + |content|, |old(envs)|, was, next)
      ensures forall x :: 0 <= x < base || End(|old(content)|, next) <= x < mem.Length ==> mem[x] == old(mem[x])
    {
      var count;
      ghost var envs1, c1;
      r, count, k, envs1, c1 := EditEnvs(was, next);
      if r {
        SetEnvs(was, next, count, envs1, c1);
      }
    }
  }
}
