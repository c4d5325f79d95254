/** The two string stores of the system page (lib/strings.c): interned names, and strings filed
under a type number. Each lives in a section that can only grow, with zeros, at its end; Arena
shows that a section of the page is such a buffer. */
module Strings {
  import opened Align
  import opened Flat
  import opened Memory

  type Name = s: seq<byte> | forall i :: 0 <= i < |s| ==> s[i] != 0 witness []

  /** The C string at offset off is s. */
  ghost predicate StringAt(buf: seq<byte>, off: nat, s: Name) {
    off + |s| < |buf| && buf[off..off + |s|] == s && buf[off + |s|] == 0
  }

  function Terminated(strs: seq<Name>): (r: seq<seq<byte>>)
    ensures |r| == |strs| && forall i :: 0 <= i < |strs| ==> r[i] == strs[i] + [0]
  {
    seq(|strs|, i requires 0 <= i < |strs| => strs[i] + [0])
  }

  /** Strings one after the other, each with its terminator. */
  function Packed(strs: seq<Name>): seq<byte> {
    Flatten(Terminated(strs))
  }

  /** The offset of string n. */
  function Offset(strs: seq<Name>, n: nat): nat
    requires n <= |strs|
  {
    |Packed(strs[..n])|
  }

  lemma PackedConcat(a: seq<Name>, b: seq<Name>)
    ensures Packed(a + b) == Packed(a) + Packed(b)
  {
    assert Terminated(a + b) == Terminated(a) + Terminated(b);
    FlattenConcat(Terminated(a), Terminated(b));
  }

  lemma PackedOne(s: Name)
    ensures Packed([s]) == s + [0]
  {
    assert Terminated([s]) == [s + [0]];
    FlattenOne(s + [0]);
  }

  /** String n stands between the strings before it and those behind it. */
  lemma PackedAt(strs: seq<Name>, n: nat)
    requires n < |strs|
    ensures Packed(strs) == Packed(strs[..n]) + (strs[n] + [0]) + Packed(strs[n + 1..])
    ensures Offset(strs, n + 1) == Offset(strs, n) + |strs[n]| + 1 <= |Packed(strs)|
  {
    PackedOne(strs[n]);
    PackedConcat(strs[..n], [strs[n]]);
    assert strs[..n + 1] == strs[..n] + [strs[n]];
    PackedConcat(strs[..n + 1], strs[n + 1..]);
    assert strs == strs[..n + 1] + strs[n + 1..];
  }

  /** The buffer holds exactly the strings strs, all different and nonempty, and zeros behind them. */
  ghost predicate Interns(buf: seq<byte>, strs: seq<Name>) {
    && (forall i :: 0 <= i < |strs| ==> strs[i] != [])
    && (forall i, j :: 0 <= i < j < |strs| ==> strs[i] != strs[j])
    && |Packed(strs)| < |buf|
    && buf == Packed(strs) + Zeros(|buf| - |Packed(strs)|)
  }

  /** Every interned string can be read at its offset, and behind the last one the scan stops. */
  lemma InternedAt(buf: seq<byte>, strs: seq<Name>, n: nat)
    requires Interns(buf, strs) && n <= |strs|
    ensures Offset(strs, n) < |buf|
    ensures n < |strs| ==> StringAt(buf, Offset(strs, n), strs[n]) && buf[Offset(strs, n)] != 0
    ensures n < |strs| ==> Offset(strs, n + 1) == Offset(strs, n) + |strs[n]| + 1
    ensures n == |strs| ==> buf[Offset(strs, n)] == 0
  {
    if n == |strs| {
      assert strs[..n] == strs;
    } else {
      PackedAt(strs, n);
      var front, rest := Packed(strs[..n]), [0] + Packed(strs[n + 1..]) + Zeros(|buf| - |Packed(strs)|);
      assert buf == front + strs[n] + rest;
      Middle(buf, front, strs[n], rest);
      assert buf[|front|] == strs[n][0] && buf[|front| + |strs[n]|] == rest[0];
    }
  }

  lemma InternOneMore(buf: seq<byte>, buf': seq<byte>, strs: seq<Name>, name: Name)
    requires Interns(buf, strs) && name != [] && name !in strs
    requires |buf| <= |buf'| && |Packed(strs)| + |name| + 2 <= |buf'|
    requires buf' == Packed(strs) + name + [0] + Zeros(|buf'| - |Packed(strs)| - |name| - 1)
    ensures Interns(buf', strs + [name])
  {
    var more := strs + [name];
    PackedOne(name);
    PackedConcat(strs, [name]);
    assert Packed(more) == Packed(strs) + name + [0];
    assert buf' == Packed(more) + Zeros(|buf'| - |Packed(more)|);
  }

  /** Adding strings never moves the ones that are already there. */
  lemma OffsetsStay(strs: seq<Name>, more: seq<Name>, n: nat)
    requires strs <= more && n <= |strs|
    ensures Offset(more, n) == Offset(strs, n)
  {
    assert more[..n] == strs[..n];
  }

  /** Which buffer write puts name and its terminator at offset i. */
  function Written(buf: seq<byte>, i: nat, name: seq<byte>): (r: seq<byte>)
    requires i + |name| < |buf|
    ensures |r| == |buf|
  {
    buf[..i] + name + [0] + buf[i + |name| + 1..]
  }

  /** Writing behind all strings. */
  lemma WrittenBehind(front: seq<byte>, buf: seq<byte>, name: seq<byte>)
    requires |front| + |name| + 1 <= |buf| && buf == front + Zeros(|buf| - |front|)
    ensures Written(buf, |front|, name) == front + name + [0] + Zeros(|buf| - |front| - |name| - 1)
    ensures name == [] ==> Written(buf, |front|, name) == buf
  {
  }

  method Strlen(buf: seq<byte>, i: nat, ghost s: Name) returns (n: nat)
    requires StringAt(buf, i, s)
    ensures n == |s|
  {
    n := 0;
    while buf[i + n] != 0
      invariant 0 <= n <= |s|
      decreases |s| - n
    {
      assert n < |s| ==> buf[i..i + |s|][n] == s[n];
      n := n + 1;
    }
  }

  /** strlcpy(&buf[i], name, size) where the name fits into size. */
  method Strlcpy(buf0: seq<byte>, i: nat, name: Name, size: nat) returns (buf: seq<byte>)
    requires |name| < size && i + |name| < |buf0|
    ensures buf == Written(buf0, i, name)
  {
    buf := buf0;
    var k := 0;
    while k < |name| && k < size - 1
      invariant 0 <= k <= |name| && |buf| == |buf0|
      invariant forall x :: 0 <= x < |buf| ==> buf[x] == if i <= x < i + k then name[x - i] else buf0[x]
    {
      buf := buf[i + k := name[k]];
      k := k + 1;
    }
    buf := buf[i + k := 0];
  }

  lemma Round8OfRound128(n: nat)
    ensures Round8(Round(n, 128)) == Round(n, 128)
  {
    assert Round(n, 128) % 128 == 0;
  }

  /** What whole units of growth give need bytes. */
  function Units(need: nat, unit: nat): nat
    requires unit > 0
  {
    if need == 0 then 0 else unit + Units(if need < unit then 0 else need - unit, unit)
  }

  lemma {:induction false} UnitsAreRound(need: nat, unit: nat)
    requires unit > 0
    ensures Units(need, unit) == Round(need, unit)
  {
    if need == 0 {
      DivModUnique(unit - 1, unit, 0, unit - 1);
    } else if need < unit {
      DivModUnique(need + unit - 1, unit, 1, need - 1);
    } else {
      UnitsAreRound(need - unit, unit);
      var x := need - 1;
      DivModUnique(x + unit, unit, x / unit + 1, x % unit);
    }
  }

  /** The size of a section that has still room bytes to grow. */
  datatype Space = Space(size: nat, room: nat)

  /** A section that wants a size grows by a multiple of unit if it is smaller, and only as far as it
  must; ok is false exactly if that is more than the room it has. */
  predicate Grows(a: Space, want: nat, unit: nat, ok: bool, b: Space)
    requires unit > 0
  {
    if want <= a.size then
      ok && b == a
    else
      var add := Units(want - a.size, unit);
      (ok <==> add <= a.room) && b == if ok then Space(a.size + add, a.room - add) else a
  }

  /** grow_syspage_section on a section that may grow by room bytes; ok is false when it crashes. */
  method GrowSection(buf: seq<byte>, room: nat, add: nat) returns (ok: bool, buf': seq<byte>, room': nat)
    ensures ok <==> Round8(add) <= room
    ensures ok ==> buf' == buf + Zeros(Round8(add)) && room' == room - Round8(add)
    ensures !ok ==> buf' == buf && room' == room
  {
    ok, buf', room' := Round8(add) <= room, buf, room;
    if ok {
      buf', room' := buf + Zeros(Round8(add)), room - Round8(add);
    }
  }

  /** Every string of strs can still be read where it was. */
  ghost predicate EarlierStay(strs: seq<Name>, buf: seq<byte>) {
    forall k :: 0 <= k < |strs| ==> StringAt(buf, Offset(strs, k), strs[k])
  }

  lemma StringsStay(buf: seq<byte>, strs: seq<Name>, more: seq<Name>)
    requires strs <= more && Interns(buf, more)
    ensures EarlierStay(strs, buf)
  {
    forall k | 0 <= k < |strs|
      ensures StringAt(buf, Offset(strs, k), strs[k])
    {
      OffsetsStay(strs, more, k);
      InternedAt(buf, more, k);
    }
  }

  class StringTable {
    var buf: seq<byte>

    /** How many bytes the section can still grow before grow_syspage_section crashes. */
    var room: nat

    ghost var strs: seq<Name>

    ghost predicate Valid()
      reads this
    {
      Interns(buf, strs)
    }

    /** The section right after init_syspage_memory: one zero byte, rounded up. */
    constructor (room: nat)
      ensures Valid() && strs == [] && |buf| == 8 && this.room == room
    {
      buf, strs, this.room := Zeros(8), [], room;
    }

    /** strcmp and strlen on the interned string n. */
    method CompareAt(i: nat, ghost n: nat, name: Name) returns (same: bool, len: nat)
      requires Valid() && n < |strs| && i == Offset(strs, n)
      ensures same <==> strs[n] == name
      ensures len == |strs[n]| && Offset(strs, n + 1) == i + len + 1
    {
      InternedAt(buf, strs, n);
      len := Strlen(buf, i, strs[n]);
      same := buf[i..i + len] == name;
    }

    /** The scan of add_string: the index of the name, or of the free place behind all strings. */
    method Scan(name: Name) returns (i: nat, ghost n: nat)
      requires Valid()
      ensures n <= |strs| && i == Offset(strs, n)
      ensures n < |strs| ==> strs[n] == name
      ensures n == |strs| ==> name !in strs
    {
      i, n := 0, 0;
      assert strs[..0] == [];
      InternedAt(buf, strs, 0);
      while buf[i] != 0
        invariant n <= |strs| && i == Offset(strs, n) && i < |buf|
        invariant buf[i] != 0 <==> n < |strs|
        invariant name !in strs[..n]
        decreases |strs| - n
      {
        var same, len := CompareAt(i, n, name);
        if same {
          return;
        }
        assert strs[..n + 1] == strs[..n] + [strs[n]];
        i := i + len + 1;
        n := n + 1;
        InternedAt(buf, strs, n);
      }
      assert strs[..n] == strs || n < |strs|;
    }

    /** Room for len bytes behind all strings. */
    method Reserve(off: nat, len: nat) returns (ok: bool)
      requires Valid() && off == |Packed(strs)|
      modifies this`buf, this`room
      ensures Valid() && (if ok then off + len <= |buf| else buf == old(buf))
      ensures Grows(old(Space(|buf|, room)), off + len, 128, ok, Space(|buf|, room))
      ensures ok ==> buf == Packed(strs) + Zeros(|buf| - off)
    {
      var spare := |buf| - off;
      ok := true;
      if len > spare {
        RoundIsCeiling(len - spare, 128);
        Round8OfRound128(len - spare);
        UnitsAreRound(len - spare, 128);
        ok, buf, room := GrowSection(buf, room, Round(len - spare, 128));
      }
    }

    /** The end of add_string: the name goes behind all others, after growing if it must. */
    method Append(off: nat, name: Name) returns (ok: bool)
      requires Valid() && off == |Packed(strs)| && name !in strs
      modifies this
      ensures Valid()
      ensures ok ==> strs == if name == [] then old(strs) else old(strs) + [name]
      ensures !ok ==> strs == old(strs) && buf == old(buf)
      ensures Grows(old(Space(|buf|, room)), off + |name| + 2, 128, ok, Space(|buf|, room))
    {
      ok := Reserve(off, |name| + 2);
      if !ok {
        return;
      }
      ghost var buf0 := buf;
      buf := Strlcpy(buf, off, name, |buf| - off);
      WrittenBehind(Packed(strs), buf0, name);
      if name != [] {
        InternOneMore(buf0, buf, strs, name);
        strs := strs + [name];
      }
    }

    /** The rest of add_string behind the last string. */
    method AppendNew(off: nat, name: Name) returns (ok: bool)
      requires Valid() && off == Offset(strs, |strs|) && name !in strs
      modifies this
      ensures Valid()
      ensures ok ==> strs == if name == [] then old(strs) else old(strs) + [name]
      ensures ok ==> off == Offset(strs, |old(strs)|) && EarlierStay(old(strs), buf)
      ensures ok && name != [] ==> StringAt(buf, off, name)
      ensures !ok ==> strs == old(strs) && buf == old(buf)
      ensures Grows(old(Space(|buf|, room)), off + |name| + 2, 128, ok, Space(|buf|, room))
    {
      ghost var strs0 := strs;
      assert strs[..|strs|] == strs;
      ok := Append(off, name);
      if ok {
        OffsetsStay(strs0, strs, |strs0|);
        InternedAt(buf, strs, |strs0|);
        StringsStay(buf, strs0, strs);
      }
    }

    /** add_string. A nonempty name is found or appended; ok is false when growing crashes. The empty
    name is never stored: its offset is the place the next new name will take. */
    method AddString(name: Name) returns (ok: bool, off: nat, ghost n: nat)
      requires Valid()
      modifies this
      ensures Valid()
      ensures ok ==> strs == if name == [] || name in old(strs) then old(strs) else old(strs) + [name]
      ensures ok ==> n <= |strs| && off == Offset(strs, n)
      ensures ok && name != [] ==> n < |strs| && strs[n] == name && StringAt(buf, off, name)
      ensures ok && name == [] ==> n == |strs|
      ensures ok && name in old(strs) ==> buf == old(buf)
      ensures ok ==> EarlierStay(old(strs), buf)
      ensures !ok ==> strs == old(strs) && buf == old(buf)
      ensures n <= |old(strs)| && off == Offset(old(strs), n) && (n < |old(strs)| ==> old(strs)[n] == name)
      ensures Grows(old(Space(|buf|, room)), if n < |old(strs)| then 0 else off + |name| + 2, 128, ok, Space(|buf|, room))
    {
      ok := true;
      off, n := Scan(name);
      InternedAt(buf, strs, n);
      if buf[off] == 0 {
        ok := AppendNew(off, name);
      } else {
        StringsStay(buf, strs, strs);
      }
    }
  }
}
