/** Strings filed under a type number, such as the machine name (lib/strings.c:28-88). The section
holds records { uint32_t type; char name[]; } padded to four bytes, ended by a type of zero. */
module TypedStrings {
  import opened Align
  import opened Flat
  import opened Memory
  import opened Options
  import opened Strings

  /** _CS_NONE ends the list; type numbers are positive. */
  datatype Record = Record(typ: nat, name: Name)

  function Le32(t: nat): (r: seq<byte>)
    requires t < TWO_32
    ensures |r| == 4
  {
    [(t % 256) as byte, (t / 256 % 256) as byte, (t / 0x1_0000 % 256) as byte, (t / 0x100_0000) as byte]
  }

  /** *(uint32_t *)&buf[i] on this little-endian CPU */
  function U32(buf: seq<byte>, i: nat): nat
    requires i + 4 <= |buf|
  {
    buf[i] as nat + buf[i + 1] as nat * 256 + buf[i + 2] as nat * 0x1_0000 + buf[i + 3] as nat * 0x100_0000
  }

  lemma ReadLe32(t: nat)
    requires t < TWO_32
    ensures U32(Le32(t), 0) == t
  {
    assert t == t / 0x100_0000 * 0x100_0000 + t % 0x100_0000;
    assert t % 0x100_0000 == t / 0x1_0000 % 256 * 0x1_0000 + t % 0x1_0000;
    assert t % 0x1_0000 == t / 256 % 256 * 256 + t % 256;
  }

  function Round4(x: nat): (r: nat)
    ensures r % 4 == 0 && x <= r < x + 4
  {
    (x + 3) / 4 * 4
  }

  function RecordBytes(r: Record): (b: seq<byte>)
    requires r.typ < TWO_32
    ensures |b| == 4 + Round4(|r.name| + 1)
  {
    Le32(r.typ) + r.name + Zeros(Round4(|r.name| + 1) - |r.name|)
  }

  predicate Small(recs: seq<Record>) {
    forall i :: 0 <= i < |recs| ==> recs[i].typ < TWO_32
  }

  /** Positive types, each used once. */
  ghost predicate Types(recs: seq<Record>) {
    && Small(recs) && (forall i :: 0 <= i < |recs| ==> recs[i].typ > 0)
    && (forall i, j :: 0 <= i < j < |recs| ==> recs[i].typ != recs[j].typ)
  }

  function Chunks(recs: seq<Record>): (r: seq<seq<byte>>)
    requires Small(recs)
    ensures |r| == |recs| && forall i :: 0 <= i < |recs| ==> r[i] == RecordBytes(recs[i])
  {
    seq(|recs|, i requires 0 <= i < |recs| => RecordBytes(recs[i]))
  }

  function Encoded(recs: seq<Record>): seq<byte>
    requires Small(recs)
  {
    Flatten(Chunks(recs))
  }

  /** The buffer holds the records and at least one terminating type word; everything behind is zero. */
  ghost predicate Files(buf: seq<byte>, recs: seq<Record>) {
    && Types(recs) && |Encoded(recs)| + 4 <= |buf|
    && buf == Encoded(recs) + Zeros(|buf| - |Encoded(recs)|)
  }

  lemma EncodedConcat(a: seq<Record>, b: seq<Record>)
    requires Small(a) && Small(b)
    ensures Encoded(a + b) == Encoded(a) + Encoded(b)
  {
    assert Chunks(a + b) == Chunks(a) + Chunks(b);
    FlattenConcat(Chunks(a), Chunks(b));
  }

  lemma EncodedOne(r: Record)
    requires r.typ < TWO_32
    ensures Encoded([r]) == RecordBytes(r)
  {
    assert Chunks([r]) == [RecordBytes(r)];
    FlattenOne(RecordBytes(r));
  }

  lemma EncodedLength(recs: seq<Record>)
    requires Small(recs)
    ensures |Encoded(recs)| % 4 == 0
  {
    FlattenOfFours(Chunks(recs));
  }

  /** The bytes of record n start where the records before it end. */
  lemma EncodedAt(recs: seq<Record>, n: nat)
    requires Small(recs) && n < |recs|
    ensures Encoded(recs[..n + 1]) == Encoded(recs[..n]) + RecordBytes(recs[n])
    ensures Encoded(recs) == Encoded(recs[..n]) + RecordBytes(recs[n]) + Encoded(recs[n + 1..])
  {
    EncodedOne(recs[n]);
    EncodedConcat(recs[..n], [recs[n]]);
    assert recs[..n + 1] == recs[..n] + [recs[n]];
    EncodedConcat(recs[..n + 1], recs[n + 1..]);
    assert recs == recs[..n + 1] + recs[n + 1..];
  }

  /** Reading a record back. */
  lemma ReadRecord(buf: seq<byte>, i: nat, r: Record)
    requires r.typ < TWO_32 && i + |RecordBytes(r)| <= |buf|
    requires buf[i..i + |RecordBytes(r)|] == RecordBytes(r)
    ensures U32(buf, i) == r.typ && StringAt(buf, i + 4, r.name)
  {
    var b := RecordBytes(r);
    ReadLe32(r.typ);
    var t, z := Le32(r.typ), 4 + |r.name|;
    assert buf[i] == b[0] == t[0] && buf[i + 1] == b[1] == t[1] && buf[i + 2] == b[2] == t[2] && buf[i + 3] == b[3] == t[3];
    assert b[4..z] == r.name;
    forall k | 0 <= k < |r.name|
      ensures buf[i + 4..i + z][k] == r.name[k]
    {
      assert buf[i..i + |b|][k + 4] == b[k + 4] == b[4..z][k];
    }
    assert buf[i + z] == b[z] == 0;
  }

  /** Where record n starts. */
  function RecordOffset(recs: seq<Record>, n: nat): nat
    requires Small(recs) && n <= |recs|
  {
    |Encoded(recs[..n])|
  }

  lemma Round4Shift(i: nat, x: nat)
    requires i % 4 == 0
    ensures Round4(i + x) == i + Round4(x)
  {
  }

  /** Past the type, past the string and its terminator, up to the next word. */
  lemma NextOffset(recs: seq<Record>, n: nat)
    requires Small(recs) && n < |recs|
    ensures RecordOffset(recs, n + 1) == RecordOffset(recs, n) + |RecordBytes(recs[n])|
    ensures RecordOffset(recs, n + 1) == Round4(RecordOffset(recs, n) + 4 + |recs[n].name| + 1)
  {
    EncodedAt(recs, n);
    EncodedLength(recs[..n]);
    Round4Shift(RecordOffset(recs, n) + 4, |recs[n].name| + 1);
  }

  /** Where record n stands in the buffer. */
  lemma RecordStands(buf: seq<byte>, recs: seq<Record>, n: nat)
    requires Files(buf, recs) && n < |recs|
    ensures var i, b := RecordOffset(recs, n), RecordBytes(recs[n]);
      i + |b| + 4 <= |buf| && buf[i..i + |b|] == b
  {
    EncodedAt(recs, n);
    var front, b := Encoded(recs[..n]), RecordBytes(recs[n]);
    var rest := Encoded(recs[n + 1..]) + Zeros(|buf| - |Encoded(recs)|);
    assert buf == front + b + rest;
    Middle(buf, front, b, rest);
  }

  /** What the scan of find_typed_string sees at record n. */
  lemma RecordAt(buf: seq<byte>, recs: seq<Record>, n: nat)
    requires Files(buf, recs) && n < |recs|
    ensures RecordOffset(recs, n) + |RecordBytes(recs[n])| + 4 <= |buf|
    ensures U32(buf, RecordOffset(recs, n)) == recs[n].typ
    ensures StringAt(buf, RecordOffset(recs, n) + 4, recs[n].name)
  {
    RecordStands(buf, recs, n);
    ReadRecord(buf, RecordOffset(recs, n), recs[n]);
  }

  /** The type word at record n, or behind the last record. */
  function TypeOf(recs: seq<Record>, n: nat): nat
    requires n <= |recs|
  {
    if n < |recs| then recs[n].typ else 0
  }

  /** The scan for typ stands at record n. */
  ghost predicate Scanned(recs: seq<Record>, typ: nat, n: nat, i: nat)
    requires Small(recs)
  {
    n <= |recs| && i == RecordOffset(recs, n) && forall k :: 0 <= k < n ==> recs[k].typ != typ
  }

  /** What it sees behind the last record. */
  lemma EndAt(buf: seq<byte>, recs: seq<Record>)
    requires Files(buf, recs)
    ensures RecordOffset(recs, |recs|) == |Encoded(recs)|
    ensures U32(buf, |Encoded(recs)|) == 0
  {
    assert recs[..|recs|] == recs;
  }

  lemma TypeAt(buf: seq<byte>, recs: seq<Record>, n: nat)
    requires Files(buf, recs) && n <= |recs|
    ensures RecordOffset(recs, n) + 4 <= |buf|
    ensures U32(buf, RecordOffset(recs, n)) == TypeOf(recs, n)
  {
    if n < |recs| {
      RecordAt(buf, recs, n);
    } else {
      EndAt(buf, recs);
    }
  }

  /** The list without record n. */
  function Removed(recs: seq<Record>, n: nat): seq<Record>
    requires n < |recs|
  {
    recs[..n] + recs[n + 1..]
  }

  /** The finite map that a record list stands for. */
  function MapOf(recs: seq<Record>): map<nat, Name> {
    if recs == [] then
      map[]
    else
      var r := recs[|recs| - 1]; MapOf(recs[..|recs| - 1])[r.typ := r.name]
  }

  lemma {:induction false} MapOfKeys(recs: seq<Record>, t: nat)
    ensures t in MapOf(recs) <==> exists i :: 0 <= i < |recs| && recs[i].typ == t
  {
    if recs != [] {
      var init, last := recs[..|recs| - 1], |recs| - 1;
      MapOfKeys(init, t);
      if t in MapOf(init) {
        var i :| 0 <= i < |init| && init[i].typ == t;
        assert recs[i].typ == t;
      }
      assert forall i :: 0 <= i < |recs| ==> i == last || recs[i] == init[i];
      assert recs[last].typ in MapOf(recs);
    }
  }

  lemma MapOfAppend(recs: seq<Record>, r: Record)
    ensures MapOf(recs + [r]) == MapOf(recs)[r.typ := r.name]
  {
    assert (recs + [r])[..|recs|] == recs;
  }

  lemma RemoveAndPut<K, V>(m: map<K, V>, k: K, v: V)
    ensures (m - {k})[k := v] == m[k := v]
  {
  }

  lemma TypesRemoved(recs: seq<Record>, n: nat)
    requires Types(recs) && n < |recs|
    ensures Types(Removed(recs, n))
    ensures forall i :: 0 <= i < |Removed(recs, n)| ==> Removed(recs, n)[i].typ != recs[n].typ
  {
    var less := Removed(recs, n);
    assert forall i :: 0 <= i < |less| ==> less[i] == recs[if i < n then i else i + 1];
  }

  /** Removing a record in front of the last one. */
  lemma RemovedInit(recs: seq<Record>, n: nat)
    requires n + 1 < |recs|
    ensures Removed(recs, n) == Removed(recs[..|recs| - 1], n) + [recs[|recs| - 1]]
  {
  }

  lemma PutOther<K, V>(m: map<K, V>, k: K, v: V, other: K)
    requires k != other
    ensures (m - {other})[k := v] == m[k := v] - {other}
  {
  }

  /** Removing the one record of a type removes its key. */
  lemma {:induction false} MapOfRemoved(recs: seq<Record>, n: nat)
    requires Types(recs) && n < |recs|
    ensures MapOf(Removed(recs, n)) == MapOf(recs) - {recs[n].typ}
  {
    var init, last := recs[..|recs| - 1], recs[|recs| - 1];
    if n == |recs| - 1 {
      MapOfKeys(init, last.typ);
      assert Removed(recs, n) == init;
    } else {
      MapOfRemoved(init, n);
      RemovedInit(recs, n);
      MapOfAppend(Removed(init, n), last);
      PutOther(MapOf(init), last.typ, last.name, recs[n].typ);
    }
  }

  /** The parts of the buffer that closing a hole moves. */
  lemma HoleBounds(buf: seq<byte>, recs: seq<Record>, n: nat)
    requires Files(buf, recs) && n < |recs|
    ensures RecordOffset(recs, n) <= RecordOffset(recs, n + 1) <= |Encoded(recs)| <= |buf|
    ensures RecordOffset(recs, |recs|) == |Encoded(recs)|
    ensures forall k :: |Encoded(recs)| <= k < |buf| ==> buf[k] == 0
  {
    EncodedAt(recs, n);
    assert recs[..|recs|] == recs;
  }

  /** Closing the hole that record n leaves. */
  lemma FilesRemoved(buf: seq<byte>, buf': seq<byte>, recs: seq<Record>, n: nat, i: nat, j: nat, end: nat)
    requires Files(buf, recs) && n < |recs| && |buf'| == |buf|
    requires i == RecordOffset(recs, n) && j == RecordOffset(recs, n + 1) && end == |Encoded(recs)|
    requires i <= j <= end && buf' == buf[..i] + buf[j..end] + Zeros(|buf| - i - (end - j))
    ensures Files(buf', Removed(recs, n))
  {
    TypesRemoved(recs, n);
    EncodedAt(recs, n);
    EncodedConcat(recs[..n], recs[n + 1..]);
    var front, b, back := Encoded(recs[..n]), RecordBytes(recs[n]), Encoded(recs[n + 1..]);
    Middle(buf, front + b, back, Zeros(|buf| - |Encoded(recs)|));
    assert buf[..i] == (front + b)[..i] == front;
    assert Encoded(Removed(recs, n)) == front + back;
  }

  /** The padding of a record is the first of the zeros behind its string. */
  lemma PaddedRecord(r: Record, zeros: nat)
    requires r.typ < TWO_32 && Round4(|r.name| + 1) - |r.name| <= zeros + 1
    ensures Le32(r.typ) + r.name + [0] + Zeros(zeros) == RecordBytes(r) + Zeros(zeros + 1 - (Round4(|r.name| + 1) - |r.name|))
  {
  }

  /** Bytes x written into the zeros behind front. */
  lemma WrittenBehind(buf: seq<byte>, front: seq<byte>, x: seq<byte>, extra: nat)
    requires |front| + |x| <= |buf| + extra && |front| <= |buf| && buf == front + Zeros(|buf| - |front|)
    ensures (buf + Zeros(extra))[..|front|] + x + (buf + Zeros(extra))[|front| + |x|..] ==
      front + (x + Zeros(|buf| + extra - |front| - |x|))
  {
  }

  lemma Regrouped(front: seq<byte>, x: seq<byte>, y: seq<byte>, zeros: nat, rest: nat)
    requires x + Zeros(zeros) == y + Zeros(rest)
    ensures front + (x + Zeros(zeros)) == (front + y) + Zeros(rest)
  {
    assert front + (y + Zeros(rest)) == (front + y) + Zeros(rest);
  }

  /** A record written into the zeros behind front follows it with its padding. */
  lemma RecordBehind(buf: seq<byte>, buf': seq<byte>, front: seq<byte>, r: Record, extra: nat)
    requires r.typ < TWO_32 && |front| + |RecordBytes(r)| <= |buf| + extra
    requires |front| <= |buf| && buf == front + Zeros(|buf| - |front|)
    requires var i := |front|;
      buf' == (buf + Zeros(extra))[..i] + (Le32(r.typ) + r.name + [0]) + (buf + Zeros(extra))[i + 5 + |r.name|..]
    ensures |buf'| == |buf| + extra && buf' == (front + RecordBytes(r)) + Zeros(|buf| + extra - |front| - |RecordBytes(r)|)
  {
    var x := Le32(r.typ) + r.name + [0];
    var zeros := |buf| + extra - |front| - |x|;
    WrittenBehind(buf, front, x, extra);
    PaddedRecord(r, zeros);
    Regrouped(front, x, RecordBytes(r), zeros, zeros + 1 - (Round4(|r.name| + 1) - |r.name|));
  }

  /** Writing a new record where the old ones end, after growing by extra bytes. */
  lemma FilesAppended(buf: seq<byte>, buf': seq<byte>, recs: seq<Record>, r: Record, extra: nat)
    requires Files(buf, recs) && 0 < r.typ < TWO_32
    requires forall i :: 0 <= i < |recs| ==> recs[i].typ != r.typ
    requires |Encoded(recs)| + |RecordBytes(r)| + 4 <= |buf| + extra
    requires var i := |Encoded(recs)|;
      buf' == (buf + Zeros(extra))[..i] + (Le32(r.typ) + r.name + [0]) + (buf + Zeros(extra))[i + 5 + |r.name|..]
    ensures Files(buf', recs + [r])
  {
    EncodedOne(r);
    EncodedConcat(recs, [r]);
    RecordBehind(buf, buf', Encoded(recs), r, extra);
  }

  /** The two byte loops of del_typed_string. */
  method CloseGap(p0: seq<byte>, i0: nat, j0: nat, end: nat) returns (p: seq<byte>)
    requires i0 <= j0 <= end <= |p0|
    requires forall k :: end <= k < |p0| ==> p0[k] == 0
    ensures p == p0[..i0] + p0[j0..end] + Zeros(|p0| - i0 - (end - j0))
  {
    p := p0;
    var i, j := i0, j0;
    while j < end
      invariant j0 <= j <= end && i - i0 == j - j0 && |p| == |p0|
      invariant forall k :: 0 <= k < i0 ==> p[k] == p0[k]
      invariant forall k :: i0 <= k < i ==> p[k] == p0[k + (j0 - i0)]
      invariant forall k :: i <= k < |p| ==> p[k] == p0[k]
    {
      p := p[i := p[j]];
      i, j := i + 1, j + 1;
    }
    ghost var mid, p1 := i, p;
    while i < j
      invariant mid <= i <= j && |p| == |p0|
      invariant forall k :: 0 <= k < mid ==> p[k] == p1[k]
      invariant forall k :: mid <= k < i ==> p[k] == 0
      invariant forall k :: j <= k < |p| ==> p[k] == 0
    {
      p := p[i := 0];
      i := i + 1;
    }
  }

  lemma LastRecordAt(buf: seq<byte>, recs: seq<Record>, r: Record)
    requires Files(buf, recs + [r]) && Small(recs)
    ensures var i := |Encoded(recs)|; i + 4 <= |buf| && U32(buf, i) == r.typ && StringAt(buf, i + 4, r.name)
  {
    assert (recs + [r])[..|recs|] == recs;
    RecordAt(buf, recs + [r], |recs|);
  }

  class TypedStore {
    var buf: seq<byte>

    /** How many bytes the section can still grow before grow_syspage_section crashes. */
    var room: nat

    ghost var recs: seq<Record>

    ghost predicate Valid()
      reads this
    {
      Files(buf, recs)
    }

    /** The section right after init_syspage_memory: one zero word, rounded up. */
    constructor (room: nat)
      ensures Valid() && recs == [] && |buf| == 8 && this.room == room
    {
      buf, recs, this.room := Zeros(8), [], room;
    }

    /** The type word at offset i, zero only behind the last record. */
    method TypeWord(i: nat, ghost n: nat) returns (t: nat)
      requires Valid() && n <= |recs| && i == RecordOffset(recs, n)
      ensures t == TypeOf(recs, n) && (t == 0 <==> n == |recs|)
    {
      TypeAt(buf, recs, n);
      t := U32(buf, i);
    }

    /** From one record to the next: past the type, past the string, up to the next word. */
    method SkipRecord(i: nat, ghost n: nat) returns (next: nat)
      requires Valid() && n < |recs| && i == RecordOffset(recs, n)
      ensures next == RecordOffset(recs, n + 1)
    {
      RecordAt(buf, recs, n);
      NextOffset(recs, n);
      var len := Strlen(buf, i + 4, recs[n].name);
      next := Round4(i + 4 + len + 1);
    }

    /** One turn of the scan: stop at the type or at the end, or move on. */
    method FindNext(typ: nat, i0: nat, ghost n0: nat) returns (found: bool, t: nat, i: nat, ghost n: nat)
      requires Valid() && Scanned(recs, typ, n0, i0)
      ensures Scanned(recs, typ, n, i)
      ensures if found then n == n0 && t == TypeOf(recs, n) && (t == typ || t == 0) else n == n0 + 1
    {
      i, n := i0, n0;
      t := TypeWord(i, n);
      found := t == typ || t == 0;
      if !found {
        i := SkipRecord(i, n);
        n := n + 1;
      }
    }

    /** find_typed_string: the offset of the record, or None for -1. _CS_NONE (0) finds the end. */
    method Find(typ: nat) returns (at: Option<nat>, ghost n: nat)
      requires Valid() && typ < TWO_32
      ensures n <= |recs| && (forall k :: 0 <= k < n ==> recs[k].typ != typ)
      ensures at.Some? ==> at.value == RecordOffset(recs, n)
      ensures at.Some? <==> typ == 0 || n < |recs|
      ensures if n < |recs| then typ == recs[n].typ != 0 else typ == 0 || at.None?
      ensures forall k :: 0 <= k < |recs| && recs[k].typ == typ ==> at == Some(RecordOffset(recs, k))
    {
      var i: nat, t: nat := 0, 0;
      var found := false;
      n := 0;
      assert recs[..0] == [];
      while !found
        invariant Scanned(recs, typ, n, i)
        invariant found ==> t == TypeOf(recs, n) && (t == typ || t == 0)
        decreases |recs| - n, !found
      {
        found, t, i, n := FindNext(typ, i, n);
      }
      at := if t == typ then Some(i) else None;
    }

    /** The byte moves of del_typed_string: record n, from i to j, goes. */
    method CloseHole(i: nat, j: nat, end: nat, ghost n: nat)
      requires Valid() && n < |recs| && i == RecordOffset(recs, n) && j == RecordOffset(recs, n + 1) && end == RecordOffset(recs, |recs|)
      modifies this`buf
      ensures |buf| == |old(buf)| && Files(buf, Removed(recs, n))
    {
      HoleBounds(buf, recs, n);
      ghost var buf0 := buf;
      buf := CloseGap(buf, i, j, end);
      FilesRemoved(buf0, buf, recs, n, i, j, end);
    }

    /** The search for the end of the records. */
    method FindEnd() returns (end: nat)
      requires Valid()
      ensures end == RecordOffset(recs, |recs|)
    {
      ghost var m;
      var last;
      last, m := Find(0);
      end := last.value;
    }

    /** The rest of del_typed_string, once record n was found at offset i. */
    method DelAt(i: nat, ghost n: nat)
      requires Valid() && n < |recs| && i == RecordOffset(recs, n)
      modifies this`buf, this`recs
      ensures Valid() && |buf| == |old(buf)| && recs == Removed(old(recs), n)
      ensures MapOf(recs) == MapOf(old(recs)) - {old(recs)[n].typ}
    {
      var j := SkipRecord(i, n);
      var end := FindEnd();
      CloseHole(i, j, end, n);
      MapOfRemoved(recs, n);
      recs := Removed(recs, n);
    }

    /** del_typed_string. */
    method Del(typ: nat) returns (deleted: bool)
      requires Valid() && 0 < typ < TWO_32
      modifies this`buf, this`recs
      ensures Valid() && |buf| == |old(buf)|
      ensures MapOf(recs) == MapOf(old(recs)) - {typ}
      ensures deleted <==> typ in MapOf(old(recs))
      ensures forall k :: 0 <= k < |recs| ==> recs[k].typ != typ
    {
      ghost var n;
      var at;
      at, n := Find(typ);
      MapOfKeys(recs, typ);
      if at.None? {
        return false;
      }
      TypesRemoved(recs, n);
      DelAt(at.value, n);
      deleted := true;
    }

    /** The two writes of add_typed_string. */
    method PutRecord(i: nat, typ: nat, name: Name)
      requires typ < TWO_32 && i + 5 + |name| <= |buf|
      modifies this`buf
      ensures buf == old(buf)[..i] + (Le32(typ) + name + [0]) + old(buf)[i + 5 + |name|..]
    {
      var t := Le32(typ);
      buf := buf[i := t[0]][i + 1 := t[1]][i + 2 := t[2]][i + 3 := t[3]];
      buf := Strlcpy(buf, i + 4, name, |buf| - i);
    }

    /** The record goes where the old ones end. */
    method WriteRecord(off: nat, typ: nat, name: Name, ghost buf0: seq<byte>, ghost extra: nat)
      requires Files(buf0, recs) && buf == buf0 + Zeros(extra) && off == |Encoded(recs)|
      requires 0 < typ < TWO_32 && forall k :: 0 <= k < |recs| ==> recs[k].typ != typ
      requires off + Round4(|name| + 1) + 8 <= |buf|
      modifies this`buf
      ensures Files(buf, recs + [Record(typ, name)]) && |buf| == |old(buf)|
      ensures off + 4 <= |buf| && U32(buf, off) == typ && StringAt(buf, off + 4, name)
    {
      PutRecord(off, typ, name);
      FilesAppended(buf0, buf, recs, Record(typ, name), extra);
      LastRecordAt(buf, recs, Record(typ, name));
    }

    /** Space for need bytes from offset i on. */
    method MakeRoom(i: nat, need: nat) returns (ok: bool, ghost extra: nat)
      requires i <= |buf|
      modifies this`buf, this`room
      ensures ok ==> i + need <= |buf| && buf == old(buf) + Zeros(extra)
      ensures !ok ==> buf == old(buf)
      ensures Grows(old(Space(|buf|, room)), i + need, 8, ok, Space(|buf|, room))
    {
      var spare := |buf| - i;
      ok, extra := true, 0;
      assert buf + Zeros(0) == buf;
      if spare < need {
        UnitsAreRound(need - spare, 8);
        extra := Round8(need - spare);
        ok, buf, room := GrowSection(buf, room, need - spare);
      }
    }

    /** The end of the records, where a new one goes. */
    method AppendAt(off: nat, need: nat, typ: nat, name: Name) returns (ok: bool)
      requires Valid() && 0 < typ < TWO_32 && off == |Encoded(recs)| && need == Round4(|name| + 1) + 8
      requires off <= |buf| && forall k :: 0 <= k < |recs| ==> recs[k].typ != typ
      modifies this
      ensures Valid()
      ensures recs == if ok then old(recs) + [Record(typ, name)] else old(recs)
      ensures ok ==> off + 4 <= |buf| && U32(buf, off) == typ && StringAt(buf, off + 4, name)
      ensures Grows(old(Space(|buf|, room)), off + need, 8, ok, Space(|buf|, room))
    {
      ghost var buf0, extra := buf, 0;
      ok, extra := MakeRoom(off, need);
      if !ok {
        return;
      }
      WriteRecord(off, typ, name, buf0, extra);
      recs := recs + [Record(typ, name)];
    }

    /** The rest of add_typed_string, once the type is not in use. */
    method Append(typ: nat, name: Name) returns (ok: bool, off: nat)
      requires Valid() && 0 < typ < TWO_32
      requires forall k :: 0 <= k < |recs| ==> recs[k].typ != typ
      modifies this
      ensures Valid()
      ensures recs == if ok then old(recs) + [Record(typ, name)] else old(recs)
      ensures MapOf(recs) == if ok then MapOf(old(recs))[typ := name] else MapOf(old(recs))
      ensures ok ==> off + 4 <= |buf| && U32(buf, off) == typ && StringAt(buf, off + 4, name)
      ensures off == |Encoded(old(recs))|
      ensures Grows(old(Space(|buf|, room)), off + (Round4(|name| + 1) + 8), 8, ok, Space(|buf|, room))
    {
      var at;
      ghost var n;
      at, n := Find(0);
      EndAt(buf, recs);
      off := at.value;
      MapOfAppend(recs, Record(typ, name));
      ok := AppendAt(off, Round4(|name| + 1) + 8, typ, name);
    }

    /** add_typed_string: replaces the string of a type; ok is false when growing crashes. */
    method Add(typ: nat, name: Name) returns (ok: bool, off: nat)
      requires Valid() && 0 < typ < TWO_32
      modifies this
      ensures Valid()
      ensures MapOf(recs) == if ok then MapOf(old(recs))[typ := name] else MapOf(old(recs)) - {typ}
      ensures ok ==> off + 4 <= |buf| && U32(buf, off) == typ && StringAt(buf, off + 4, name)
      ensures ok ==> recs != []
      ensures off == |Encoded(if ok then recs[..|recs| - 1] else recs)|
      ensures Grows(old(Space(|buf|, room)), off + (Round4(|name| + 1) + 8), 8, ok, Space(|buf|, room))
    {
      RemoveAndPut(MapOf(recs), typ, name);
      var deleted := Del(typ);
      ghost var others := recs;
      ok, off := Append(typ, name);
      assert ok ==> recs[..|recs| - 1] == others;
    }
  }
}
