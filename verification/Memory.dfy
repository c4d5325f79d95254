/** Physical memory as an array of bytes, and the routines that copy inside it
(lib/memcpy.c, lib/memmove.c, lib/memfuncs.c). Addresses are indices: the machine runs one to one. */
module Memory {
  import opened Align

  newtype byte = x: int | 0 <= x < 256

  function Zeros(n: nat): (r: seq<byte>)
    ensures |r| == n
    ensures forall i :: 0 <= i < n ==> r[i] == 0
  {
    seq(n, _ => 0)
  }

  /** b' is b after the four bytes w were stored at at. */
  ghost predicate WordPut<T>(b: seq<T>, b': seq<T>, at: nat, w: seq<T>) {
    && |b'| == |b| && at + 4 <= |b| && |w| == 4
    && (forall i :: at <= i < at + 4 ==> b'[i] == w[i - at])
    && forall i :: 0 <= i < |b| && !(at <= i < at + 4) ==> b'[i] == b[i]
  }

  /** m' is m after n bytes from src went to dst all at once: each destination byte is the byte
  that was in the source, and every other byte stays. */
  ghost predicate Moved<T>(m: seq<T>, m': seq<T>, dst: nat, src: nat, n: nat) {
    && |m'| == |m| && dst + n <= |m| && src + n <= |m|
    && (forall i :: 0 <= i < |m| && !(dst <= i < dst + n) ==> m'[i] == m[i])
    && (forall i :: dst <= i < dst + n ==> m'[i] == m[src + (i - dst)])
  }

  ghost predicate Filled<T>(m: seq<T>, m': seq<T>, dst: nat, n: nat, v: T) {
    && |m'| == |m| && dst + n <= |m|
    && forall i :: 0 <= i < |m| ==> m'[i] == if dst <= i < dst + n then v else m[i]
  }

  /** A forward copy may be done in two steps when the destination does not run into the source. */
  lemma MovedInSteps<T>(m: seq<T>, m': seq<T>, m'': seq<T>, dst: nat, src: nat, a: nat, b: nat)
    requires dst <= src || src + a + b <= dst
    requires Moved(m, m', dst, src, a) && Moved(m', m'', dst + a, src + a, b)
    ensures Moved(m, m'', dst, src, a + b)
  {
    forall i | dst <= i < dst + a + b
      ensures m''[i] == m[src + (i - dst)]
    {
      if dst + a <= i {
        var j := src + a + (i - (dst + a));
        assert m''[i] == m'[j];
      } else {
        assert m''[i] == m'[i];
      }
    }
  }

  /** How many words the unrolled loop of memcpy copies: its counter n is 32 bits wide. */
  function DuffWords(words: nat): nat
    requires words > 0
  {
    var n := (words + 15) / 16 % TWO_32;
    var rounds := if n == 0 then TWO_32 else n;
    (if words % 16 == 0 then 16 else words % 16) + 16 * (rounds - 1)
  }

  lemma DuffBelow(words: nat)
    requires words > 0
    ensures DuffWords(words) <= words
  {
    var q := (words + 15) / 16;
    assert words == (if words % 16 == 0 then 16 else words % 16) + 16 * (q - 1);
  }

  /** The unrolled loop copies every word exactly up to 2^36 words. */
  lemma DuffIsComplete(words: nat)
    requires words > 0
    ensures DuffWords(words) == words <==> words <= 0x10_0000_0000
  {
    var q := (words + 15) / 16;
    assert words == (if words % 16 == 0 then 16 else words % 16) + 16 * (q - 1);
  }

  /** A 32-bit store. */
  method PutWord(mem: array<byte>, at: nat, w: seq<byte>)
    requires at + 4 <= mem.Length && |w| == 4
    modifies mem
    ensures WordPut(old(mem[..]), mem[..], at, w)
  {
    mem[at], mem[at + 1], mem[at + 2], mem[at + 3] := w[0], w[1], w[2], w[3];
  }

  method CopyWord(mem: array<byte>, d: nat, s: nat)
    requires d + 4 <= mem.Length && s + 4 <= mem.Length
    modifies mem
    ensures Moved(old(mem[..]), mem[..], d, s, 4)
  {
    mem[d], mem[d + 1], mem[d + 2], mem[d + 3] := mem[s], mem[s + 1], mem[s + 2], mem[s + 3];
  }

  /** One burst of the unrolled loop. */
  method CopyWords(mem: array<byte>, d0: nat, s0: nat, count: nat)
    requires d0 + 4 * count <= mem.Length && s0 + 4 * count <= mem.Length
    requires d0 <= s0 || s0 + 4 * count <= d0
    modifies mem
    ensures Moved(old(mem[..]), mem[..], d0, s0, 4 * count)
  {
    ghost var m0 := mem[..];
    for w := 0 to count
      invariant Moved(m0, mem[..], d0, s0, 4 * w)
    {
      ghost var m1 := mem[..];
      CopyWord(mem, d0 + 4 * w, s0 + 4 * w);
      MovedInSteps(m0, m1, mem[..], d0, s0, 4 * w, 4);
    }
  }

  /** The do-while itself; n counts down in 32 bits from rounds. */
  method CopyRounds(mem: array<byte>, dst: nat, src: nat, first: nat, n0: nat, ghost rounds: nat)
      returns (d: nat, s: nat)
    requires 1 <= first <= 16 && 1 <= rounds <= TWO_32
    requires n0 == if rounds == TWO_32 then 0 else rounds
    requires var bytes := 4 * (first + 16 * (rounds - 1));
      && dst + bytes <= mem.Length && src + bytes <= mem.Length
      && (dst <= src || src + bytes <= dst)
    modifies mem
    ensures Moved(old(mem[..]), mem[..], dst, src, 4 * (first + 16 * (rounds - 1)))
    ensures d == dst + 4 * (first + 16 * (rounds - 1)) && s == src + 4 * (first + 16 * (rounds - 1))
  {
    ghost var m0 := mem[..];
    ghost var bytes := 4 * (first + 16 * (rounds - 1));
    var n, burst := n0, first;
    d, s := dst, src;
    ghost var left: nat := rounds;
    while true
      invariant 1 <= left <= TWO_32 && n == if left == TWO_32 then 0 else left
      invariant dst <= d && s - src == d - dst
      invariant d + 4 * (burst + 16 * (left - 1)) == dst + bytes
      invariant Moved(m0, mem[..], dst, src, d - dst)
      decreases left
    {
      ghost var m1 := mem[..];
      CopyWords(mem, d, s, burst);
      MovedInSteps(m0, m1, mem[..], dst, src, d - dst, 4 * burst);
      d, s := d + 4 * burst, s + 4 * burst;
      burst := 16;
      n := if n == 0 then TWO_32 - 1 else n - 1;
      left := left - 1;
      if n == 0 {
        return;
      }
    }
  }

  /** The word loop of memcpy: entered at words % 16, then rounds of sixteen. */
  method CopyDuff(mem: array<byte>, dst: nat, src: nat, words: nat) returns (d: nat, s: nat)
    requires words > 0 && dst + 4 * words <= mem.Length && src + 4 * words <= mem.Length
    requires dst <= src || src + 4 * words <= dst
    modifies mem
    ensures DuffWords(words) <= words && Moved(old(mem[..]), mem[..], dst, src, 4 * DuffWords(words))
    ensures d == dst + 4 * DuffWords(words) && s == src + 4 * DuffWords(words)
  {
    DuffBelow(words);
    var n := (words + 15) / 16 % TWO_32;
    var first := if words % 16 == 0 then 16 else words % 16;
    d, s := CopyRounds(mem, dst, src, first, n, if n == 0 then TWO_32 else n);
  }

  lemma WordsAndBytes(n: nat)
    ensures n == 4 * (n / 4) + n % 4
  {
  }

  /** The remaining bytes of memcpy, one at a time. */
  method CopyBytes(mem: array<byte>, d0: nat, s0: nat, count: nat)
    requires d0 + count <= mem.Length && s0 + count <= mem.Length
    requires d0 <= s0 || s0 + count <= d0
    modifies mem
    ensures Moved(old(mem[..]), mem[..], d0, s0, count)
  {
    ghost var m0 := mem[..];
    var d, s, left := d0, s0, count;
    while left > 0
      invariant 0 <= left <= count && d == d0 + (count - left) && s == s0 + (count - left)
      invariant Moved(m0, mem[..], d0, s0, count - left)
    {
      ghost var m1 := mem[..];
      mem[d] := mem[s];
      MovedInSteps(m0, m1, mem[..], d0, s0, count - left, 1);
      d, s, left := d + 1, s + 1, left - 1;
    }
  }

  /** How many bytes memcpy copies. */
  function MemcpyBytes(dst: nat, src: nat, nbytes: nat): nat {
    if nbytes >= 4 && src % 4 == 0 && dst % 4 == 0 then 4 * DuffWords(nbytes / 4) + nbytes % 4 else nbytes
  }

  /** It copies all of them exactly if an address is not word aligned or there are at most 2^36 words. */
  lemma MemcpyIsComplete(dst: nat, src: nat, nbytes: nat)
    ensures MemcpyBytes(dst, src, nbytes) <= nbytes
    ensures MemcpyBytes(dst, src, nbytes) == nbytes <==>
      src % 4 != 0 || dst % 4 != 0 || nbytes / 4 <= 0x10_0000_0000
  {
    WordsAndBytes(nbytes);
    if nbytes >= 4 {
      DuffBelow(nbytes / 4);
      DuffIsComplete(nbytes / 4);
    }
  }

  /** The first half of memcpy: words when both addresses are word aligned. */
  method MemcpyWords(mem: array<byte>, dst: nat, src: nat, nbytes: nat) returns (d: nat, s: nat, left: nat)
    requires dst + nbytes <= mem.Length && src + nbytes <= mem.Length
    requires dst <= src || src + nbytes <= dst
    modifies mem
    ensures left <= MemcpyBytes(dst, src, nbytes) <= nbytes
    ensures d == dst + (MemcpyBytes(dst, src, nbytes) - left) && s == src + (MemcpyBytes(dst, src, nbytes) - left)
    ensures Moved(old(mem[..]), mem[..], dst, src, MemcpyBytes(dst, src, nbytes) - left)
  {
    MemcpyIsComplete(dst, src, nbytes);
    d, s, left := dst, src, nbytes;
    if nbytes >= 4 && src % 4 == 0 && dst % 4 == 0 {
      WordsAndBytes(nbytes);
      d, s := CopyDuff(mem, dst, src, nbytes / 4);
      left := nbytes % 4;
    }
  }

  /** memcpy: words, then the remaining bytes one at a time. */
  method Memcpy(mem: array<byte>, dst: nat, src: nat, nbytes: nat)
    requires dst + nbytes <= mem.Length && src + nbytes <= mem.Length
    requires dst <= src || src + nbytes <= dst
    modifies mem
    ensures Moved(old(mem[..]), mem[..], dst, src, MemcpyBytes(dst, src, nbytes))
  {
    ghost var m0 := mem[..];
    var d, s, left := MemcpyWords(mem, dst, src, nbytes);
    ghost var m1 := mem[..];
    CopyBytes(mem, d, s, left);
    MovedInSteps(m0, m1, mem[..], dst, src, d - dst, left);
  }

  /** A backward copy grows at its front, below everything it has written. */
  lemma BackwardStep<T>(m: seq<T>, m': seq<T>, m'': seq<T>, dst: nat, src: nat, n: nat)
    requires src < dst
    requires Moved(m, m', dst + 1, src + 1, n) && Moved(m', m'', dst, src, 1)
    ensures Moved(m, m'', dst, src, n + 1)
  {
    forall i | dst <= i < dst + n + 1
      ensures m''[i] == m[src + (i - dst)]
    {
      if dst < i {
        assert m''[i] == m'[i];
      }
    }
  }

  /** How many bytes memmove moves. */
  function MemmoveBytes(dst: nat, src: nat, n: nat): nat {
    if src < dst < src + n then n else MemcpyBytes(dst, src, n)
  }

  /** memmove: backwards when the destination starts inside the source, memcpy otherwise. */
  method Memmove(mem: array<byte>, dst: nat, src: nat, n: nat)
    requires dst + n <= mem.Length && src + n <= mem.Length
    modifies mem
    ensures Moved(old(mem[..]), mem[..], dst, src, MemmoveBytes(dst, src, n))
    ensures n < 0x40_0000_0004 ==> Moved(old(mem[..]), mem[..], dst, src, n)
  {
    ghost var m0 := mem[..];
    if src < dst && src + n > dst {
      var len := n;
      while len > 0
        invariant 0 <= len <= n
        invariant Moved(m0, mem[..], dst + len, src + len, n - len)
      {
        ghost var m1 := mem[..];
        len := len - 1;
        mem[dst + len] := mem[src + len];
        BackwardStep(m0, m1, mem[..], dst + len, src + len, n - len - 1);
      }
    } else {
      Memcpy(mem, dst, src, n);
      MemcpyIsComplete(dst, src, n);
    }
  }

  method Memset(mem: array<byte>, dst: nat, v: byte, n: nat)
    requires dst + n <= mem.Length
    modifies mem
    ensures Filled(old(mem[..]), mem[..], dst, n, v)
  {
    ghost var m0 := mem[..];
    for i := 0 to n
      invariant forall k :: 0 <= k < mem.Length ==> mem[k] == if dst <= k < dst + i then v else m0[k]
    {
      mem[dst + i] := v;
    }
  }

  /** Byte x of the result when the destination lies d > 0 behind the source and chunks of c bytes
  are moved in order: a source byte that an earlier chunk overwrote is the result's own byte x - d. */
  function ChunkedByte<T>(m: seq<T>, src: nat, d: nat, c: nat, x: nat): T
    requires src + x < |m| && d > 0 && c > 0
    decreases x
  {
    if d <= x && x - d < x - x % c then ChunkedByte(m, src, d, c, x - d) else m[src + x]
  }

  /** m' is m after len bytes from src went to dst in chunks of c bytes. */
  ghost predicate MovedInChunks<T>(m: seq<T>, m': seq<T>, dst: nat, src: nat, len: nat, c: nat) {
    && |m'| == |m| && dst + len <= |m| && src + len <= |m| && (len > 0 ==> c > 0)
    && (forall i :: 0 <= i < |m| && !(dst <= i < dst + len) ==> m'[i] == m[i])
    && forall i :: dst <= i < dst + len ==>
         m'[i] == if dst <= src then m[src + (i - dst)] else ChunkedByte(m, src, dst - src, c, i - dst)
  }

  /** One more chunk of amount bytes behind k whole ones. */
  lemma ChunkMoved<T>(m: seq<T>, m1: seq<T>, m': seq<T>, dst: nat, src: nat, len: nat, c: nat, k: nat, amount: nat)
    requires MovedInChunks(m, m1, dst, src, len, c) && len == k * c && 0 < amount <= c
    requires Moved(m1, m', dst + len, src + len, amount)
    ensures MovedInChunks(m, m', dst, src, len + amount, c)
  {
    forall i | dst + len <= i < dst + len + amount
      ensures m'[i] == if dst <= src then m[src + (i - dst)] else ChunkedByte(m, src, dst - src, c, i - dst)
    {
      var x := i - dst;
      DivModUnique(x, c, k, x - len);
      assert m'[i] == m1[src + len + (i - (dst + len))] == m1[src + x];
      if src < dst && dst - src <= x && x - (dst - src) < len {
        assert m1[src + x] == ChunkedByte(m, src, dst - src, c, x - (dst - src));
      }
    }
  }

  lemma NextMultiple(k: nat, c: nat)
    ensures (k + 1) * c == k * c + c
  {
  }

  /** The loop of copy_memory with chunks of max bytes. */
  method CopyChunks(mem: array<byte>, dst0: nat, src0: nat, len0: nat, max: nat)
    requires dst0 + len0 <= mem.Length && src0 + len0 <= mem.Length
    requires len0 == 0 || 0 < max < TWO_32
    modifies mem
    ensures MovedInChunks(old(mem[..]), mem[..], dst0, src0, len0, max)
  {
    ghost var m0, k: nat := mem[..], 0;
    var dst, src, len := dst0, src0, len0;
    while true
      invariant 0 <= len <= len0 && len0 - len == k * max
      invariant dst == dst0 + (len0 - len) && src == src0 + (len0 - len)
      invariant MovedInChunks(m0, mem[..], dst0, src0, len0 - len, max)
      invariant len > 0 || len0 == 0
      decreases len
    {
      var amount := if len > max then max else len;
      ghost var m1 := mem[..];
      Memmove(mem, dst, src, amount);
      if amount > 0 {
        ChunkMoved(m0, m1, mem[..], dst0, src0, len0 - len, max, k, amount);
      }
      len := len - amount;
      if len == 0 {
        return;
      }
      src, dst := src + amount, dst + amount;
      NextMultiple(k, max);
      k := k + 1;
    }
  }

  /** `unsigned max = len` */
  function ChunkSize(len: nat): nat {
    len % TWO_32
  }

  /** Short copies, and copies whose destination does not lie behind the source and inside it. */
  lemma ChunksMove<T>(m: seq<T>, m': seq<T>, dst: nat, src: nat, len: nat)
    requires MovedInChunks(m, m', dst, src, len, ChunkSize(len))
    requires len < TWO_32 || dst <= src || src + len <= dst
    ensures Moved(m, m', dst, src, len)
  {
    if src < dst {
      forall i | dst <= i < dst + len
        ensures m'[i] == m[src + (i - dst)]
      {
        if len < TWO_32 {
          DivModUnique(i - dst, len, 0, i - dst);
        }
      }
    }
  }

  /** copy_memory (lib/memfuncs.c:34-56). Its chunk size is the length cut to 32 bits, so a
  positive multiple of 2^32 bytes never gets anywhere (ChunkStalls) and longer copies go forward in
  chunks of that size (ChunksMoveExactly). */
  method CopyMemory(mem: array<byte>, dst: nat, src: nat, len: nat)
    requires dst + len <= mem.Length && src + len <= mem.Length
    requires len == 0 || ChunkSize(len) > 0
    modifies mem
    ensures MovedInChunks(old(mem[..]), mem[..], dst, src, len, ChunkSize(len))
    ensures len < TWO_32 || dst <= src || src + len <= dst ==> Moved(old(mem[..]), mem[..], dst, src, len)
  {
    ghost var m0 := mem[..];
    CopyChunks(mem, dst, src, len, ChunkSize(len));
    if len < TWO_32 || dst <= src || src + len <= dst {
      ChunksMove(m0, mem[..], dst, src, len);
    }
  }

  /** A byte that a long overlapping copy gets wrong: it is one that an earlier chunk overwrote. */
  function WrongByte(d: nat, c: nat): nat {
    if d >= c then d else c
  }

  lemma WholeChunks(d: nat, c: nat)
    requires 0 < c <= d
    ensures d - d % c > 0
  {
    assert d % c < c;
  }

  lemma WrongByteIs<T>(m: seq<T>, dst: nat, src: nat, len: nat)
    requires len >= TWO_32 && src < dst < src + len && src + len <= |m| && ChunkSize(len) > 0
    ensures var d, c := dst - src, ChunkSize(len); var x := WrongByte(d, c);
      x < len && ChunkedByte(m, src, d, c, x) == m[src + x - d]
  {
    var d, c := dst - src, ChunkSize(len);
    var x := WrongByte(d, c);
    assert x >= c;
    if d >= c {
      WholeChunks(d, c);
      DivModUnique(0, c, 0, 0);
    } else {
      DivModUnique(c, c, 1, 0);
      DivModUnique(c - d, c, 0, c - d);
    }
  }

  /** Memory that holds a single one shows the wrong byte. */
  lemma LongOverlapFails(size: nat, dst: nat, src: nat, len: nat) returns (m: seq<byte>, m': seq<byte>)
    requires dst + len <= size && src + len <= size && ChunkSize(len) > 0
    requires len >= TWO_32 && src < dst < src + len
    ensures |m| == size && MovedInChunks(m, m', dst, src, len, ChunkSize(len)) && !Moved(m, m', dst, src, len)
  {
    var d, c := dst - src, ChunkSize(len);
    var x := WrongByte(d, c);
    m := seq(size, i requires 0 <= i < size => if i == src + x then 1 else 0);
    WrongByteIs(m, dst, src, len);
    m' := seq(size, i requires 0 <= i < size =>
      if dst <= i < dst + len then ChunkedByte(m, src, d, c, i - dst) else m[i]);
    assert m'[dst + x] != m[src + x];
  }

  /** Moving in chunks is moving, whatever memory holds, exactly for lengths of at most 32 bits and for
  destinations that do not lie behind the source and inside it. */
  lemma ChunksMoveExactly(size: nat, dst: nat, src: nat, len: nat)
    requires dst + len <= size && src + len <= size && ChunkSize(len) > 0
    ensures (forall m: seq<byte>, m': seq<byte> | |m| == size && MovedInChunks(m, m', dst, src, len, ChunkSize(len)) ::
               Moved(m, m', dst, src, len))
       <==> len < TWO_32 || dst <= src || src + len <= dst
  {
    if len < TWO_32 || dst <= src || src + len <= dst {
      forall m: seq<byte>, m': seq<byte> | |m| == size && MovedInChunks(m, m', dst, src, len, ChunkSize(len))
        ensures Moved(m, m', dst, src, len)
      {
        ChunksMove(m, m', dst, src, len);
      }
    } else {
      var m, m' := LongOverlapFails(size, dst, src, len);
    }
  }

  /** One round of copy_memory moves no byte exactly when the length is a positive multiple of 2^32. */
  lemma ChunkStalls(len: nat)
    requires len > 0
    ensures (if len > ChunkSize(len) then ChunkSize(len) else len) == 0 <==> exists k: nat :: len == k * TWO_32
  {
    if ChunkSize(len) == 0 {
      assert len == (len / TWO_32) * TWO_32;
    }
  }
}
