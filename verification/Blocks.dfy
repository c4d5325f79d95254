/** Lists of address ranges and the sets of addresses they stand for. */
module Blocks {
  /** A half-open range [addr, addr + size): struct ram_entry (lib/ram.c:28-31). */
  datatype Block = Block(addr: nat, size: nat) {
    function End(): nat {
      addr + size
    }

    predicate Has(x: nat) {
      addr <= x < addr + size
    }

    ghost predicate Disjoint(other: Block) {
      forall x: nat :: !(Has(x) && other.Has(x))
    }
  }

  /** Some block of the list holds x. */
  ghost predicate Covers(l: seq<Block>, x: nat) {
    exists i :: 0 <= i < |l| && l[i].Has(x)
  }

  /** Sorted, positive sizes, and a nonempty gap between neighbours: adjacent blocks are merged. */
  ghost predicate Canonical(l: seq<Block>) {
    && (forall i :: 0 <= i < |l| ==> l[i].size > 0)
    && (forall i, j :: 0 <= i < j < |l| ==> l[i].End() < l[j].addr)
  }

  lemma CoversConcat(a: seq<Block>, b: seq<Block>, x: nat)
    ensures Covers(a + b, x) <==> Covers(a, x) || Covers(b, x)
  {
    var c := a + b;
    if i :| 0 <= i < |a| && a[i].Has(x) {
      assert c[i].Has(x);
    }
    if i :| 0 <= i < |b| && b[i].Has(x) {
      assert c[|a| + i].Has(x);
    }
  }

  lemma CoversSplit(l: seq<Block>, r: nat, x: nat)
    requires r < |l|
    ensures Covers(l, x) <==> Covers(l[..r], x) || l[r].Has(x) || Covers(l[r + 1..], x)
  {
    assert l == l[..r] + ([l[r]] + l[r + 1..]);
    CoversConcat(l[..r], [l[r]] + l[r + 1..], x);
    CoversConcat([l[r]], l[r + 1..], x);
    assert [l[r]][0].Has(x) <==> Covers([l[r]], x);
  }

  lemma TailAbove(a: seq<Block>, x: nat)
    requires Canonical(a) && a != []
    ensures Covers(a[1..], x) ==> a[0].End() < x && !a[0].Has(x)
  {
    if Covers(a[1..], x) {
      var i :| 0 <= i < |a[1..]| && a[1..][i].Has(x);
      assert a[0].End() < a[i + 1].addr;
    }
  }

  /** The address just behind a canonical block is not covered. */
  lemma EndNotCovered(l: seq<Block>, i: nat)
    requires Canonical(l) && i < |l|
    ensures !Covers(l, l[i].End())
  {
    forall j | 0 <= j < |l|
      ensures !l[j].Has(l[i].End())
    {
      if j < i {
        assert l[j].End() < l[i].addr;
      } else if i < j {
        assert l[i].End() < l[j].addr;
      }
    }
  }

  /** The first block of a canonical list is determined by the set it covers. */
  lemma FirstBlock(a: seq<Block>, b: seq<Block>)
    requires Canonical(a) && Canonical(b) && a != []
    requires forall x: nat :: Covers(a, x) <==> Covers(b, x)
    ensures b != [] && b[0].addr <= a[0].addr && (a[0].addr == b[0].addr ==> b[0].End() <= a[0].End())
  {
    assert a[0].Has(a[0].addr);
    assert Covers(b, a[0].addr);
    var i :| 0 <= i < |b| && b[i].Has(a[0].addr);
    assert b[0].addr <= b[i].addr;
    EndNotCovered(a, 0);
    assert !b[0].Has(a[0].End());
  }

  /** Two canonical lists that cover the same addresses are the same list. */
  lemma {:induction false} CanonicalUnique(a: seq<Block>, b: seq<Block>)
    requires Canonical(a) && Canonical(b)
    requires forall x: nat :: Covers(a, x) <==> Covers(b, x)
    ensures a == b
  {
    if a == [] {
      if b != [] {
        assert Covers(b, b[0].addr);
      }
    } else {
      assert Covers(a, a[0].addr);
      FirstBlock(a, b);
      FirstBlock(b, a);
      assert a[0] == b[0];
      forall x: nat
        ensures Covers(a[1..], x) <==> Covers(b[1..], x)
      {
        CoversSplit(a, 0, x);
        CoversSplit(b, 0, x);
        TailAbove(a, x);
        TailAbove(b, x);
      }
      CanonicalUnique(a[1..], b[1..]);
      assert a == [a[0]] + a[1..];
      assert b == [b[0]] + b[1..];
    }
  }
}
