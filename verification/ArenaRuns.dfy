/** Whole runs of the system page (lib/syspage_memory.c:47-138). A run is a sequence of pages joined
by what the methods of Arena.SysPage establish: grow_syspage_section and set_syspage_section give
zeros to one section and store total_size, reloc_syspage_memory moves everything and stores size. */
module ArenaRuns {
  import opened Arena
  import opened Memory

  /** total and max are the fields total_size and size. */
  datatype Page = Page(mem: seq<byte>, sections: seq<Section>, owners: seq<nat>, total: nat, max: nat)

  /** add is the rounded size, max the new maximum. */
  datatype Op = Grow(i: nat, add: nat) | Move(max: nat)

  ghost predicate InMemory(p: Page) {
    forall j :: 0 <= j < |p.sections| ==> p.sections[j].End() <= |p.mem|
  }

  ghost function Content(p: Page, j: nat): (r: seq<byte>)
    requires InMemory(p) && j < |p.sections|
    ensures |r| == p.sections[j].size
  {
    Bytes(p.mem, p.sections[j])
  }

  ghost predicate Step(h: Header, p: Page, op: Op, q: Page) {
    && InMemory(p) && InMemory(q) && |q.sections| == |p.sections|
    && SameOwners(p.sections, p.owners, q.sections, q.owners)
    && match op
       case Grow(i, add) =>
         && q.total == p.total + add && q.max == p.max
         && (add > 0 ==> GrownPage(p.mem, q.mem, p.sections, q.sections, i, add, h.totalAt, h.word(q.total)))
         && (add == 0 ==> forall j :: 0 <= j < |p.sections| ==> Content(q, j) == Content(p, j))
       case Move(max) =>
         && q.total == p.total && q.max == max
         && forall j :: 0 <= j < |p.sections| ==> Content(q, j) == Stamped(j, Content(p, j), h.maxAt, h.word(max))
  }

  ghost predicate Run(h: Header, pages: seq<Page>, ops: seq<Op>) {
    && |pages| == |ops| + 1 && InMemory(pages[0])
    && forall n :: 0 <= n < |ops| ==> Step(h, pages[n], ops[n], pages[n + 1])
  }

  /** How many bytes one call gives to section j. */
  function Given(op: Op, j: nat): nat {
    if op.Grow? && op.i == j then op.add else 0
  }

  /** How many bytes the calls gave to section j. */
  function Added(ops: seq<Op>, j: nat): nat {
    if ops == [] then 0 else Added(ops[..|ops| - 1], j) + Given(ops[|ops| - 1], j)
  }

  /** How many bytes the calls gave to all sections. */
  function Total(ops: seq<Op>): nat {
    if ops == [] then
      0
    else
      var op := ops[|ops| - 1];
      Total(ops[..|ops| - 1]) + if op.Grow? then op.add else 0
  }

  /** The contents b of section j with both words of the header stored into it; only section 0, the
  header, is changed by that. */
  function Labelled(h: Header, j: nat, b: seq<byte>, total: nat, max: nat): (r: seq<byte>)
    ensures j > 0 ==> r == b
  {
    Stamped(j, Stamped(j, b, h.totalAt, h.word(total)), h.maxAt, h.word(max))
  }

  /** The header says how long the page is and how long it may get. */
  ghost predicate HeaderTrue(h: Header, p: Page) {
    && h.Sound() && InMemory(p) && p.sections != [] && h.size <= p.sections[0].size
    && Content(p, 0) == Labelled(h, 0, Content(p, 0), p.total, p.max)
  }

  /** The header of a new page is true. */
  lemma FreshIsTrue(h: Header, p: Page)
    requires h.Sound() && InMemory(p) && p.sections != [] && h.size <= p.sections[0].size
    requires forall k :: 0 <= k < p.sections[0].size ==> Content(p, 0)[k] == h.Fresh(k, p.total, p.max)
    ensures HeaderTrue(h, p)
  {
    assert Content(p, 0) == Labelled(h, 0, Content(p, 0), p.total, p.max);
  }

  /** A later total_size replaces the earlier one. */
  lemma TotalReplaced(h: Header, j: nat, b: seq<byte>, add: nat, total: nat, total': nat, max: nat)
    requires h.Sound() && (j == 0 ==> h.size <= |b|)
    ensures Stamped(j, Labelled(h, j, b, total, max) + Zeros(add), h.totalAt, h.word(total')) ==
      Labelled(h, j, b + Zeros(add), total', max)
  {
  }

  /** A later size replaces the earlier one. */
  lemma MaxReplaced(h: Header, j: nat, b: seq<byte>, total: nat, max: nat, max': nat)
    requires h.Sound() && (j == 0 ==> h.size <= |b|)
    ensures Stamped(j, Labelled(h, j, b, total, max), h.maxAt, h.word(max')) == Labelled(h, j, b, total, max')
  {
  }

  /** One call gives section j its zeros and brings the words up to date. */
  lemma StepAdds(h: Header, p: Page, op: Op, q: Page, j: nat, b: seq<byte>)
    requires Step(h, p, op, q) && j < |p.sections| && h.Sound() && (j == 0 ==> h.size <= |b|)
    requires Content(p, j) == Labelled(h, j, b, p.total, p.max)
    ensures Content(q, j) == Labelled(h, j, b + Zeros(Given(op, j)), q.total, q.max)
  {
    assert b + Zeros(0) == b;
    match op {
      case Grow(i, add) =>
        if add > 0 {
          assert GrownOne(p.mem, q.mem, p.sections, q.sections, i, add, h.totalAt, h.word(q.total), j);
          TotalReplaced(h, j, b, Given(op, j), p.total, q.total, p.max);
          assert Content(p, j) + Zeros(0) == Content(p, j);
        }
      case Move(max) =>
        MaxReplaced(h, j, b, p.total, p.max, max);
    }
  }

  /** Section j of q holds what it held in p and then the zeros of the calls, but for the header words. */
  ghost predicate KeptOne(h: Header, p: Page, q: Page, ops: seq<Op>, j: nat)
    requires InMemory(p) && InMemory(q) && j < |p.sections| == |q.sections|
  {
    Content(q, j) == Labelled(h, j, Content(p, j) + Zeros(Added(ops, j)), q.total, q.max)
  }

  lemma KeptFirst(h: Header, p: Page, j: nat)
    requires HeaderTrue(h, p) && j < |p.sections|
    ensures KeptOne(h, p, p, [], j)
  {
    assert Content(p, j) + Zeros(0) == Content(p, j);
  }

  lemma KeptNext(h: Header, first: Page, p: Page, ops: seq<Op>, op: Op, q: Page, j: nat)
    requires HeaderTrue(h, first) && Step(h, p, op, q) && j < |first.sections| == |p.sections| && KeptOne(h, first, p, ops, j)
    ensures KeptOne(h, first, q, ops + [op], j)
  {
    var b, was, add := Content(first, j), Added(ops, j), Given(op, j);
    StepAdds(h, p, op, q, j, b + Zeros(was));
    assert (ops + [op])[..|ops|] == ops;
    assert b + Zeros(was) + Zeros(add) == b + Zeros(was + add);
  }

  /** After any run every section holds what it held at first, followed by the zeros it was given and
  nothing else, but for the two words of the header, which say the page's true size and maximum; the
  size grew by what was given; and every registered address denotes the byte it denoted at first. */
  lemma {:induction false} RunKeepsContents(h: Header, pages: seq<Page>, ops: seq<Op>)
    requires Run(h, pages, ops) && HeaderTrue(h, pages[0])
    ensures var first, last := pages[0], pages[|ops|];
      && InMemory(last) && |last.sections| == |first.sections|
      && SameOwners(first.sections, first.owners, last.sections, last.owners)
      && last.total == first.total + Total(ops)
      && forall j: nat :: j < |first.sections| ==> KeptOne(h, first, last, ops, j)
  {
    var n, first := |ops|, pages[0];
    if n > 0 {
      var before, op, p, q := ops[..n - 1], ops[n - 1], pages[n - 1], pages[n];
      RunKeepsContents(h, pages[..n], before);
      assert Step(h, p, op, q) && before + [op] == ops;
      forall j: nat | j < |first.sections|
        ensures KeptOne(h, first, q, ops, j)
      {
        KeptNext(h, first, p, before, op, q, j);
      }
    } else {
      forall j: nat | j < |first.sections|
        ensures KeptOne(h, first, first, [], j)
      {
        KeptFirst(h, first, j);
      }
    }
  }

  /** Both words stored once more change nothing. */
  lemma LabelledTwice(h: Header, b: seq<byte>, total: nat, max: nat)
    requires h.Sound() && h.size <= |b|
    ensures Labelled(h, 0, Labelled(h, 0, b, total, max), total, max) == Labelled(h, 0, b, total, max)
  {
  }

  /** Whatever becomes of a new page, its header tells its size and its maximum. */
  lemma HeaderStaysTrue(h: Header, pages: seq<Page>, ops: seq<Op>)
    requires Run(h, pages, ops) && h.Sound() && pages[0].sections != [] && h.size <= pages[0].sections[0].size
    requires var p := pages[0]; forall k :: 0 <= k < p.sections[0].size ==> Content(p, 0)[k] == h.Fresh(k, p.total, p.max)
    ensures HeaderTrue(h, pages[|ops|])
  {
    var first, last := pages[0], pages[|ops|];
    FreshIsTrue(h, first);
    RunKeepsContents(h, pages, ops);
    assert KeptOne(h, first, last, ops, 0);
    LabelledTwice(h, Content(first, 0) + Zeros(Added(ops, 0)), last.total, last.max);
  }
}
