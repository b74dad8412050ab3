/**
 * Laws every run of kmalloc and kfree obeys, and exactly when a run keeps the headers from overlapping
 * and the ranges handed out clear of them. With splits charged 12 bytes it always does; as shipped it need not.
 */
module HeapLaws {
  import opened Words
  import opened HeapList
  import opened HeapShape

  // ----- kmalloc then kfree -----

  /** The two calls cancel; a split leaves the block larger by the uncharged part of its header. */
  lemma MallocThenFree(bs: Blocks, n: nat, charge: nat)
    requires Coalesced(bs) && charge <= HEADER && MallocResult(bs, n) != NULL
    requires MallocLoose(bs, n, charge)
    ensures var i := FirstFit(bs, n);
      && i < |bs|
      && Free(Malloc(bs, n, charge), i)
      == if Splits(bs[i], n, charge) then bs[i := bs[i].(size := bs[i].size + HEADER - charge)] else bs
  {
    var i := FirstFit(bs, n);
    assert i > 0 ==> !bs[i - 1].free;
    assert i + 1 < |bs| ==> !bs[i + 1].free;
    if Splits(bs[i], n, charge) {
      SplitThenFree(bs, i, n, charge);
    } else {
      assert Take(bs, i, n, charge)[i := bs[i]] == bs;
    }
  }

  lemma SplitThenFree(bs: Blocks, i: nat, n: nat, charge: nat)
    requires i < |bs| && bs[i].Fits(n) && Splits(bs[i], n, charge) && charge <= HEADER
    requires i > 0 ==> !bs[i - 1].free
    ensures Free(Take(bs, i, n, charge), i) == bs[i := bs[i].(size := bs[i].size + HEADER - charge)]
  {
    var taken := Take(bs, i, n, charge);
    var grown := bs[i := bs[i].(size := bs[i].size + HEADER - charge)];
    var marked := taken[i := taken[i].(free := true)];
    assert taken[i + 1].free;
    assert Absorb(marked, i) == grown;
    assert FreeForward(taken, i) == grown;
    assert i > 0 ==> !grown[i - 1].free;
  }

  // ----- whole runs -----

  /** Release names the block that is freed, by its position in the list. */
  datatype Op = Alloc(n: nat) | Release(i: nat)

  datatype Heap = Heap(bs: Blocks, splits: nat) {
    /** Only allocated blocks are freed. */
    ghost predicate Legal(op: Op)
    {
      op.Release? ==> op.i < |bs| && !bs[op.i].free
    }

    /** The header the call forges, if any, overlaps no other. */
    ghost predicate Fits(op: Op, charge: nat)
    {
      op.Alloc? ==> MallocLoose(bs, op.n, charge)
    }

    /** The range the call hands out, if any, is clear as well. */
    ghost predicate Grants(op: Op, charge: nat)
    {
      op.Alloc? ==> Grantable(bs, op.n, charge)
    }

    ghost function Step(op: Op, charge: nat): Heap
      requires Legal(op)
    {
      match op
      case Alloc(n) => Heap(Malloc(bs, n, charge), if MallocSplits(bs, n, charge) then splits + 1 else splits)
      case Release(i) => Heap(Free(bs, i), splits)
    }
  }

  ghost predicate LegalRun(h: Heap, ops: seq<Op>, charge: nat)
    decreases |ops|
  {
    ops == [] || (h.Legal(ops[0]) && LegalRun(h.Step(ops[0], charge), ops[1..], charge))
  }

  ghost function Run(h: Heap, ops: seq<Op>, charge: nat): Heap
    requires LegalRun(h, ops, charge)
    decreases |ops|
  {
    if ops == [] then h else Run(h.Step(ops[0], charge), ops[1..], charge)
  }

  /** Every header forged in the run overlaps no other. */
  ghost predicate LooseRun(h: Heap, ops: seq<Op>, charge: nat)
    requires LegalRun(h, ops, charge)
    decreases |ops|
  {
    ops == [] || (h.Fits(ops[0], charge) && LooseRun(h.Step(ops[0], charge), ops[1..], charge))
  }

  /** Every header forged ends before the next one, and so does every whole block handed out. */
  ghost predicate GrantRun(h: Heap, ops: seq<Op>, charge: nat)
    requires LegalRun(h, ops, charge)
    decreases |ops|
  {
    ops == [] || (h.Grants(ops[0], charge) && GrantRun(h.Step(ops[0], charge), ops[1..], charge))
  }

  /** In every state of the run the headers are disjoint and in the page, so the bytes still describe the list. */
  ghost predicate DisjointRun(h: Heap, ops: seq<Op>, charge: nat)
    requires LegalRun(h, ops, charge)
    decreases |ops|
  {
    Disjoint(h.bs) && (ops == [] || DisjointRun(h.Step(ops[0], charge), ops[1..], charge))
  }

  /** In every state of the run the ranges handed out are clear of each other and of all headers. */
  ghost predicate SafeRun(h: Heap, ops: seq<Op>, charge: nat)
    requires LegalRun(h, ops, charge)
    decreases |ops|
  {
    Clean(h.bs) && (ops == [] || SafeRun(h.Step(ops[0], charge), ops[1..], charge))
  }

  lemma StepDisjoint(h: Heap, op: Op, charge: nat)
    requires Disjoint(h.bs) && h.Legal(op)
    ensures Disjoint(h.Step(op, charge).bs) <==> h.Fits(op, charge)
  {
    match op
    case Alloc(n) =>
      var i := FirstFit(h.bs, n);
      if i < |h.bs| {
        SplitDisjointExactly(h.bs, i, n, charge);
      }
    case Release(i) => FreeDisjoint(h.bs, i);
  }

  lemma StepSafe(h: Heap, op: Op, charge: nat)
    requires Clean(h.bs) && h.Legal(op)
    ensures Clean(h.Step(op, charge).bs) <==> h.Grants(op, charge)
  {
    match op
    case Alloc(n) =>
      var i := FirstFit(h.bs, n);
      if i < |h.bs| {
        TakeSafeExactly(h.bs, i, n, charge);
      }
    case Release(i) =>
      FreeSeparated(h.bs, i);
      FreeShape(h.bs, i);
  }

  /** The headers stay disjoint throughout a run exactly when every header forged in it overlaps no other. */
  lemma {:induction false} DisjointExactly(h: Heap, ops: seq<Op>, charge: nat)
    requires LegalRun(h, ops, charge) && Disjoint(h.bs)
    ensures DisjointRun(h, ops, charge) <==> LooseRun(h, ops, charge)
    decreases |ops|
  {
    if ops != [] {
      var next := h.Step(ops[0], charge);
      StepDisjoint(h, ops[0], charge);
      if Disjoint(next.bs) {
        DisjointExactly(next, ops[1..], charge);
      }
    }
  }

  /** The ranges handed out stay clear throughout a run exactly when every call in it may be granted. */
  lemma {:induction false} SafeExactly(h: Heap, ops: seq<Op>, charge: nat)
    requires LegalRun(h, ops, charge) && Clean(h.bs)
    ensures SafeRun(h, ops, charge) <==> GrantRun(h, ops, charge)
    decreases |ops|
  {
    if ops != [] {
      var next := h.Step(ops[0], charge);
      StepSafe(h, ops[0], charge);
      if Clean(next.bs) {
        SafeExactly(next, ops[1..], charge);
      }
    }
  }

  /** With splits charged for their header every run from an exact layout is granted. */
  lemma {:induction false} ChargedRuns(h: Heap, ops: seq<Op>)
    requires LegalRun(h, ops, HEADER) && Tiled(h.bs)
    ensures LooseRun(h, ops, HEADER) && GrantRun(h, ops, HEADER)
    decreases |ops|
  {
    if ops != [] {
      StepTiled(h, ops[0], HEADER);
      if ops[0].Alloc? {
        ChargedGrantable(h.bs, ops[0].n);
      }
      ChargedRuns(h.Step(ops[0], HEADER), ops[1..]);
    }
  }

  // ----- what every run keeps -----

  /** The heap heap_init leaves. */
  const BOOT := Heap(INITIAL, 0)

  ghost predicate ChargeOk(charge: nat)
  {
    charge == 0 || charge == HEADER
  }

  /** Bytes claimed beyond the page: each uncharged split invents one header. */
  function Excess(splits: nat, charge: nat): nat
  {
    if charge == HEADER then 0 else HEADER * splits
  }

  /** What every reachable heap satisfies. */
  ghost predicate Sound(h: Heap, charge: nat)
  {
    && Disjoint(h.bs)
    && Coalesced(h.bs)
    && NoHoles(h.bs)
    && Footprint(h.bs) == PAGE + Excess(h.splits, charge)
    && (charge == HEADER || h.splits == 0 ==> Tiled(h.bs))
  }

  lemma StepTiled(h: Heap, op: Op, charge: nat)
    requires Tiled(h.bs) && h.Legal(op)
    requires charge == HEADER || h.Step(op, charge).splits == h.splits
    ensures Tiled(h.Step(op, charge).bs)
  {
    match op
    case Alloc(n) =>
      var i := FirstFit(h.bs, n);
      if i < |h.bs| {
        TakeTiled(h.bs, i, n, charge);
      }
    case Release(i) => FreeTiled(h.bs, i);
  }

  lemma StepSound(h: Heap, op: Op, charge: nat)
    requires ChargeOk(charge) && h.Legal(op) && Sound(h, charge)
    requires charge == 0 ==> h.Fits(op, charge)
    ensures Sound(h.Step(op, charge), charge)
  {
    if charge == HEADER || h.Step(op, charge).splits == 0 {
      StepTiled(h, op, charge);
    }
    match op
    case Alloc(n) =>
      if charge == HEADER {
        ChargedGrantable(h.bs, n);
      }
      var i := FirstFit(h.bs, n);
      if i < |h.bs| {
        SplitDisjointExactly(h.bs, i, n, charge);
        TakeCoalesced(h.bs, i, n, charge);
        TakeNoHoles(h.bs, i, n, charge);
        TakeFootprint(h.bs, i, n, charge);
      }
    case Release(i) =>
      FreeDisjoint(h.bs, i);
      FreeCoalesced(h.bs, i);
      FreeShape(h.bs, i);
      FreeFootprint(h.bs, i);
  }

  lemma {:induction false} RunSound(h: Heap, ops: seq<Op>, charge: nat)
    requires ChargeOk(charge) && Sound(h, charge) && LegalRun(h, ops, charge)
    requires charge == 0 ==> LooseRun(h, ops, charge)
    ensures Sound(Run(h, ops, charge), charge)
    decreases |ops|
  {
    if ops != [] {
      StepSound(h, ops[0], charge);
      RunSound(h.Step(ops[0], charge), ops[1..], charge);
    }
  }

  /**
   * After every run whose forged headers overlap no other: the headers are disjoint, no byte lies between the blocks,
   * neighbours are never both free, the claimed bytes are the page plus the uncharged header bytes
   * of the splits made, and the list is an exact layout of the page if and only if splits are
   * charged or none has happened.
   */
  lemma RunLaws(ops: seq<Op>, charge: nat)
    requires ChargeOk(charge) && LegalRun(BOOT, ops, charge)
    requires charge == 0 ==> LooseRun(BOOT, ops, charge)
    ensures var h := Run(BOOT, ops, charge);
      && Disjoint(h.bs) && NoHoles(h.bs)
      && Coalesced(h.bs)
      && Footprint(h.bs) == PAGE + Excess(h.splits, charge)
      && (Tiled(h.bs) <==> charge == HEADER || h.splits == 0)
  {
    assert Claim(INITIAL, 0) == 0;
    RunSound(BOOT, ops, charge);
    var h := Run(BOOT, ops, charge);
    if Tiled(h.bs) {
      TiledFootprint(h.bs);
    }
  }

  ghost predicate AllFree(bs: Blocks)
  {
    forall i :: 0 <= i < |bs| ==> bs[i].free
  }

  lemma SomeTaken(bs: Blocks)
    requires Coalesced(bs) && |bs| > 1
    ensures !AllFree(bs)
  {
    assert bs[0].free ==> !bs[1].free;
  }

  /** Once everything is freed a single free block remains. */
  lemma AllFreed(ops: seq<Op>, charge: nat)
    requires ChargeOk(charge) && LegalRun(BOOT, ops, charge)
    requires charge == 0 ==> LooseRun(BOOT, ops, charge)
    requires AllFree(Run(BOOT, ops, charge).bs)
    ensures var h := Run(BOOT, ops, charge);
      && |h.bs| == 1
      && h.bs[0].free
      && h.bs[0].size == PAGE - HEADER + Excess(h.splits, charge)
  {
    var h := Run(BOOT, ops, charge);
    RunLaws(ops, charge);
    if |h.bs| > 1 {
      SomeTaken(h.bs);
    }
    assert Claim(h.bs, 0) == 0;
  }

  // ----- what the shipped split does -----

  /** Two blocks of 100 bytes taken from boot and the first one freed again, with charge 0. */
  const FRONT: seq<Op> := [Alloc(100), Alloc(100), Release(0)]

  const FRONT_FREED := Heap([Block(BASE, 100, true), Block(BASE + 112, 100, false), Block(BASE + 224, 3884, true)], 2)

  /** A run, one call at a time. */
  lemma Unroll(h: Heap, op: Op, rest: seq<Op>, charge: nat)
    requires h.Legal(op) && LegalRun(h.Step(op, charge), rest, charge)
    ensures LegalRun(h, [op] + rest, charge)
    ensures Run(h, [op] + rest, charge) == Run(h.Step(op, charge), rest, charge)
    ensures LooseRun(h, [op] + rest, charge) <==> h.Fits(op, charge) && LooseRun(h.Step(op, charge), rest, charge)
    ensures GrantRun(h, [op] + rest, charge) <==> h.Grants(op, charge) && GrantRun(h.Step(op, charge), rest, charge)
  {
    assert ([op] + rest)[1..] == rest;
  }

  lemma AfterFront(rest: seq<Op>)
    requires LegalRun(FRONT_FREED, rest, 0)
    ensures LegalRun(BOOT, FRONT + rest, 0)
    ensures Run(BOOT, FRONT + rest, 0) == Run(FRONT_FREED, rest, 0)
    ensures LooseRun(BOOT, FRONT + rest, 0) <==> LooseRun(FRONT_FREED, rest, 0)
    ensures GrantRun(BOOT, FRONT + rest, 0) <==> GrantRun(FRONT_FREED, rest, 0)
  {
    var h1 := BOOT.Step(Alloc(100), 0);
    assert h1 == Heap([Block(BASE, 100, false), Block(BASE + 112, 3984, true)], 1);
    assert FirstFit(h1.bs, 100) == 1;
    var h2 := h1.Step(Alloc(100), 0);
    assert h2 == Heap([Block(BASE, 100, false), Block(BASE + 112, 100, false), Block(BASE + 224, 3884, true)], 2);
    assert h2.Step(Release(0), 0) == FRONT_FREED;
    var ops2 := [Release(0)] + rest;
    Unroll(h2, Release(0), rest, 0);
    Unroll(h1, Alloc(100), ops2, 0);
    Unroll(BOOT, Alloc(100), [Alloc(100)] + ops2, 0);
    assert FRONT + rest == [Alloc(100)] + ([Alloc(100)] + ops2);
  }

  /**
   * A further kmalloc(95) is granted although its new header, at BASE + 107, lies over the live
   * header at BASE + 112: the run is legal and leaves a list the bytes cannot hold.
   */
  lemma HeaderForgedOverHeader()
    ensures LegalRun(BOOT, FRONT + [Alloc(95)], 0) && !LooseRun(BOOT, FRONT + [Alloc(95)], 0)
    ensures var h := Run(BOOT, FRONT + [Alloc(95)], 0);
      && |h.bs| == 4
      && h.bs[1] == Block(BASE + 107, 5, true) && h.bs[2] == Block(BASE + 112, 100, false)
      && !Disjoint(h.bs)
      && Footprint(h.bs) == PAGE + 36
  {
    AfterFront([Alloc(95)]);
    var h := FRONT_FREED.Step(Alloc(95), 0);
    assert FirstFit(FRONT_FREED.bs, 95) == 0;
    assert h == Heap([Block(BASE, 95, false), Block(BASE + 107, 5, true), Block(BASE + 112, 100, false), Block(BASE + 224, 3884, true)], 3);
    Unroll(FRONT_FREED, Alloc(95), [], 0);
    assert !Off(h.bs, 1, 2);
    assert Claim(h.bs, 4) == Claim(h.bs, 3) + HEADER + 3884;
    assert Claim(h.bs, 2) == Claim(h.bs, 1) + HEADER + 5;
  }

  /**
   * Two calls of kmalloc(50) instead keep all headers disjoint, and the second hands out a range that
   * ends at BASE + 124, over the live header at BASE + 112.
   */
  lemma RangeOverHeader()
    ensures LegalRun(BOOT, FRONT + [Alloc(50), Alloc(50)], 0)
    ensures LooseRun(BOOT, FRONT + [Alloc(50), Alloc(50)], 0) && !GrantRun(BOOT, FRONT + [Alloc(50), Alloc(50)], 0)
    ensures var h := Run(BOOT, FRONT + [Alloc(50), Alloc(50)], 0);
      && |h.bs| == 4
      && h.bs[1] == Block(BASE + 62, 50, false) && h.bs[1].End() == BASE + 124
      && h.bs[2] == Block(BASE + 112, 100, false)
  {
    var h1 := FRONT_FREED.Step(Alloc(50), 0);
    assert FirstFit(FRONT_FREED.bs, 50) == 0;
    assert h1 == Heap([Block(BASE, 50, false), Block(BASE + 62, 50, true), Block(BASE + 112, 100, false), Block(BASE + 224, 3884, true)], 3);
    assert FirstFit(h1.bs, 50) == 1;
    var h2 := h1.Step(Alloc(50), 0);
    Unroll(h1, Alloc(50), [], 0);
    Unroll(FRONT_FREED, Alloc(50), [Alloc(50)], 0);
    assert [Alloc(50)] + [Alloc(50)] == [Alloc(50), Alloc(50)];
    AfterFront([Alloc(50), Alloc(50)]);
  }

  /** After two rounds of kmalloc(50) and kfree instead, the first block claims 24 bytes more than it has. */
  const GROWN := Heap([Block(BASE, 124, true), Block(BASE + 112, 100, false), Block(BASE + 224, 3884, true)], 4)

  lemma Round(size: nat, splits: nat, rest: seq<Op>)
    requires size > 50
    requires var tail := [Block(BASE + 112, 100, false), Block(BASE + 224, 3884, true)];
      LegalRun(Heap([Block(BASE, size + 12, true)] + tail, splits + 1), rest, 0)
    requires size <= 112
    ensures var tail := [Block(BASE + 112, 100, false), Block(BASE + 224, 3884, true)];
      var h, r, ops := Heap([Block(BASE, size, true)] + tail, splits), Heap([Block(BASE, size + 12, true)] + tail, splits + 1), [Alloc(50), Release(0)] + rest;
      && LegalRun(h, ops, 0)
      && Run(h, ops, 0) == Run(r, rest, 0)
      && (LooseRun(h, ops, 0) <==> LooseRun(r, rest, 0))
      && (GrantRun(h, ops, 0) <==> GrantRun(r, rest, 0))
  {
    var tail := [Block(BASE + 112, 100, false), Block(BASE + 224, 3884, true)];
    var h := Heap([Block(BASE, size, true)] + tail, splits);
    var h1 := h.Step(Alloc(50), 0);
    assert FirstFit(h.bs, 50) == 0;
    assert h1 == Heap([Block(BASE, 50, false), Block(BASE + 62, size - 50, true)] + tail, splits + 1);
    var h2 := h1.Step(Release(0), 0);
    assert h2 == Heap([Block(BASE, size + 12, true)] + tail, splits + 1);
    Unroll(h1, Release(0), rest, 0);
    Unroll(h, Alloc(50), [Release(0)] + rest, 0);
    assert [Alloc(50), Release(0)] + rest == [Alloc(50)] + ([Release(0)] + rest);
  }

  const ROUNDS: seq<Op> := [Alloc(50), Release(0), Alloc(50), Release(0)]

  lemma AfterRounds(rest: seq<Op>)
    requires LegalRun(GROWN, rest, 0)
    ensures LegalRun(BOOT, FRONT + (ROUNDS + rest), 0)
    ensures Run(BOOT, FRONT + (ROUNDS + rest), 0) == Run(GROWN, rest, 0)
    ensures LooseRun(BOOT, FRONT + (ROUNDS + rest), 0) <==> LooseRun(GROWN, rest, 0)
    ensures GrantRun(BOOT, FRONT + (ROUNDS + rest), 0) <==> GrantRun(GROWN, rest, 0)
  {
    var tail := [Block(BASE + 112, 100, false), Block(BASE + 224, 3884, true)];
    assert GROWN.bs == [Block(BASE, 124, true)] + tail && FRONT_FREED.bs == [Block(BASE, 100, true)] + tail;
    var round: seq<Op> := [Alloc(50), Release(0)];
    Round(112, 3, rest);
    Round(100, 2, round + rest);
    assert ROUNDS + rest == round + (round + rest);
    AfterFront(ROUNDS + rest);
  }

  /**
   * A further kmalloc(112) puts its header at BASE + 124, behind the live one at BASE + 112: no headers
   * overlap, the bytes still describe the list, which is out of address order, and the header lies on the
   * first bytes of the range handed out at BASE + 124.
   */
  lemma HeaderOutOfOrder()
    ensures var ops := FRONT + (ROUNDS + [Alloc(112)]);
      && LegalRun(BOOT, ops, 0) && LooseRun(BOOT, ops, 0) && !GrantRun(BOOT, ops, 0)
      && var h := Run(BOOT, ops, 0);
      && |h.bs| == 4
      && h.bs[1] == Block(BASE + 124, 12, true)
      && h.bs[2] == Block(BASE + 112, 100, false) && h.bs[2].User() == BASE + 124
      && Disjoint(h.bs) && !Separated(h.bs)
  {
    var h := GROWN.Step(Alloc(112), 0);
    assert FirstFit(GROWN.bs, 112) == 0;
    assert h == Heap([Block(BASE, 112, false), Block(BASE + 124, 12, true), Block(BASE + 112, 100, false), Block(BASE + 224, 3884, true)], 5);
    Unroll(GROWN, Alloc(112), [], 0);
    assert [Alloc(112)] + [] == [Alloc(112)];
    AfterRounds([Alloc(112)]);
    assert !Before(h.bs, 1, 2);
  }

  /**
   * As shipped (charge 0): after kmalloc(100) from boot, kmalloc(3984) is granted although
   * its range ends 12 bytes past the page.
   */
  lemma ShippedSplitOverrunsPage()
    ensures LegalRun(BOOT, [Alloc(100), Alloc(3984)], 0)
    ensures var h := Run(BOOT, [Alloc(100), Alloc(3984)], 0);
      && h.bs == [Block(BASE, 100, false), Block(BASE + 112, 3984, false)]
      && h.bs[1].End() == LIMIT + 12
      && h.splits == 1
  {
    var h1 := BOOT.Step(Alloc(100), 0);
    assert h1 == Heap([Block(BASE, 100, false), Block(BASE + 112, 3984, true)], 1);
    assert FirstFit(h1.bs, 3984) == 1;
    var h2 := h1.Step(Alloc(3984), 0);
    Unroll(h1, Alloc(3984), [], 0);
    Unroll(BOOT, Alloc(100), [Alloc(3984)], 0);
    assert [Alloc(100)] + [Alloc(3984)] == [Alloc(100), Alloc(3984)];
  }
}
