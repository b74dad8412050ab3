/**
 * Where the blocks of a list lie: when their headers do not overlap, when they lie in address order
 * with the ranges handed out clear of every header, and which calls keep it so.
 */
module HeapShape {
  import opened Words
  import opened HeapList

  /** The headers of blocks i and j do not overlap. */
  predicate Off(bs: Blocks, i: nat, j: nat)
    requires i < |bs| && j < |bs|
  {
    bs[i].addr + HEADER <= bs[j].addr || bs[j].addr + HEADER <= bs[i].addr
  }

  /** The list starts at the base of the page, and its headers lie in the page without overlap, in any order. */
  ghost predicate Disjoint(bs: Blocks)
  {
    && bs != []
    && bs[0].addr == BASE
    && (forall i :: 0 <= i < |bs| ==> BASE <= bs[i].addr && bs[i].addr + HEADER <= LIMIT)
    && (forall i, j {:trigger Off(bs, i, j)} :: 0 <= i < j < |bs| ==> Off(bs, i, j))
  }

  /** The header of block i ends before that of block j begins. */
  predicate Before(bs: Blocks, i: nat, j: nat)
    requires i < |bs| && j < |bs|
  {
    bs[i].addr + HEADER <= bs[j].addr
  }

  /** The same, in address order. */
  ghost predicate Separated(bs: Blocks)
  {
    && bs != []
    && bs[0].addr == BASE
    && (forall i :: 0 <= i < |bs| ==> BASE <= bs[i].addr && bs[i].addr + HEADER <= LIMIT)
    && (forall i, j {:trigger Before(bs, i, j)} :: 0 <= i < j < |bs| ==> Before(bs, i, j))
  }

  /** Where block i has to end: the next header, or the end of the page. */
  function Edge(bs: Blocks, i: nat): nat
    requires i < |bs|
  {
    if i + 1 < |bs| then bs[i + 1].addr else LIMIT
  }

  /** The range of block i ends before the next header and inside the page. */
  predicate Clear(bs: Blocks, i: nat)
    requires i < |bs|
  {
    bs[i].End() <= Edge(bs, i)
  }

  /** Every range handed out is clear. */
  ghost predicate LiveClear(bs: Blocks)
  {
    forall i {:trigger Clear(bs, i)} :: 0 <= i < |bs| && !bs[i].free ==> Clear(bs, i)
  }

  /** Headers in address order, and every range handed out clear of them and of the other ranges. */
  ghost predicate Clean(bs: Blocks)
  {
    Separated(bs) && LiveClear(bs)
  }

  /** Every block reaches its edge: no byte of the page is lost between blocks. */
  ghost predicate NoHoles(bs: Blocks)
  {
    forall i {:trigger Edge(bs, i)} :: 0 <= i < |bs| ==> Edge(bs, i) <= bs[i].End()
  }

  lemma Apart(bs: Blocks, i: nat, j: nat)
    requires Disjoint(bs) && i < |bs| && j < |bs| && i != j
    ensures Off(bs, i, j)
  {
    assert Off(bs, if i < j then i else j, if i < j then j else i);
  }

  lemma SeparatedDisjoint(bs: Blocks)
    requires Separated(bs)
    ensures Disjoint(bs)
  {
    forall i, j | 0 <= i < j < |bs|
      ensures Off(bs, i, j)
    {
      assert Before(bs, i, j);
    }
  }

  lemma EdgeBounds(bs: Blocks, i: nat)
    requires Separated(bs) && i < |bs|
    ensures bs[i].User() <= Edge(bs, i) <= LIMIT
    ensures forall j :: i < j < |bs| ==> Edge(bs, i) <= bs[j].addr
  {
    assert i + 1 < |bs| ==> Before(bs, i, i + 1);
    forall j | i < j < |bs|
      ensures Edge(bs, i) <= bs[j].addr
    {
      assert i + 1 < j ==> Before(bs, i + 1, j);
    }
  }

  /** An exact layout of the page has every good shape. */
  lemma TiledShape(bs: Blocks)
    requires Tiled(bs)
    ensures Separated(bs) && LiveClear(bs) && NoHoles(bs)
    ensures forall i {:trigger Clear(bs, i)} :: 0 <= i < |bs| ==> Clear(bs, i)
  {
    forall i, j | 0 <= i < j < |bs|
      ensures Before(bs, i, j)
    {
      TiledOrder(bs, i, j);
    }
    forall i | 0 <= i < |bs|
      ensures BASE <= bs[i].addr && bs[i].End() <= LIMIT
    {
      if i > 0 {
        TiledOrder(bs, 0, i);
      } else if |bs| > 1 {
        TiledOrder(bs, 0, 1);
      }
    }
  }

  // ----- kmalloc -----

  /** The header of a split at block i stays clear of the next header and inside the page. */
  predicate SplitFits(bs: Blocks, i: nat, n: nat)
    requires i < |bs|
  {
    bs[i].User() + n + HEADER <= Edge(bs, i)
  }

  /** What kmalloc has to find for the headers to stay in address order. */
  predicate MallocFits(bs: Blocks, n: nat, charge: nat)
  {
    MallocSplits(bs, n, charge) ==> SplitFits(bs, FirstFit(bs, n), n)
  }

  /** A header at address a lies in the page and overlaps none of the list. */
  ghost predicate Loose(bs: Blocks, a: nat)
  {
    a + HEADER <= LIMIT && forall k :: 0 <= k < |bs| ==> a + HEADER <= bs[k].addr || bs[k].addr + HEADER <= a
  }

  /** What kmalloc has to find for the headers not to overlap. */
  ghost predicate MallocLoose(bs: Blocks, n: nat, charge: nat)
  {
    MallocSplits(bs, n, charge) ==> Loose(bs, bs[FirstFit(bs, n)].User() + n)
  }

  /** In an ordered list a header that fits before the next one is loose. */
  lemma FitsLoose(bs: Blocks, i: nat, n: nat)
    requires Separated(bs) && i < |bs| && SplitFits(bs, i, n)
    ensures Loose(bs, bs[i].User() + n)
  {
    EdgeBounds(bs, i);
    forall k | 0 <= k < |bs|
      ensures bs[i].User() + n + HEADER <= bs[k].addr || bs[k].User() <= bs[i].User() + n
    {
      assert k < i ==> Before(bs, k, i);
    }
  }

  predicate TakeSafe(bs: Blocks, i: nat, n: nat, charge: nat)
    requires i < |bs|
  {
    if Splits(bs[i], n, charge) then SplitFits(bs, i, n) else Clear(bs, i)
  }

  /** What kmalloc has to find for the ranges handed out to stay clear as well. */
  predicate Grantable(bs: Blocks, n: nat, charge: nat)
  {
    var i := FirstFit(bs, n);
    i < |bs| ==> TakeSafe(bs, i, n, charge)
  }

  /** In an exact layout a split charged for its header always fits, and so does a whole block. */
  lemma ChargedGrantable(bs: Blocks, n: nat)
    requires Tiled(bs)
    ensures Grantable(bs, n, HEADER) && MallocFits(bs, n, HEADER) && MallocLoose(bs, n, HEADER)
  {
    TiledShape(bs);
    var i := FirstFit(bs, n);
    assert i < |bs| ==> Clear(bs, i);
    if MallocSplits(bs, n, HEADER) {
      FitsLoose(bs, i, n);
    }
  }

  lemma DisjointByAddress(bs: Blocks, r: Blocks)
    requires Disjoint(bs) && |r| == |bs|
    requires forall k :: 0 <= k < |bs| ==> r[k].addr == bs[k].addr
    ensures Disjoint(r)
  {
    forall i, j | 0 <= i < j < |bs|
      ensures Off(r, i, j)
    {
      assert Off(bs, i, j);
    }
  }

  lemma InsertDisjoint(bs: Blocks, i: nat, b: Block)
    requires Disjoint(bs) && 0 < i <= |bs| && BASE <= b.addr
    ensures Disjoint(Inserted(bs, i, b)) <==> Loose(bs, b.addr)
  {
    var r := Inserted(bs, i, b);
    if Loose(bs, b.addr) {
      forall j, k | 0 <= j < k < |r|
        ensures Off(r, j, k)
      {
        if j != i && k != i {
          Apart(bs, if j < i then j else j - 1, if k < i then k else k - 1);
        }
      }
    }
    if Disjoint(r) {
      assert r[i] == b;
      forall k | 0 <= k < |bs|
        ensures b.addr + HEADER <= bs[k].addr || bs[k].addr + HEADER <= b.addr
      {
        var k' := if k < i then k else k + 1;
        assert r[k'] == bs[k];
        Apart(r, i, k');
      }
    }
  }

  /**
   * After kmalloc takes block i the headers are disjoint and in the page, in whatever order, exactly when
   * the header of a split overlaps none of the others.
   */
  lemma SplitDisjointExactly(bs: Blocks, i: nat, n: nat, charge: nat)
    requires Disjoint(bs) && i < |bs| && bs[i].Fits(n)
    ensures Disjoint(Take(bs, i, n, charge)) <==> (Splits(bs[i], n, charge) ==> Loose(bs, bs[i].User() + n))
  {
    var used := if Splits(bs[i], n, charge) then Block(bs[i].addr, n, false) else bs[i].(free := false);
    DisjointByAddress(bs, bs[i := used]);
    if Splits(bs[i], n, charge) {
      InsertDisjoint(bs[i := used], i + 1, Block(bs[i].User() + n, bs[i].size - n - charge, true));
      assert Loose(bs[i := used], bs[i].User() + n) <==> Loose(bs, bs[i].User() + n) by {
        assert forall k :: 0 <= k < |bs| ==> bs[i := used][k].addr == bs[k].addr;
      }
    }
  }

  lemma SeparatedByAddress(bs: Blocks, r: Blocks)
    requires Separated(bs) && |r| == |bs|
    requires forall k :: 0 <= k < |bs| ==> r[k].addr == bs[k].addr
    ensures Separated(r)
  {
    forall i, j | 0 <= i < j < |bs|
      ensures Before(r, i, j)
    {
      assert Before(bs, i, j);
    }
  }

  lemma InsertSeparated(bs: Blocks, i: nat, b: Block)
    requires Separated(bs) && 0 < i <= |bs|
    requires bs[i - 1].addr + HEADER <= b.addr && b.addr + HEADER <= Edge(bs, i - 1)
    ensures Separated(Inserted(bs, i, b))
  {
    var r := Inserted(bs, i, b);
    forall j, k | 0 <= j < k < |r|
      ensures Before(r, j, k)
    {
      if k < i {
        assert Before(bs, j, k);
      } else if k == i {
        assert j < i - 1 ==> Before(bs, j, i - 1);
      } else if j == i {
        assert k > i + 1 ==> Before(bs, i, k - 1);
      } else {
        assert Before(bs, if j < i then j else j - 1, k - 1);
      }
    }
  }

  lemma TakeSeparated(bs: Blocks, i: nat, n: nat, charge: nat)
    requires Separated(bs) && i < |bs| && bs[i].Fits(n)
    requires Splits(bs[i], n, charge) ==> SplitFits(bs, i, n)
    ensures Separated(Take(bs, i, n, charge))
  {
    var used := if Splits(bs[i], n, charge) then Block(bs[i].addr, n, false) else bs[i].(free := false);
    SeparatedByAddress(bs, bs[i := used]);
    if Splits(bs[i], n, charge) {
      InsertSeparated(bs[i := used], i + 1, Block(bs[i].User() + n, bs[i].size - n - charge, true));
    }
  }

  /** The headers stay in address order, apart and in the page, exactly when the new one fits before the next. */
  lemma SplitSeparatedExactly(bs: Blocks, i: nat, n: nat, charge: nat)
    requires Separated(bs) && i < |bs| && bs[i].Fits(n)
    ensures Separated(Take(bs, i, n, charge)) <==> (Splits(bs[i], n, charge) ==> SplitFits(bs, i, n))
  {
    var r := Take(bs, i, n, charge);
    if Splits(bs[i], n, charge) && Separated(r) {
      assert r[i + 1].addr == bs[i].User() + n;
      assert i + 2 < |r| ==> Before(r, i + 1, i + 2) && r[i + 2] == bs[i + 1];
    } else if Splits(bs[i], n, charge) ==> SplitFits(bs, i, n) {
      TakeSeparated(bs, i, n, charge);
    }
  }

  /** Ranges held before the call are still held and still clear afterwards. */
  lemma TakeKeepsClear(bs: Blocks, i: nat, n: nat, charge: nat, k: nat)
    requires i < |bs| && bs[i].Fits(n) && k < |bs| && k != i
    ensures var r, k' := Take(bs, i, n, charge), if k > i && Splits(bs[i], n, charge) then k + 1 else k;
      k' < |r| && r[k'] == bs[k] && Edge(r, k') == Edge(bs, k)
  {
  }

  /**
   * After kmalloc takes block i the headers are in order and all ranges handed out are clear of them
   * exactly when: a split leaves its header room before the next one, a whole block ends before it.
   */
  lemma TakeSafeExactly(bs: Blocks, i: nat, n: nat, charge: nat)
    requires Clean(bs) && i < |bs| && bs[i].Fits(n)
    ensures Clean(Take(bs, i, n, charge)) <==> TakeSafe(bs, i, n, charge)
  {
    var r := Take(bs, i, n, charge);
    SplitSeparatedExactly(bs, i, n, charge);
    if TakeSafe(bs, i, n, charge) {
      forall k | 0 <= k < |r| && !r[k].free
        ensures Clear(r, k)
      {
        if k != i {
          var k0 := if k > i && Splits(bs[i], n, charge) then k - 1 else k;
          TakeKeepsClear(bs, i, n, charge, k0);
          assert Clear(bs, k0);
        }
      }
    } else if !Splits(bs[i], n, charge) {
      assert !Clear(r, i);
    }
  }

  lemma TakeNoHoles(bs: Blocks, i: nat, n: nat, charge: nat)
    requires NoHoles(bs) && i < |bs| && bs[i].Fits(n) && charge <= HEADER
    ensures NoHoles(Take(bs, i, n, charge))
  {
    var r := Take(bs, i, n, charge);
    assert Edge(bs, i) <= bs[i].End();
    forall k | 0 <= k < |r|
      ensures Edge(r, k) <= r[k].End()
    {
      var k0 := if k > i && Splits(bs[i], n, charge) then k - 1 else k;
      if k0 != i {
        TakeKeepsClear(bs, i, n, charge, k0);
        assert Edge(bs, k0) <= bs[k0].End();
      }
    }
  }

  // ----- kfree -----

  lemma RemoveDisjoint(bs: Blocks, i: nat)
    requires Disjoint(bs) && 0 < i < |bs|
    ensures Disjoint(Removed(bs, i))
  {
    var r := Removed(bs, i);
    forall j, k | 0 <= j < k < |r|
      ensures Off(r, j, k)
    {
      Apart(bs, if j < i then j else j + 1, if k < i then k else k + 1);
    }
  }

  lemma AbsorbDisjoint(bs: Blocks, i: nat)
    requires Disjoint(bs) && i + 1 < |bs|
    ensures Disjoint(Absorb(bs, i))
  {
    var grown := bs[i := bs[i].(size := bs[i].size + HEADER + bs[i + 1].size)];
    DisjointByAddress(bs, grown);
    RemoveDisjoint(grown, i + 1);
  }

  lemma FreeDisjoint(bs: Blocks, i: nat)
    requires Disjoint(bs) && i < |bs|
    ensures Disjoint(FreeForward(bs, i)) && Disjoint(Free(bs, i))
  {
    var marked := bs[i := bs[i].(free := true)];
    DisjointByAddress(bs, marked);
    if i + 1 < |bs| && bs[i + 1].free {
      AbsorbDisjoint(marked, i);
    }
    var merged := FreeForward(bs, i);
    if 0 < i && merged[i - 1].free {
      AbsorbDisjoint(merged, i - 1);
    }
  }

  /** Headers that do not overlap have different addresses. */
  lemma OneAtAddress(bs: Blocks, i: nat, b: Block)
    requires Disjoint(bs) && i < |bs| && b in bs && b.addr == bs[i].addr
    ensures b == bs[i]
  {
    var j :| 0 <= j < |bs| && bs[j] == b;
    if j != i {
      Apart(bs, i, j);
    }
  }

  /** After kfree the allocated blocks are exactly those before, without the one freed. */
  lemma FreeReleases(bs: Blocks, i: nat, b: Block)
    requires Disjoint(bs) && i < |bs| && !b.free
    ensures b in Free(bs, i) <==> b in bs && b != bs[i]
  {
    var merged := FreeForward(bs, i);
    FreeForwardReleases(bs, i, b);
    if 0 < i && merged[i - 1].free {
      AbsorbTaken(merged, i - 1, b);
    }
  }

  lemma FreeForwardReleases(bs: Blocks, i: nat, b: Block)
    requires Disjoint(bs) && i < |bs| && !b.free
    ensures b in FreeForward(bs, i) <==> b in bs && b != bs[i]
    ensures FreeForward(bs, i)[i].free
  {
    var marked := bs[i := bs[i].(free := true)];
    if b in bs && b != bs[i] {
      var k :| 0 <= k < |bs| && bs[k] == b;
      assert marked[k] == b;
    }
    if b in marked {
      var k :| 0 <= k < |marked| && marked[k] == b;
      assert k != i && bs[k] == b;
      Apart(bs, i, k);
    }
    if i + 1 < |bs| && bs[i + 1].free {
      AbsorbTaken(marked, i, b);
    }
  }

  /** Merging two free blocks touches no allocated one. */
  lemma AbsorbTaken(bs: Blocks, i: nat, b: Block)
    requires i + 1 < |bs| && bs[i].free && bs[i + 1].free && !b.free
    ensures b in Absorb(bs, i) <==> b in bs
  {
    var r := Absorb(bs, i);
    if b in bs {
      var k :| 0 <= k < |bs| && bs[k] == b;
      assert r[if k < i then k else k - 1] == b;
    }
    if b in r {
      var k :| 0 <= k < |r| && r[k] == b;
      assert bs[if k < i then k else k + 1] == b;
    }
  }

  /** kmalloc takes no allocated block away. */
  lemma MallocKeeps(bs: Blocks, n: nat, charge: nat, k: nat)
    requires k < |bs| && !bs[k].free
    ensures bs[k] in Malloc(bs, n, charge)
  {
    var i := FirstFit(bs, n);
    var r := Malloc(bs, n, charge);
    assert r[if |r| == |bs| || k < i then k else k + 1] == bs[k];
  }

  /** After kmalloc they are those before and the one handed out: as large as asked for, or whole when too little would be left. */
  lemma MallocTakes(bs: Blocks, n: nat, charge: nat, b: Block)
    requires MallocResult(bs, n) != NULL && !b.free
    ensures var i := FirstFit(bs, n);
      && i < |bs|
      && (b in Malloc(bs, n, charge) <==>
          b in bs || b == Block(MallocResult(bs, n) - HEADER, if bs[i].size - n > charge then n else bs[i].size, false))
  {
    var i, r := FirstFit(bs, n), Malloc(bs, n, charge);
    assert r[i] == Block(bs[i].addr, if bs[i].size - n > charge then n else bs[i].size, false);
    if b in bs {
      var k :| 0 <= k < |bs| && bs[k] == b;
      MallocKeeps(bs, n, charge, k);
    }
    if b in r {
      var k :| 0 <= k < |r| && r[k] == b;
      TakenAmong(bs, n, charge, k);
    }
  }

  /** An allocated block of the new list is the one handed out or an old one. */
  lemma TakenAmong(bs: Blocks, n: nat, charge: nat, k: nat)
    requires MallocResult(bs, n) != NULL && k < |Malloc(bs, n, charge)| && !Malloc(bs, n, charge)[k].free
    ensures k == FirstFit(bs, n) || Malloc(bs, n, charge)[k] in bs
  {
    var i, r := FirstFit(bs, n), Malloc(bs, n, charge);
    if k < i {
      assert r[k] == bs[k];
    } else if k > i {
      assert r[k] == bs[if bs[i].size - n > charge then k - 1 else k];
    }
  }

  /** In an exact layout that fixes the list kfree leaves. */
  lemma FreeDetermined(bs: Blocks, i: nat, r: Blocks)
    requires Tiled(bs) && Coalesced(bs) && i < |bs| && !bs[i].free
    requires Tiled(r) && Coalesced(r) && forall b: Block :: !b.free ==> (b in r <==> b in bs && b != bs[i])
    ensures r == Free(bs, i)
  {
    TiledShape(bs);
    SeparatedDisjoint(bs);
    FreeTiled(bs, i);
    FreeCoalesced(bs, i);
    forall b: Block | !b.free
      ensures b in r <==> b in Free(bs, i)
    {
      FreeReleases(bs, i, b);
    }
    TakenDetermines(r, Free(bs, i));
  }

  lemma RemoveSeparated(bs: Blocks, i: nat)
    requires Separated(bs) && 0 < i < |bs|
    ensures Separated(Removed(bs, i))
  {
    var r := Removed(bs, i);
    forall j, k | 0 <= j < k < |r|
      ensures Before(r, j, k)
    {
      assert Before(bs, if j < i then j else j + 1, if k < i then k else k + 1);
    }
  }

  lemma AbsorbSeparated(bs: Blocks, i: nat)
    requires Separated(bs) && i + 1 < |bs|
    ensures Separated(Absorb(bs, i))
  {
    var grown := bs[i := bs[i].(size := bs[i].size + HEADER + bs[i + 1].size)];
    SeparatedByAddress(bs, grown);
    RemoveSeparated(grown, i + 1);
  }

  lemma FreeSeparated(bs: Blocks, i: nat)
    requires Separated(bs) && i < |bs|
    ensures Separated(FreeForward(bs, i)) && Separated(Free(bs, i))
  {
    var marked := bs[i := bs[i].(free := true)];
    SeparatedByAddress(bs, marked);
    if i + 1 < |bs| && bs[i + 1].free {
      AbsorbSeparated(marked, i);
    }
    var merged := FreeForward(bs, i);
    if 0 < i && merged[i - 1].free {
      AbsorbSeparated(merged, i - 1);
    }
  }

  lemma AbsorbShape(bs: Blocks, i: nat)
    requires i + 1 < |bs| && bs[i].free
    ensures LiveClear(bs) ==> LiveClear(Absorb(bs, i))
    ensures NoHoles(bs) ==> NoHoles(Absorb(bs, i))
  {
    var r := Absorb(bs, i);
    forall k | 0 <= k < |r| && k != i
      ensures var k0 := if k < i then k else k + 1; r[k] == bs[k0] && Edge(r, k) == Edge(bs, k0)
    {
    }
    if LiveClear(bs) {
      forall k | 0 <= k < |r| && !r[k].free
        ensures Clear(r, k)
      {
        assert Clear(bs, if k < i then k else k + 1);
      }
    }
    if NoHoles(bs) {
      assert Edge(bs, i) <= bs[i].End() && Edge(bs, i + 1) <= bs[i + 1].End();
      forall k | 0 <= k < |r|
        ensures Edge(r, k) <= r[k].End()
      {
        assert k != i ==> var k0 := if k < i then k else k + 1; Edge(bs, k0) <= bs[k0].End();
      }
    }
  }

  lemma MarkShape(bs: Blocks, i: nat)
    requires i < |bs|
    ensures var r := bs[i := bs[i].(free := true)];
      (LiveClear(bs) ==> LiveClear(r)) && (NoHoles(bs) ==> NoHoles(r))
  {
    var r := bs[i := bs[i].(free := true)];
    assert forall k :: 0 <= k < |bs| ==> r[k].End() == bs[k].End() && Edge(r, k) == Edge(bs, k);
    if LiveClear(bs) {
      forall k | 0 <= k < |r| && !r[k].free
        ensures Clear(r, k)
      {
        assert Clear(bs, k);
      }
    }
  }

  /** kfree never endangers a range, whatever the shape of the list. */
  lemma FreeShape(bs: Blocks, i: nat)
    requires i < |bs|
    ensures LiveClear(bs) ==> LiveClear(Free(bs, i))
    ensures NoHoles(bs) ==> NoHoles(Free(bs, i))
  {
    var marked := bs[i := bs[i].(free := true)];
    MarkShape(bs, i);
    if i + 1 < |bs| && bs[i + 1].free {
      AbsorbShape(marked, i);
    }
    var merged := FreeForward(bs, i);
    if 0 < i && merged[i - 1].free {
      AbsorbShape(merged, i - 1);
    }
  }

  // ----- disjoint ranges -----

  /** Ranges handed out lie in the page and, headers included, do not overlap. */
  lemma BlocksDisjoint(bs: Blocks, i: nat, j: nat)
    requires Clean(bs) && i < |bs| && j < |bs| && i != j
    requires !bs[i].free && !bs[j].free
    ensures bs[i].End() <= bs[j].addr || bs[j].End() <= bs[i].addr
    ensures BASE <= bs[i].addr && bs[i].End() <= LIMIT
  {
    assert Clear(bs, i) && Clear(bs, j);
    EdgeBounds(bs, i);
    EdgeBounds(bs, j);
  }

  // ----- when kmalloc fails -----

  /** Every address of the page belongs to some block, up to its edge. */
  lemma {:induction false} Locate(bs: Blocks, a: nat, k: nat := 0) returns (i: nat)
    requires k < |bs| && bs[k].addr <= a < LIMIT
    ensures i < |bs| && bs[i].addr <= a < Edge(bs, i)
    decreases |bs| - k
  {
    if a < Edge(bs, k) {
      i := k;
    } else {
      i := Locate(bs, a, k + 1);
    }
  }

  /** No allocated block, header included, covers address a. */
  ghost predicate Unused(bs: Blocks, a: nat)
  {
    forall i :: 0 <= i < |bs| && bs[i].addr <= a < bs[i].End() ==> bs[i].free
  }

  /** From a on there is room for a header and n bytes outside the allocated blocks. */
  ghost predicate Room(bs: Blocks, a: nat, n: nat)
  {
    BASE <= a && a + HEADER + n <= LIMIT && forall x :: a <= x < a + HEADER + n ==> Unused(bs, x)
  }

  /**
   * kmalloc(n) fails only when the page holds no stretch of n + 12 bytes outside the allocated
   * blocks, so the list never fragments free memory; and when it may be granted, exactly then.
   */
  lemma FailsOnlyWhenFull(bs: Blocks, n: nat, charge: nat)
    requires Disjoint(bs) && Coalesced(bs) && NoHoles(bs)
    ensures MallocResult(bs, n) == NULL ==> forall a :: !Room(bs, a, n)
    ensures Clean(bs) && Grantable(bs, n, charge) ==>
              (MallocResult(bs, n) == NULL <==> forall a :: !Room(bs, a, n))
  {
    var i := FirstFit(bs, n);
    if i < |bs| && Clean(bs) && Grantable(bs, n, charge) {
      TakenIsRoom(bs, i, n);
    }
    forall a | Room(bs, a, n)
      ensures i < |bs|
    {
      RoomInsideBlock(bs, a, n);
    }
  }

  lemma TakenIsRoom(bs: Blocks, i: nat, n: nat)
    requires Clean(bs) && i < |bs| && bs[i].free
    requires bs[i].User() + n <= Edge(bs, i)
    ensures Room(bs, bs[i].addr, n)
  {
    EdgeBounds(bs, i);
    forall j | 0 <= j < |bs| && !bs[j].free
      ensures bs[j].End() <= bs[i].addr || Edge(bs, i) <= bs[j].addr
    {
      assert Clear(bs, j);
      EdgeBounds(bs, j);
    }
  }

  lemma RoomInsideBlock(bs: Blocks, a: nat, n: nat)
    requires Disjoint(bs) && Coalesced(bs) && NoHoles(bs) && Room(bs, a, n)
    ensures exists i :: 0 <= i < |bs| && bs[i].Fits(n)
  {
    var i := Locate(bs, a);
    assert Edge(bs, i) <= bs[i].End();
    assert Unused(bs, a) && bs[i].free;
    if i + 1 < |bs| {
      assert !bs[i + 1].free;
      assert !Unused(bs, bs[i + 1].addr);
    }
    assert bs[i].Fits(n);
  }
}
