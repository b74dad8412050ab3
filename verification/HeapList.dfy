/**
 * The kernel heap as the list of blocks its headers describe: first fit, splitting,
 * coalescing, and what one call keeps.
 *
 * A split charges the leftover with `charge` bytes: 0 is what the code does, 12 is
 * the header that heap_init and kfree account for.
 */
module HeapList {
  import opened Words

  const BASE := 0x100_0000
  const PAGE := 4096
  const HEADER := 12
  const LIMIT := BASE + PAGE

  datatype Block = Block(addr: nat, size: nat, free: bool) {
    function User(): nat { addr + HEADER }

    function End(): nat { addr + HEADER + size }

    predicate Fits(n: nat) { free && size >= n }
  }

  type Blocks = seq<Block>

  const INITIAL: Blocks := [Block(BASE, PAGE - HEADER, true)]

  // ----- operations -----

  /** Index of the first free block, from `from` on, with n bytes; |bs| when there is none. */
  function FirstFit(bs: Blocks, n: nat, from: nat := 0): (i: nat)
    requires from <= |bs|
    ensures from <= i <= |bs|
    ensures forall j :: from <= j < i ==> !bs[j].Fits(n)
    ensures i < |bs| ==> bs[i].Fits(n)
    decreases |bs| - from
  {
    if from == |bs| || bs[from].Fits(n) then from else FirstFit(bs, n, from + 1)
  }

  /** bs with b put in before position i. */
  function Inserted(bs: Blocks, i: nat, b: Block): Blocks
    requires i <= |bs|
  {
    seq(|bs| + 1, k requires 0 <= k <= |bs| => if k < i then bs[k] else if k == i then b else bs[k - 1])
  }

  /** bs without the block at position i. */
  function Removed(bs: Blocks, i: nat): Blocks
    requires i < |bs|
  {
    seq(|bs| - 1, k requires 0 <= k < |bs| - 1 => if k < i then bs[k] else bs[k + 1])
  }

  predicate Splits(b: Block, n: nat, charge: nat)
  {
    b.size > n + charge
  }

  /** Block i handed out for n bytes. */
  function Take(bs: Blocks, i: nat, n: nat, charge: nat): Blocks
    requires i < |bs| && bs[i].Fits(n)
  {
    var b := bs[i];
    if Splits(b, n, charge) then
      Inserted(bs[i := Block(b.addr, n, false)], i + 1, Block(b.User() + n, b.size - n - charge, true))
    else
      bs[i := b.(free := false)]
  }

  function Malloc(bs: Blocks, n: nat, charge: nat): Blocks
  {
    var i := FirstFit(bs, n);
    if i == |bs| then bs else Take(bs, i, n, charge)
  }

  function MallocResult(bs: Blocks, n: nat): nat
  {
    var i := FirstFit(bs, n);
    if i == |bs| then NULL else bs[i].User()
  }

  predicate MallocSplits(bs: Blocks, n: nat, charge: nat)
  {
    var i := FirstFit(bs, n);
    i < |bs| && Splits(bs[i], n, charge)
  }

  /** Block i grown over its right neighbour and that neighbour's header. */
  function Absorb(bs: Blocks, i: nat): Blocks
    requires i + 1 < |bs|
  {
    Removed(bs[i := bs[i].(size := bs[i].size + HEADER + bs[i + 1].size)], i + 1)
  }

  function FreeForward(bs: Blocks, i: nat): Blocks
    requires i < |bs|
  {
    var marked := bs[i := bs[i].(free := true)];
    if i + 1 < |bs| && bs[i + 1].free then Absorb(marked, i) else marked
  }

  function Free(bs: Blocks, i: nat): Blocks
    requires i < |bs|
  {
    var merged := FreeForward(bs, i);
    if 0 < i && merged[i - 1].free then Absorb(merged, i - 1) else merged
  }

  // ----- what a block list may look like -----

  /** The blocks, headers included, cover the page exactly, in address order. */
  ghost predicate Tiled(bs: Blocks)
  {
    && bs != []
    && bs[0].addr == BASE
    && bs[|bs| - 1].End() == LIMIT
    && forall i :: 0 <= i < |bs| - 1 ==> bs[i + 1].addr == bs[i].End()
  }

  /** No two neighbours are both free. */
  ghost predicate Coalesced(bs: Blocks)
  {
    forall i {:trigger bs[i].free} :: 0 <= i < |bs| - 1 && bs[i].free ==> !bs[i + 1].free
  }

  /** Bytes claimed by the first k blocks, headers included. */
  function Claim(bs: Blocks, k: nat): nat
    requires k <= |bs|
  {
    if k == 0 then 0 else Claim(bs, k - 1) + HEADER + bs[k - 1].size
  }

  function Footprint(bs: Blocks): nat
  {
    Claim(bs, |bs|)
  }

  lemma {:induction false} ClaimUpdated(bs: Blocks, i: nat, b: Block, k: nat)
    requires i < |bs| && k <= |bs|
    ensures Claim(bs[i := b], k) == Claim(bs, k) + if i < k then b.size - bs[i].size else 0
  {
    if k > 0 {
      ClaimUpdated(bs, i, b, k - 1);
    }
  }

  lemma {:induction false} ClaimInserted(bs: Blocks, i: nat, b: Block, k: nat)
    requires i <= |bs| && k <= |bs| + 1
    ensures Claim(Inserted(bs, i, b), k) == if k <= i then Claim(bs, k) else Claim(bs, k - 1) + HEADER + b.size
  {
    if k > 0 {
      ClaimInserted(bs, i, b, k - 1);
    }
  }

  lemma {:induction false} ClaimRemoved(bs: Blocks, i: nat, k: nat)
    requires i < |bs| && k < |bs|
    ensures Claim(Removed(bs, i), k) == if k <= i then Claim(bs, k) else Claim(bs, k + 1) - HEADER - bs[i].size
  {
    if k > 0 {
      ClaimRemoved(bs, i, k - 1);
    }
  }

  // ----- one call -----

  lemma TakeFootprint(bs: Blocks, i: nat, n: nat, charge: nat)
    requires i < |bs| && bs[i].Fits(n) && charge <= HEADER
    ensures Footprint(Take(bs, i, n, charge))
         == Footprint(bs) + if Splits(bs[i], n, charge) then HEADER - charge else 0
  {
    var b := bs[i];
    var used := if Splits(b, n, charge) then Block(b.addr, n, false) else b.(free := false);
    ClaimUpdated(bs, i, used, |bs|);
    if Splits(b, n, charge) {
      ClaimInserted(bs[i := used], i + 1, Block(b.User() + n, b.size - n - charge, true), |bs| + 1);
    }
  }

  lemma AbsorbFootprint(bs: Blocks, i: nat)
    requires i + 1 < |bs|
    ensures Footprint(Absorb(bs, i)) == Footprint(bs)
  {
    var merged := bs[i].(size := bs[i].size + HEADER + bs[i + 1].size);
    ClaimUpdated(bs, i, merged, |bs|);
    ClaimRemoved(bs[i := merged], i + 1, |bs| - 1);
  }

  lemma FreeFootprint(bs: Blocks, i: nat)
    requires i < |bs|
    ensures Footprint(Free(bs, i)) == Footprint(FreeForward(bs, i)) == Footprint(bs)
  {
    var marked := bs[i := bs[i].(free := true)];
    ClaimUpdated(bs, i, marked[i], |bs|);
    if i + 1 < |bs| && bs[i + 1].free {
      AbsorbFootprint(marked, i);
    }
    var merged := FreeForward(bs, i);
    if 0 < i && merged[i - 1].free {
      AbsorbFootprint(merged, i - 1);
    }
  }

  lemma TakeTiled(bs: Blocks, i: nat, n: nat, charge: nat)
    requires Tiled(bs) && i < |bs| && bs[i].Fits(n)
    requires charge == HEADER || !Splits(bs[i], n, charge)
    ensures Tiled(Take(bs, i, n, charge))
  {
  }

  lemma AbsorbTiled(bs: Blocks, i: nat)
    requires Tiled(bs) && i + 1 < |bs|
    ensures Tiled(Absorb(bs, i))
  {
  }

  lemma FreeTiled(bs: Blocks, i: nat)
    requires Tiled(bs) && i < |bs|
    ensures Tiled(Free(bs, i))
  {
    var marked := bs[i := bs[i].(free := true)];
    assert Tiled(marked);
    if i + 1 < |bs| && bs[i + 1].free {
      AbsorbTiled(marked, i);
    }
    var merged := FreeForward(bs, i);
    if 0 < i && merged[i - 1].free {
      AbsorbTiled(merged, i - 1);
    }
  }

  lemma TakeCoalesced(bs: Blocks, i: nat, n: nat, charge: nat)
    requires Coalesced(bs) && i < |bs| && bs[i].Fits(n)
    ensures Coalesced(Take(bs, i, n, charge))
  {
    assert i + 1 < |bs| ==> !bs[i + 1].free;
    var r := Take(bs, i, n, charge);
    forall k | 0 <= k < |r| - 1 && r[k].free
      ensures !r[k + 1].free
    {
      if k < i {
        assert r[k] == bs[k];
      } else if k > i && Splits(bs[i], n, charge) {
        assert k > i + 1 ==> r[k] == bs[k - 1];
        assert r[k + 1] == bs[k];
      }
    }
  }

  lemma AbsorbCoalesced(bs: Blocks, i: nat)
    requires i + 1 < |bs|
    requires forall k {:trigger bs[k].free} :: 0 <= k < |bs| - 1 && k != i && bs[k].free ==> !bs[k + 1].free
    requires bs[i + 1].free ==> i + 2 < |bs| ==> !bs[i + 2].free
    requires bs[i].free == bs[i + 1].free
    ensures Coalesced(Absorb(bs, i))
  {
  }

  lemma FreeCoalesced(bs: Blocks, i: nat)
    requires Coalesced(bs) && i < |bs| && !bs[i].free
    ensures Coalesced(Free(bs, i))
  {
    var merged := FreeForward(bs, i);
    assert forall k :: 0 <= k < i ==> merged[k] == bs[k];
    assert merged[i].free;
    assert forall k {:trigger merged[k].free} :: 0 <= k < |merged| - 1 && k != i - 1 && merged[k].free ==> !merged[k + 1].free;
    if 0 < i && merged[i - 1].free {
      AbsorbCoalesced(merged, i - 1);
    }
  }

  /** Freeing a block that is free already changes nothing. */
  lemma FreeAgain(bs: Blocks, i: nat)
    requires Coalesced(bs) && i < |bs| && bs[i].free
    ensures FreeForward(bs, i) == Free(bs, i) == bs
  {
    assert bs[i := bs[i].(free := true)] == bs;
    assert i > 0 ==> !bs[i - 1].free;
  }

  lemma {:induction false} TiledClaim(bs: Blocks, k: nat)
    requires Tiled(bs) && k < |bs|
    ensures Claim(bs, k) == bs[k].addr - BASE
  {
    if k > 0 {
      TiledClaim(bs, k - 1);
    }
  }

  lemma TiledFootprint(bs: Blocks)
    requires Tiled(bs)
    ensures Footprint(bs) == PAGE
  {
    TiledClaim(bs, |bs| - 1);
  }

  lemma {:induction false} TiledOrder(bs: Blocks, i: nat, j: nat)
    requires Tiled(bs) && i < j < |bs|
    ensures bs[i].End() <= bs[j].addr && bs[j].End() <= LIMIT
    decreases |bs| - i
  {
    if i + 1 < j {
      TiledOrder(bs, i + 1, j);
    } else if j + 1 < |bs| {
      TiledOrder(bs, j, j + 1);
    }
  }

  // ----- what is allocated determines the list -----

  /** The same blocks are allocated in both lists. */
  ghost predicate SameTaken(a: Blocks, b: Blocks)
  {
    forall x: Block :: !x.free ==> (x in a <==> x in b)
  }

  /** In an exact layout an address names at most one block. */
  lemma TiledAddress(bs: Blocks, i: nat, j: nat)
    requires Tiled(bs) && i < |bs| && j < |bs| && bs[i].addr == bs[j].addr
    ensures i == j
  {
    if i < j {
      TiledOrder(bs, i, j);
    } else if j < i {
      TiledOrder(bs, j, i);
    }
  }

  /** A free block reaches to the next allocated one, which both lists have. */
  lemma FreeEndsLater(a: Blocks, b: Blocks, n: nat)
    requires Tiled(a) && Tiled(b) && Coalesced(a) && SameTaken(a, b) && n < |a| && n < |b|
    requires a[n].free && b[n].free && a[n].addr == b[n].addr
    ensures a[n].End() >= b[n].End()
  {
    if n + 1 < |a| {
      assert !a[n + 1].free;
      var j :| 0 <= j < |b| && b[j] == a[n + 1];
      if j < n {
        TiledOrder(b, j, n);
      } else if j > n {
        TiledOrder(b, n, j);
      }
    } else if n + 1 < |b| {
      TiledOrder(b, n, n + 1);
    }
  }

  /** A block of the other list at this address is here too, or free. */
  lemma SameThere(a: Blocks, b: Blocks, n: nat)
    requires Tiled(a) && Tiled(b) && Coalesced(a) && Coalesced(b) && SameTaken(a, b) && n < |a| && n < |b|
    requires a[n].addr == b[n].addr
    ensures a[n] == b[n]
  {
    if !a[n].free {
      var j :| 0 <= j < |b| && b[j] == a[n];
      TiledAddress(b, n, j);
    } else if !b[n].free {
      var j :| 0 <= j < |a| && a[j] == b[n];
      TiledAddress(a, n, j);
    } else {
      FreeEndsLater(a, b, n);
      FreeEndsLater(b, a, n);
    }
  }

  lemma {:induction false} SameBlock(a: Blocks, b: Blocks, n: nat)
    requires Tiled(a) && Tiled(b) && Coalesced(a) && Coalesced(b) && SameTaken(a, b) && n < |a| && n < |b|
    ensures a[n] == b[n]
  {
    if n > 0 {
      SameBlock(a, b, n - 1);
    }
    SameThere(a, b, n);
  }

  /** An exact, coalesced layout is determined by its allocated blocks: all the rest is free and as large as can be. */
  lemma TakenDetermines(a: Blocks, b: Blocks)
    requires Tiled(a) && Tiled(b) && Coalesced(a) && Coalesced(b) && SameTaken(a, b)
    ensures a == b
  {
    if |a| <= |b| {
      SamePrefix(a, b);
    } else {
      SamePrefix(b, a);
    }
  }

  lemma SamePrefix(a: Blocks, b: Blocks)
    requires Tiled(a) && Tiled(b) && Coalesced(a) && Coalesced(b) && SameTaken(a, b) && |a| <= |b|
    ensures a == b
  {
    forall n | 0 <= n < |a|
      ensures a[n] == b[n]
    {
      SameBlock(a, b, n);
    }
    if |a| < |b| {
      TiledOrder(b, |a| - 1, |a|);
    }
  }
}
