/** src/heap.c over the bytes of its page: the headers live inside the memory they manage. */
module KernelHeap {
  import opened Words
  import opened HeapList
  import opened HeapShape
  import opened HeapBytes
  import L = HeapLaws
  import R = HeapRuns

  class KernelHeap {
    const mem: array<byte>   // the page mapped at BASE
    const charge: nat        // bytes charged for the header of a split: 0 as shipped
    var first: word          // heap_first
    ghost var bs: Blocks     // the list the headers describe

    ghost predicate Valid()
      reads this, mem
    {
      && mem.Length == PAGE
      && first == BASE
      && L.ChargeOk(charge)
      && Layout(mem[..], bs)
      && Coalesced(bs)
      && NoHoles(bs)
      && Footprint(bs) < 0x8000_0000
      && (charge == HEADER ==> Tiled(bs))
    }

    /** heap_init, once the page has been mapped. */
    constructor (page: array<byte>, charge: nat)
      requires page.Length == PAGE && L.ChargeOk(charge)
      modifies page
      ensures Valid() && mem == page && this.charge == charge
      ensures bs == INITIAL
    {
      this.mem := page;
      this.charge := charge;
      this.first := BASE;
      this.bs := INITIAL;
      new;
      FirstHeader(mem[..]);
      Store(mem, 0, PAGE - HEADER);
      Store(mem, 4, 1);
      Store(mem, 8, NULL);
    }

    /**
     * With charge 0 the header of a split may overlap others: the headers then no longer describe the list,
     * and what is left in the bytes is what R.Next says. Only a header that leaves the page is excluded.
     */
    method Kmalloc(requested: word) returns (p: word)
      requires Valid()
      requires charge == 0 ==> HeaderInside(bs, requested, charge) && Footprint(bs) + HEADER < 0x8000_0000
      modifies mem, `bs
      ensures Valid() <==> MallocLoose(old(bs), requested, charge)
      ensures bs == Malloc(old(bs), requested, charge)
      ensures p == MallocResult(old(bs), requested)
      ensures p == NULL ==> forall a :: !Room(old(bs), a, requested)
      ensures p != NULL ==> exists b :: b in bs && !b.free && b.addr + HEADER == p && b.size >= requested
      ensures p != NULL && MallocLoose(old(bs), requested, charge) ==> forall q :: Live(bs, q) <==> Live(old(bs), q) || q == p
      ensures Clean(old(bs)) && MallocFits(old(bs), requested, charge) ==> LiveKept(old(bs), bs, old(mem[..]), mem[..])
      ensures Clean(old(bs)) ==> (Clean(bs) <==> Grantable(old(bs), requested, charge))
      ensures R.Next(R.State(old(bs), old(mem[..])), R.Allocate(requested), R.State(bs, mem[..]), charge)
    {
      ghost var before, m := bs, mem[..];
      var tracker;
      ghost var i;
      tracker, i := FindFit(requested);
      if tracker == NULL {
        FailsOnlyWhenFull(bs, requested, charge);
        return NULL;
      }
      if charge == HEADER {
        ChargedGrantable(bs, requested);
      }
      p := TakeBlock(i, tracker, requested);
      Taken(before, i, requested, charge, m, mem[..]);
    }

    /** The search along the next words. */
    method FindFit(requested: word) returns (tracker: word, ghost i: nat)
      requires Valid()
      ensures i == FirstFit(bs, requested) <= |bs| && tracker == if i < |bs| then bs[i].addr else NULL
      ensures tracker == NULL <==> i == |bs|
    {
      tracker, i := first, 0;
      while tracker != NULL
        invariant i <= |bs| && tracker == if i < |bs| then bs[i].addr else NULL
        invariant forall j :: 0 <= j < i ==> !bs[j].Fits(requested)
        decreases |bs| - i
      {
        assert HeaderAt(mem[..], bs[i], NextAddr(bs, i));
        var t := tracker - BASE;
        var size, flags, next := Load(mem[..], t), Load(mem[..], t + 4), Load(mem[..], t + 8);
        if flags == 1 && size >= requested {
          FirstFitIs(bs, requested, 0, i);
          return;
        }
        tracker := next;
        i := i + 1;
      }
      FirstFitIs(bs, requested, 0, i);
    }

    /** The search's success branch: split when there is enough left, mark used, skip the header. */
    method TakeBlock(ghost i: nat, tracker: word, requested: word) returns (p: word)
      requires Valid() && i < |bs| && tracker == bs[i].addr && bs[i].Fits(requested)
      requires charge == 0 ==> Footprint(bs) + HEADER < 0x8000_0000
      requires Splits(bs[i], requested, charge) ==> bs[i].User() + requested + HEADER <= LIMIT
      modifies mem, `bs
      ensures Valid() <==> (Splits(old(bs)[i], requested, charge) ==> Loose(old(bs), old(bs)[i].User() + requested))
      ensures bs == Take(old(bs), i, requested, charge)
      ensures p == old(bs)[i].User()
      ensures TakenBytes(old(mem[..]), mem[..], tracker, requested, charge)
    {
      ghost var m := mem[..];
      assert HeaderAt(m, bs[i], NextAddr(bs, i));
      TakeLaws(bs, i, requested, charge);
      p := MarkTaken(tracker, requested);
      ghost var r := Take(bs, i, requested, charge);
      if Disjoint(r) {
        TakeLayout(m, mem[..], bs, i, requested, charge);
      }
      bs := r;
    }

    /** Any block of the list may be freed; one that is free already stays so. */
    method Kfree(ptr: word)
      requires Valid()
      requires ptr == NULL || BlockOf(bs, ptr) < |bs|
      modifies mem, `bs
      ensures Valid()
      ensures bs == if ptr == NULL then old(bs) else Free(old(bs), BlockOf(old(bs), ptr))
      ensures ptr != NULL ==> !Live(bs, ptr) && forall q :: Live(bs, q) <==> Live(old(bs), q) && q != ptr
      ensures forall k :: 0 <= k < PAGE && mem[k] != old(mem[k]) ==> InHeader(old(bs), k)
      ensures Clean(old(bs)) ==> Clean(bs) && LiveKept(old(bs), bs, old(mem[..]), mem[..])
      ensures ptr != NULL && Live(old(bs), ptr) ==>
                R.Next(R.State(old(bs), old(mem[..])), R.Release(BlockOf(old(bs), ptr)), R.State(bs, mem[..]), charge)
    {
      if ptr == NULL {
        return;
      }
      ghost var i, m := BlockOf(bs, ptr), mem[..];
      FreeLaws(bs, i);
      forall q: nat
        ensures Live(Free(bs, i), q) <==> Live(bs, q) && q != ptr
      {
        FreeLive(bs, i, q);
      }
      Coalesce(i, ptr - HEADER);
      Freed(bs, i, m, mem[..]);
      bs := Free(bs, i);
    }

    /** Mark the block free, then merge it to the right and to the left. */
    method Coalesce(ghost i: nat, header: word)
      requires mem.Length == PAGE && first == BASE && Layout(mem[..], bs)
      requires i < |bs| && header == bs[i].addr && Footprint(bs) < 0x8000_0000
      modifies mem
      ensures Layout(mem[..], Free(bs, i))
      ensures OnlyHeaders(old(mem[..]), mem[..], bs[if i > 0 then i - 1 else i].addr, header)
    {
      FreeDisjoint(bs, i);
      FreeFootprint(bs, i);
      MarkFree(bs, i, header);
      AbsorbFree(bs, i, header);
      if i > 0 {
        Apart(bs, 0, i);
      }
      if header != first {
        ghost var merged := FreeForward(bs, i);
        var tracker := FindPrevious(merged, i, header);
        assert tracker == bs[i - 1].addr;
        MergeLeft(merged, i, tracker, header);
      }
    }

    method MarkFree(ghost cur: Blocks, ghost i: nat, header: word)
      requires mem.Length == PAGE && Layout(mem[..], cur)
      requires i < |cur| && header == cur[i].addr
      modifies mem
      ensures Layout(mem[..], cur[i := cur[i].(free := true)])
      ensures OnlyHeaders(old(mem[..]), mem[..], header, header)
    {
      assert HeaderAt(mem[..], cur[i], NextAddr(cur, i));
      var t := header - BASE;
      LoadElsewhere(mem[..], t + 4, 1, t);
      LoadElsewhere(mem[..], t + 4, 1, t + 8);
      MarkLayout(mem[..], Stored(mem[..], t + 4, 1), cur, i, true);
      Store(mem, t + 4, 1);
    }

    /** Forward coalescing: a free right neighbour is swallowed. */
    method AbsorbFree(ghost was: Blocks, ghost i: nat, header: word)
      requires i < |was| && header == was[i].addr && Footprint(was) < 0x8000_0000
      requires mem.Length == PAGE && Layout(mem[..], was[i := was[i].(free := true)])
      modifies mem
      ensures Layout(mem[..], FreeForward(was, i))
      ensures OnlyHeaders(old(mem[..]), mem[..], header, header)
    {
      ghost var cur := was[i := was[i].(free := true)];
      assert HeaderAt(mem[..], cur[i], NextAddr(cur, i));
      var t := header - BASE;
      var next := Load(mem[..], t + 8);
      if i + 1 < |was| {
        assert HeaderAt(mem[..], cur[i + 1], NextAddr(cur, i + 1));
      }
      if next != NULL && Load(mem[..], next - BASE + 4) == 1 {
        SizeBound(was, i, |was|);
        Apart(cur, i, i + 1);
        ghost var m := mem[..];
        Swallow(t, next - BASE);
        SwallowedLayout(m, mem[..], cur, i);
      }
    }

    /** The block at offset t takes over the size and the link of the block at offset u. */
    method Swallow(t: nat, u: nat)
      requires mem.Length == PAGE && t + HEADER <= PAGE && u + HEADER <= PAGE
      requires Load(mem[..], t) + HEADER + Load(mem[..], u) < WORD_LIMIT
      requires t + HEADER <= u || u + HEADER <= t
      modifies mem
      ensures OnlyHeaders(old(mem[..]), mem[..], BASE + t, BASE + t)
      ensures Load(mem[..], t) == Load(old(mem[..]), t) + HEADER + Load(old(mem[..]), u)
      ensures Load(mem[..], t + 4) == Load(old(mem[..]), t + 4)
      ensures Load(mem[..], t + 8) == Load(old(mem[..]), u + 8)
    {
      ghost var m := mem[..];
      Store(mem, t, Load(mem[..], t) + HEADER + Load(mem[..], u));
      ghost var m1 := mem[..];
      LoadSame(m, m1, u + 8);
      Store(mem, t + 8, Load(mem[..], u + 8));
      LoadSame(m1, mem[..], t);
      LoadSame(m, mem[..], t + 4);
    }

    /** Backward search for the block whose link is header. */
    method FindPrevious(ghost cur: Blocks, ghost i: nat, header: word) returns (tracker: word)
      requires mem.Length == PAGE && Layout(mem[..], cur) && first == BASE
      requires 0 < i < |cur| && header == cur[i].addr
      ensures tracker == cur[i - 1].addr
    {
      tracker := first;
      ghost var j := 0;
      assert HeaderAt(mem[..], cur[j], NextAddr(cur, j));
      while Load(mem[..], tracker - BASE + 8) != header
        invariant j < i && tracker == cur[j].addr
        invariant HeaderAt(mem[..], cur[j], NextAddr(cur, j))
        decreases i - j
      {
        tracker := Load(mem[..], tracker - BASE + 8);
        j := j + 1;
        assert HeaderAt(mem[..], cur[j], NextAddr(cur, j));
      }
      if j + 1 != i {
        Apart(cur, j + 1, i);
      }
    }

    /** Backward coalescing: a free left neighbour swallows the block. */
    method MergeLeft(ghost cur: Blocks, ghost i: nat, tracker: word, header: word)
      requires 0 < i < |cur| && tracker == cur[i - 1].addr && header == cur[i].addr && Footprint(cur) < 0x8000_0000
      requires mem.Length == PAGE && Layout(mem[..], cur)
      modifies mem
      ensures Layout(mem[..], if cur[i - 1].free then Absorb(cur, i - 1) else cur)
      ensures OnlyHeaders(old(mem[..]), mem[..], tracker, tracker)
    {
      assert HeaderAt(mem[..], cur[i - 1], NextAddr(cur, i - 1));
      assert HeaderAt(mem[..], cur[i], NextAddr(cur, i));
      var t := tracker - BASE;
      if Load(mem[..], t + 4) == 1 {
        SizeBound(cur, i - 1, |cur|);
        Apart(cur, i - 1, i);
        ghost var m := mem[..];
        Swallow(t, header - BASE);
        SwallowedLayout(m, mem[..], cur, i - 1);
      }
    }

    /** The stores of a successful search: split when enough is left, mark used, skip the header. */
    method MarkTaken(tracker: word, requested: word) returns (p: word)
      requires mem.Length == PAGE && BASE <= tracker && tracker + HEADER <= LIMIT
      requires var size := Load(mem[..], tracker - BASE);
        size >= requested && (size - requested > charge ==> tracker + HEADER + requested + HEADER <= LIMIT)
      modifies mem
      ensures TakenBytes(old(mem[..]), mem[..], tracker, requested, charge)
      ensures p == tracker + HEADER
    {
      ghost var m := mem[..];
      var t := tracker - BASE;
      var leftover := Load(mem[..], t) - requested;
      if leftover > charge {
        Forge(t, requested, leftover - charge);
        SplitTaken(m, mem[..], t, requested, charge);
      } else {
        WholeTaken(m, t, requested, charge);
      }
      Store(mem, t + 4, 0);
      p := tracker + HEADER;
    }

    /** The split: a header for the rest, wherever it falls, then the shortened block at offset t. */
    method Forge(t: nat, requested: word, rest: word)
      requires mem.Length == PAGE && t + HEADER + requested + HEADER <= PAGE
      modifies mem
      ensures var newHeader := BASE + t + HEADER + requested;
        && OnlyHeaders(old(mem[..]), mem[..], BASE + t, newHeader)
        && HeaderAt(mem[..], Block(newHeader, rest, true), Load(old(mem[..]), t + 8))
        && Load(mem[..], t) == requested
        && Load(mem[..], t + 4) == Load(old(mem[..]), t + 4)
        && Load(mem[..], t + 8) == newHeader
    {
      var newHeader := BASE + t + HEADER + requested;
      var u := newHeader - BASE;
      ghost var m := mem[..];
      Store(mem, u, rest);
      ghost var m1 := mem[..];
      Store(mem, u + 4, 1);
      ghost var m2 := mem[..];
      LoadSame(m, m2, t + 8);
      Store(mem, u + 8, Load(mem[..], t + 8));
      ghost var m3 := mem[..];
      Store(mem, t, requested);
      ghost var m4 := mem[..];
      Store(mem, t + 8, newHeader);
      ghost var r := mem[..];
      LoadSame(m1, r, u);
      LoadSame(m2, r, u + 4);
      LoadSame(m3, r, u + 8);
      LoadSame(m4, r, t);
      LoadSame(m, r, t + 4);
    }
  }

  /** After the stores of a merge the headers describe the list with the neighbour absorbed. */
  lemma SwallowedLayout(m: seq<byte>, m': seq<byte>, bs: Blocks, i: nat)
    requires Layout(m, bs) && i + 1 < |bs| && OnlyHeaders(m, m', bs[i].addr, bs[i].addr)
    requires var t, u := bs[i].addr - BASE, bs[i + 1].addr - BASE;
      && Load(m', t) == Load(m, t) + HEADER + Load(m, u)
      && Load(m', t + 4) == Load(m, t + 4)
      && Load(m', t + 8) == Load(m, u + 8)
    ensures Layout(m', Absorb(bs, i))
  {
    assert HeaderAt(m, bs[i], NextAddr(bs, i)) && HeaderAt(m, bs[i + 1], NextAddr(bs, i + 1));
    AbsorbDisjoint(bs, i);
    AbsorbLayout(m, m', bs, i);
  }

  /** After the split's stores the block is marked used. */
  lemma ForgedTaken(m: seq<byte>, m': seq<byte>, t: nat, n: word, rest: word)
    requires |m| == |m'| == PAGE && t + HEADER + n + HEADER <= PAGE
    requires OnlyHeaders(m, m', BASE + t, BASE + t + HEADER + n)
    requires HeaderAt(m', Block(BASE + t + HEADER + n, rest, true), Load(m, t + 8))
    requires Load(m', t) == n && Load(m', t + 8) == BASE + t + HEADER + n
    ensures var r := Stored(m', t + 4, 0);
      && OnlyHeaders(m, r, BASE + t, BASE + t + HEADER + n)
      && HeaderAt(r, Block(BASE + t, n, false), BASE + t + HEADER + n)
      && HeaderAt(r, Block(BASE + t + HEADER + n, rest, true), Load(m, t + 8))
  {
    var u := t + HEADER + n;
    LoadElsewhere(m', t + 4, 0, t);
    LoadElsewhere(m', t + 4, 0, t + 8);
    LoadElsewhere(m', t + 4, 0, u);
    LoadElsewhere(m', t + 4, 0, u + 4);
    LoadElsewhere(m', t + 4, 0, u + 8);
  }

  lemma SplitTaken(m: seq<byte>, m': seq<byte>, t: nat, n: word, charge: nat)
    requires |m| == |m'| == PAGE && t + HEADER + n + HEADER <= PAGE && Load(m, t) > n + charge
    requires OnlyHeaders(m, m', BASE + t, BASE + t + HEADER + n)
    requires HeaderAt(m', Block(BASE + t + HEADER + n, Load(m, t) - n - charge, true), Load(m, t + 8))
    requires Load(m', t) == n && Load(m', t + 8) == BASE + t + HEADER + n
    ensures TakenBytes(m, Stored(m', t + 4, 0), BASE + t, n, charge)
  {
    ForgedTaken(m, m', t, n, Load(m, t) - n - charge);
  }

  /** Without a split only the flag is stored. */
  lemma WholeTaken(m: seq<byte>, t: nat, n: word, charge: nat)
    requires |m| == PAGE && t + HEADER <= PAGE && Load(m, t) <= n + charge
    ensures TakenBytes(m, Stored(m, t + 4, 0), BASE + t, n, charge)
  {
    LoadElsewhere(m, t + 4, 0, t);
    LoadElsewhere(m, t + 4, 0, t + 8);
  }

  /** The three stores of heap_init. */
  lemma FirstHeader(m: seq<byte>)
    requires |m| == PAGE
    ensures Layout(Stored(Stored(Stored(m, 0, PAGE - HEADER), 4, 1), 8, NULL), INITIAL)
    ensures Tiled(INITIAL) && Coalesced(INITIAL) && NoHoles(INITIAL) && Footprint(INITIAL) == PAGE
  {
    var m1 := Stored(m, 0, PAGE - HEADER);
    var m2 := Stored(m1, 4, 1);
    LoadElsewhere(m1, 4, 1, 0);
    LoadElsewhere(m2, 8, NULL, 0);
    LoadElsewhere(m2, 8, NULL, 4);
    assert Claim(INITIAL, 0) == 0;
  }

  lemma TakeLaws(bs: Blocks, i: nat, n: nat, charge: nat)
    requires Disjoint(bs) && Coalesced(bs) && NoHoles(bs) && L.ChargeOk(charge) && i < |bs| && bs[i].Fits(n)
    ensures var r := Take(bs, i, n, charge);
      && (Disjoint(r) <==> (Splits(bs[i], n, charge) ==> Loose(bs, bs[i].User() + n)))
      && Coalesced(r)
      && NoHoles(r)
      && Footprint(r) <= Footprint(bs) + HEADER - charge
      && (charge == HEADER && Tiled(bs) ==> Tiled(r))
  {
    SplitDisjointExactly(bs, i, n, charge);
    TakeCoalesced(bs, i, n, charge);
    TakeNoHoles(bs, i, n, charge);
    TakeFootprint(bs, i, n, charge);
    if charge == HEADER && Tiled(bs) {
      TakeTiled(bs, i, n, charge);
    }
  }

  /** What a successful kmalloc means for the ranges handed out. */
  lemma Taken(bs: Blocks, i: nat, n: word, charge: nat, m: seq<byte>, m': seq<byte>)
    requires Layout(m, bs) && i == FirstFit(bs, n) < |bs| && |m'| == PAGE
    requires TakenBytes(m, m', bs[i].addr, n, charge)
    ensures var b := Malloc(bs, n, charge)[i]; b in Malloc(bs, n, charge) && !b.free && b.User() == MallocResult(bs, n) && b.size >= n
    ensures MallocLoose(bs, n, charge) ==>
              forall q :: Live(Malloc(bs, n, charge), q) <==> Live(bs, q) || q == MallocResult(bs, n)
    ensures Clean(bs) && MallocFits(bs, n, charge) ==> LiveKept(bs, Malloc(bs, n, charge), m, m')
    ensures Clean(bs) ==> (Clean(Malloc(bs, n, charge)) <==> Grantable(bs, n, charge))
  {
    SplitDisjointExactly(bs, i, n, charge);
    if MallocLoose(bs, n, charge) {
      forall q: nat
        ensures Live(Malloc(bs, n, charge), q) <==> Live(bs, q) || q == MallocResult(bs, n)
      {
        MallocLives(bs, n, charge, q);
      }
    }
    if Clean(bs) {
      TakeSafeExactly(bs, i, n, charge);
      if MallocFits(bs, n, charge) {
        TakeSeparated(bs, i, n, charge);
        assert HeaderAt(m, bs[i], NextAddr(bs, i));
        TakeWrites(m, m', bs, i, n, charge);
        MallocLiveKept(bs, n, charge, m, m');
      }
    }
  }

  lemma FreeLaws(bs: Blocks, i: nat)
    requires Coalesced(bs) && i < |bs|
    ensures Coalesced(Free(bs, i))
    ensures NoHoles(bs) ==> NoHoles(Free(bs, i))
    ensures Footprint(Free(bs, i)) == Footprint(bs)
    ensures Tiled(bs) ==> Tiled(Free(bs, i))
  {
    if bs[i].free {
      FreeAgain(bs, i);
    } else {
      FreeCoalesced(bs, i);
    }
    FreeShape(bs, i);
    FreeFootprint(bs, i);
    if Tiled(bs) {
      FreeTiled(bs, i);
    }
  }

  /** kfree(block i) rewrites the headers of blocks i - 1 and i only: what that means for the ranges handed out. */
  lemma Freed(bs: Blocks, i: nat, m: seq<byte>, m': seq<byte>)
    requires i < |bs| && OnlyHeaders(m, m', bs[if i > 0 then i - 1 else i].addr, bs[i].addr)
    ensures forall k :: 0 <= k < PAGE && m'[k] != m[k] ==> InHeader(bs, k)
    ensures Clean(bs) ==> Clean(Free(bs, i)) && LiveKept(bs, Free(bs, i), m, m')
  {
    WrittenInHeaders(m, m', bs, if i > 0 then i - 1 else i, i);
    if Clean(bs) {
      FreeSeparated(bs, i);
      FreeShape(bs, i);
      FreeLiveKept(bs, Free(bs, i), m, m');
    }
  }

  /**
   * The header that HeapLaws.HeaderForgedOverHeader forges with charge 0 destroys the live one at
   * BASE + 112: it then reads as 0x70000000 bytes with flags 0x10000.
   */
  lemma OverwrittenHeader(m: seq<byte>, m': seq<byte>)
    requires Layout(m, L.FRONT_FREED.bs)
    requires OnlyHeaders(m, m', BASE, BASE + 107) && HeaderAt(m', Block(BASE + 107, 5, true), BASE + 112)
    ensures Load(m', 112) == 0x7000_0000 && Load(m', 116) == 0x1_0000
    ensures !HeaderAt(m', L.FRONT_FREED.bs[1], BASE + 224)
  {
    assert m'[119] == 0 by {
      assert HeaderAt(m, L.FRONT_FREED.bs[1], NextAddr(L.FRONT_FREED.bs, 1));
      LoadBytes(m, 116);
    }
    assert m'[108] == m'[109] == m'[110] == 0 by {
      LoadBytes(m', 107);
    }
    assert m'[111] == 1 && m'[112] == m'[113] == m'[114] == 0 by {
      LoadBytes(m', 111);
    }
    assert m'[115] == 0x70 && m'[116] == m'[117] == 0 && m'[118] == 1 by {
      LoadBytes(m', 115);
    }
    LoadBytes(m', 112);
    LoadBytes(m', 116);
  }

  /** The header that HeapLaws.HeaderOutOfOrder forges with charge 0 leaves the chain in the bytes intact. */
  lemma OutOfOrderDecodes(m: seq<byte>, m': seq<byte>)
    requires Layout(m, L.GROWN.bs) && |m'| == PAGE && TakenBytes(m, m', BASE, 112, 0)
    ensures !MallocFits(L.GROWN.bs, 112, 0)
    ensures Decode(m', BASE, 4) == Malloc(L.GROWN.bs, 112, 0)
  {
    var bs := L.GROWN.bs;
    assert FirstFit(bs, 112) == 0;
    assert HeaderAt(m, bs[0], NextAddr(bs, 0));
    SplitDisjointExactly(bs, 0, 112, 0);
    TakeLayout(m, m', bs, 0, 112, 0);
    DecodeLayout(m', Malloc(bs, 112, 0), 4);
  }

  lemma {:induction false} FirstFitIs(bs: Blocks, n: nat, from: nat, i: nat)
    requires from <= i <= |bs|
    requires forall j :: from <= j < i ==> !bs[j].Fits(n)
    requires i < |bs| ==> bs[i].Fits(n)
    ensures FirstFit(bs, n, from) == i
  {
  }
}
