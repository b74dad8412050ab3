/**
 * What it means for a block list to be the one whose 12-byte headers (size, flags, next)
 * lie in the bytes of the heap page.
 */
module HeapBytes {
  import opened Words
  import opened HeapList
  import opened HeapShape

  /** Address of the header after block i, 0 at the end of the chain. */
  function NextAddr(bs: Blocks, i: nat): nat
    requires i < |bs|
  {
    if i + 1 < |bs| then bs[i + 1].addr else NULL
  }

  predicate HeaderAt(m: seq<byte>, b: Block, next: nat)
    requires |m| == PAGE && BASE <= b.addr && b.addr + HEADER <= LIMIT
  {
    && Load(m, b.addr - BASE) == b.size
    && Load(m, b.addr - BASE + 4) == (if b.free then 1 else 0)
    && Load(m, b.addr - BASE + 8) == next
  }

  ghost predicate Layout(m: seq<byte>, bs: Blocks)
  {
    && |m| == PAGE
    && Disjoint(bs)
    && forall i {:trigger NextAddr(bs, i)} :: 0 <= i < |bs| ==> HeaderAt(m, bs[i], NextAddr(bs, i))
  }

  /** Offset k of the page belongs to a header of the list. */
  ghost predicate InHeader(bs: Blocks, k: nat)
  {
    exists i :: 0 <= i < |bs| && bs[i].addr <= BASE + k < bs[i].User()
  }

  // ----- following the chain -----

  /** The blocks met by following next from address a; fuel bounds the walk. */
  function Decode(m: seq<byte>, a: word, fuel: nat): Blocks
    requires |m| == PAGE
    decreases fuel
  {
    if a < BASE || a + HEADER > LIMIT || fuel == 0 then []
    else
      var t := a - BASE;
      [Block(a, Load(m, t), Load(m, t + 4) == 1)] + Decode(m, Load(m, t + 8), fuel - 1)
  }

  /** Following the chain in memory yields exactly the list: it is acyclic and complete. */
  lemma DecodeLayout(m: seq<byte>, bs: Blocks, fuel: nat)
    requires Layout(m, bs) && fuel >= |bs|
    ensures Decode(m, BASE, fuel) == bs
  {
    DecodeChain(m, bs, fuel);
  }

  lemma {:induction false} DecodeChain(m: seq<byte>, bs: Blocks, fuel: nat)
    requires |m| == PAGE && bs != [] && fuel >= |bs|
    requires forall i :: 0 <= i < |bs| ==> BASE <= bs[i].addr && bs[i].addr + HEADER <= LIMIT
    requires forall i :: 0 <= i < |bs| ==> HeaderAt(m, bs[i], NextAddr(bs, i))
    ensures bs[0].addr < WORD_LIMIT && Decode(m, bs[0].addr, fuel) == bs
    decreases |bs|
  {
    var next := NextAddr(bs, 0);
    DecodeStep(m, bs[0], next, fuel);
    if |bs| > 1 {
      forall i | 1 <= i < |bs|
        ensures HeaderAt(m, bs[i], NextAddr(bs[1..], i - 1))
      {
        assert HeaderAt(m, bs[i], NextAddr(bs, i));
      }
      DecodeChain(m, bs[1..], fuel - 1);
    }
    assert bs == [bs[0]] + bs[1..];
  }

  lemma DecodeStep(m: seq<byte>, b: Block, next: nat, fuel: nat)
    requires |m| == PAGE && BASE <= b.addr && b.addr + HEADER <= LIMIT && fuel > 0
    requires HeaderAt(m, b, next)
    ensures next < WORD_LIMIT && Decode(m, b.addr, fuel) == [b] + Decode(m, next, fuel - 1)
  {
  }

  // ----- pointers -----

  /** Index of the block whose user address is p; |bs| when there is none. */
  function BlockOf(bs: Blocks, p: nat): (i: nat)
    ensures i <= |bs|
    ensures i < |bs| ==> bs[i].User() == p
    ensures i == |bs| ==> forall k :: 0 <= k < |bs| ==> bs[k].User() != p
  {
    if bs == [] || bs[0].User() == p then 0 else 1 + BlockOf(bs[1..], p)
  }

  /** p was handed out by kmalloc and has not been freed. */
  predicate Live(bs: Blocks, p: nat)
  {
    var i := BlockOf(bs, p);
    i < |bs| && !bs[i].free
  }

  lemma BlockOfUser(bs: Blocks, i: nat)
    requires Disjoint(bs) && i < |bs|
    ensures BlockOf(bs, bs[i].User()) == i
  {
    forall k | 0 <= k < |bs| && k != i
      ensures bs[k].User() != bs[i].User()
    {
      Apart(bs, i, k);
    }
  }

  /** A pointer is live exactly when an allocated block has its user range there. */
  lemma LiveMeans(bs: Blocks, p: nat)
    requires Disjoint(bs)
    ensures Live(bs, p) <==> exists b :: b in bs && !b.free && b.User() == p
  {
    if b :| b in bs && !b.free && b.User() == p {
      var i :| 0 <= i < |bs| && bs[i] == b;
      BlockOfUser(bs, i);
    }
  }

  /** kfree takes exactly one pointer out of the live ones. */
  lemma FreeLive(bs: Blocks, i: nat, p: nat)
    requires Disjoint(bs) && i < |bs|
    ensures Live(Free(bs, i), p) <==> Live(bs, p) && p != bs[i].User()
  {
    FreeDisjoint(bs, i);
    LiveMeans(bs, p);
    LiveMeans(Free(bs, i), p);
    if Live(bs, p) && p != bs[i].User() {
      var b :| b in bs && !b.free && b.User() == p;
      FreeReleases(bs, i, b);
    }
    if Live(Free(bs, i), p) {
      var b :| b in Free(bs, i) && !b.free && b.User() == p;
      FreeReleases(bs, i, b);
      if b.addr == bs[i].addr {
        OneAtAddress(bs, i, b);
      }
    }
  }

  /** And kmalloc adds exactly one. */
  lemma MallocLives(bs: Blocks, n: nat, charge: nat, p: nat)
    requires Disjoint(bs) && Disjoint(Malloc(bs, n, charge)) && MallocResult(bs, n) != NULL
    ensures Live(Malloc(bs, n, charge), p) <==> Live(bs, p) || p == MallocResult(bs, n)
  {
    var r, i := Malloc(bs, n, charge), FirstFit(bs, n);
    var taken := Block(bs[i].addr, if bs[i].size - n > charge then n else bs[i].size, false);
    LiveMeans(bs, p);
    LiveMeans(r, p);
    MallocTakes(bs, n, charge, taken);
    if Live(bs, p) {
      var b :| b in bs && !b.free && b.User() == p;
      MallocTakes(bs, n, charge, b);
    }
    if Live(r, p) {
      var b :| b in r && !b.free && b.User() == p;
      MallocTakes(bs, n, charge, b);
    }
  }

  // ----- what a call keeps -----

  /** Allocated blocks other than the one freed stay as they are. */
  lemma FreeKeeps(bs: Blocks, i: nat, k: nat)
    requires i < |bs| && k < |bs| && k != i && !bs[k].free
    ensures bs[k] in Free(bs, i)
  {
    var merged := FreeForward(bs, i);
    var k' := if k < i || |merged| == |bs| then k else k - 1;
    assert merged[k'] == bs[k];
    var r := Free(bs, i);
    assert |r| == |merged| || i > 0;
    assert r[if |r| == |merged| || k' < i then k' else k' - 1] == bs[k];
  }

  /** No byte of a clear range belongs to a header. */
  lemma UserClearOfHeaders(bs: Blocks, j: nat, k: nat)
    requires Separated(bs) && j < |bs| && Clear(bs, j) && bs[j].User() <= BASE + k < bs[j].End()
    ensures !InHeader(bs, k)
  {
    EdgeBounds(bs, j);
    forall i | 0 <= i < j
      ensures bs[i].User() <= bs[j].addr
    {
      assert Before(bs, i, j);
    }
  }

  /** The bytes handed out as block b, allocated before and after, are the same in m and m'. */
  ghost predicate LiveKept(bs: Blocks, bs': Blocks, m: seq<byte>, m': seq<byte>)
    requires |m| == |m'| == PAGE
  {
    forall b, k {:trigger b in bs, m'[k]} ::
      b in bs && b in bs' && !b.free && 0 <= k < PAGE && b.User() <= BASE + k < b.End() ==> m'[k] == m[k]
  }

  /** Whatever kmalloc hands out, the ranges held before keep their bytes as long as the headers stay in order. */
  lemma MallocLiveKept(bs: Blocks, n: nat, charge: nat, m: seq<byte>, m': seq<byte>)
    requires LiveClear(bs) && Separated(Malloc(bs, n, charge)) && |m| == |m'| == PAGE
    requires forall k :: 0 <= k < PAGE && m'[k] != m[k] ==> InHeader(Malloc(bs, n, charge), k)
    ensures LiveKept(bs, Malloc(bs, n, charge), m, m')
  {
    var i, r := FirstFit(bs, n), Malloc(bs, n, charge);
    forall b, k | b in bs && b in r && !b.free && 0 <= k < PAGE && b.User() <= BASE + k < b.End()
      ensures m'[k] == m[k]
    {
      var j :| 0 <= j < |bs| && bs[j] == b;
      assert Clear(bs, j);
      if i < |bs| {
        TakeKeepsClear(bs, i, n, charge, j);
      }
      UserClearOfHeaders(r, if i < j && MallocSplits(bs, n, charge) then j + 1 else j, k);
    }
  }

  lemma FreeLiveKept(bs: Blocks, bs': Blocks, m: seq<byte>, m': seq<byte>)
    requires Clean(bs) && |m| == |m'| == PAGE
    requires forall k :: 0 <= k < PAGE && m'[k] != m[k] ==> InHeader(bs, k)
    ensures LiveKept(bs, bs', m, m')
  {
    forall b, k | b in bs && b in bs' && !b.free && 0 <= k < PAGE && b.User() <= BASE + k < b.End()
      ensures m'[k] == m[k]
    {
      var j :| 0 <= j < |bs| && bs[j] == b;
      assert Clear(bs, j);
      UserClearOfHeaders(bs, j, k);
    }
  }

  /** Writing inside a range handed out disturbs no header. */
  lemma UserWriteLayout(m: seq<byte>, m': seq<byte>, bs: Blocks, b: Block)
    requires Layout(m, bs) && Clean(bs) && b in bs && !b.free && |m'| == PAGE
    requires forall k :: 0 <= k < PAGE && m'[k] != m[k] ==> b.User() <= BASE + k < b.End()
    ensures Layout(m', bs)
  {
    var j :| 0 <= j < |bs| && bs[j] == b;
    assert Clear(bs, j);
    forall i | 0 <= i < |bs|
      ensures HeaderAt(m', bs[i], NextAddr(bs, i))
    {
      assert HeaderAt(m, bs[i], NextAddr(bs, i));
      forall k | bs[i].addr <= BASE + k < bs[i].User()
        ensures m'[k] == m[k]
      {
        assert InHeader(bs, k);
        if b.User() <= BASE + k < b.End() {
          UserClearOfHeaders(bs, j, k);
        }
      }
      LoadSame(m, m', bs[i].addr - BASE);
      LoadSame(m, m', bs[i].addr - BASE + 4);
      LoadSame(m, m', bs[i].addr - BASE + 8);
    }
  }

  // ----- what a call may write -----

  /** The memories agree outside the headers at addresses a and b. */
  ghost predicate OnlyHeaders(m: seq<byte>, m': seq<byte>, a: nat, b: nat)
  {
    && |m| == |m'| == PAGE
    && forall k :: 0 <= k < PAGE && !(a <= BASE + k < a + HEADER) && !(b <= BASE + k < b + HEADER) ==> m'[k] == m[k]
  }

  lemma HeaderKept(m: seq<byte>, m': seq<byte>, c: Block, next: nat, a: nat, b: nat)
    requires OnlyHeaders(m, m', a, b)
    requires BASE <= c.addr && c.addr + HEADER <= LIMIT && HeaderAt(m, c, next)
    requires c.addr + HEADER <= a || a + HEADER <= c.addr
    requires c.addr + HEADER <= b || b + HEADER <= c.addr
    ensures HeaderAt(m', c, next)
  {
    LoadSame(m, m', c.addr - BASE);
    LoadSame(m, m', c.addr - BASE + 4);
    LoadSame(m, m', c.addr - BASE + 8);
  }

  /** Splitting block i rewrites its header and forges one where it overlaps none. */
  lemma SplitLayout(m: seq<byte>, m': seq<byte>, bs: Blocks, i: nat, used: Block, rest: Block)
    requires Layout(m, bs) && i < |bs| && used.addr == bs[i].addr
    requires var r := Inserted(bs[i := used], i + 1, rest); Disjoint(r)
    requires BASE <= rest.addr && rest.addr + HEADER <= LIMIT
    requires OnlyHeaders(m, m', used.addr, rest.addr)
    requires HeaderAt(m', used, rest.addr) && HeaderAt(m', rest, NextAddr(bs, i))
    ensures Layout(m', Inserted(bs[i := used], i + 1, rest))
  {
    var r := Inserted(bs[i := used], i + 1, rest);
    forall k | 0 <= k < |r| && k != i && k != i + 1
      ensures HeaderAt(m', r[k], NextAddr(r, k))
    {
      var k' := if k < i then k else k - 1;
      assert r[k] == bs[k'] && NextAddr(r, k) == NextAddr(bs, k');
      Apart(r, k, i);
      Apart(r, k, i + 1);
      HeaderKept(m, m', r[k], NextAddr(bs, k'), used.addr, rest.addr);
    }
  }

  /** Block i absorbing its right neighbour only rewrites the header of block i. */
  lemma AbsorbLayout(m: seq<byte>, m': seq<byte>, bs: Blocks, i: nat)
    requires Layout(m, bs) && i + 1 < |bs| && Disjoint(Absorb(bs, i))
    requires OnlyHeaders(m, m', bs[i].addr, bs[i].addr)
    requires HeaderAt(m', Absorb(bs, i)[i], NextAddr(bs, i + 1))
    ensures Layout(m', Absorb(bs, i))
  {
    var r := Absorb(bs, i);
    forall k | 0 <= k < |r|
      ensures HeaderAt(m', r[k], NextAddr(r, k))
    {
      if k != i {
        var k' := if k < i then k else k + 1;
        assert r[k] == bs[k'] && NextAddr(r, k) == NextAddr(bs, k');
        Apart(bs, k', i);
        HeaderKept(m, m', r[k], NextAddr(bs, k'), bs[i].addr, bs[i].addr);
      }
    }
  }

  /** Setting the flag of block i only rewrites its header. */
  lemma MarkLayout(m: seq<byte>, m': seq<byte>, bs: Blocks, i: nat, free: bool)
    requires Layout(m, bs) && i < |bs|
    requires OnlyHeaders(m, m', bs[i].addr, bs[i].addr)
    requires HeaderAt(m', bs[i].(free := free), NextAddr(bs, i))
    ensures Layout(m', bs[i := bs[i].(free := free)])
  {
    var r := bs[i := bs[i].(free := free)];
    DisjointByAddress(bs, r);
    forall k | 0 <= k < |r| && k != i
      ensures HeaderAt(m', r[k], NextAddr(r, k))
    {
      assert r[k] == bs[k] && NextAddr(r, k) == NextAddr(bs, k);
      Apart(bs, i, k);
      HeaderKept(m, m', bs[k], NextAddr(bs, k), bs[i].addr, bs[i].addr);
    }
  }

  /** The header a split would forge lies in the page. */
  predicate HeaderInside(bs: Blocks, n: nat, charge: nat)
  {
    MallocSplits(bs, n, charge) ==> bs[FirstFit(bs, n)].User() + n + HEADER <= LIMIT
  }

  /** A call that may be granted forges its header in the page, before the next one, over no other. */
  lemma GrantedLoose(bs: Blocks, n: nat, charge: nat)
    requires Clean(bs) && Grantable(bs, n, charge)
    ensures MallocFits(bs, n, charge) && MallocLoose(bs, n, charge) && HeaderInside(bs, n, charge)
  {
    if MallocSplits(bs, n, charge) {
      FitsLoose(bs, FirstFit(bs, n), n);
    }
  }

  /** m' is m after the block whose header is at address a was handed out for n bytes. */
  ghost predicate TakenBytes(m: seq<byte>, m': seq<byte>, a: nat, n: word, charge: nat)
    requires |m| == |m'| == PAGE && BASE <= a && a + HEADER <= LIMIT
  {
    var size, next := Load(m, a - BASE), Load(m, a - BASE + 8);
    if size > n + charge then
      var newHeader := a + HEADER + n;
      && newHeader + HEADER <= LIMIT
      && OnlyHeaders(m, m', a, newHeader)
      && HeaderAt(m', Block(a, n, false), newHeader)
      && HeaderAt(m', Block(newHeader, size - n - charge, true), next)
    else
      OnlyHeaders(m, m', a, a) && HeaderAt(m', Block(a, size, false), next)
  }

  lemma TakeLayout(m: seq<byte>, m': seq<byte>, bs: Blocks, i: nat, n: word, charge: nat)
    requires Layout(m, bs) && i < |bs| && bs[i].Fits(n) && HeaderAt(m, bs[i], NextAddr(bs, i))
    requires |m'| == PAGE && TakenBytes(m, m', bs[i].addr, n, charge)
    requires Disjoint(Take(bs, i, n, charge)) || !Splits(bs[i], n, charge)
    ensures Layout(m', Take(bs, i, n, charge))
  {
    if Splits(bs[i], n, charge) {
      TakeSplitLayout(m, m', bs, i, n, charge);
    } else {
      MarkLayout(m, m', bs, i, false);
    }
  }

  lemma TakeSplitLayout(m: seq<byte>, m': seq<byte>, bs: Blocks, i: nat, n: word, charge: nat)
    requires Layout(m, bs) && i < |bs| && bs[i].Fits(n) && Splits(bs[i], n, charge)
    requires Disjoint(Take(bs, i, n, charge)) && bs[i].User() + n + HEADER <= LIMIT
    requires |m'| == PAGE && OnlyHeaders(m, m', bs[i].addr, bs[i].User() + n)
    requires HeaderAt(m', Block(bs[i].addr, n, false), bs[i].User() + n)
    requires HeaderAt(m', Block(bs[i].User() + n, bs[i].size - n - charge, true), NextAddr(bs, i))
    ensures Layout(m', Take(bs, i, n, charge))
  {
    SplitLayout(m, m', bs, i, Block(bs[i].addr, n, false), Block(bs[i].User() + n, bs[i].size - n - charge, true));
  }

  lemma TakeWrites(m: seq<byte>, m': seq<byte>, bs: Blocks, i: nat, n: word, charge: nat)
    requires |m| == |m'| == PAGE && i < |bs| && bs[i].Fits(n) && BASE <= bs[i].addr && bs[i].User() <= LIMIT
    requires Load(m, bs[i].addr - BASE) == bs[i].size
    requires TakenBytes(m, m', bs[i].addr, n, charge)
    ensures forall k :: 0 <= k < PAGE && m'[k] != m[k] ==> InHeader(Take(bs, i, n, charge), k)
  {
    WrittenInHeaders(m, m', Take(bs, i, n, charge), i, if Splits(bs[i], n, charge) then i + 1 else i);
  }

  lemma WrittenInHeaders(m: seq<byte>, m': seq<byte>, bs: Blocks, i: nat, j: nat)
    requires i < |bs| && j < |bs| && OnlyHeaders(m, m', bs[i].addr, bs[j].addr)
    ensures forall k :: 0 <= k < PAGE && m'[k] != m[k] ==> InHeader(bs, k)
  {
  }

  /** A block is no larger than the whole claim, nor are two neighbours together. */
  lemma {:induction false} SizeBound(bs: Blocks, i: nat, k: nat)
    requires i < k <= |bs|
    ensures HEADER + bs[i].size <= Claim(bs, k)
    ensures i + 1 < k ==> 2 * HEADER + bs[i].size + bs[i + 1].size <= Claim(bs, k)
  {
    if i + 2 < k {
      SizeBound(bs, i, k - 1);
    }
  }
}
