/** src/memory.c: the walk over the Multiboot memory map that seeds the frame allocator. */
module MemoryMap {
  import opened Words
  import opened Pmm
  import opened Frames

  const AVAILABLE := 1
  const LIMIT64 := 0x1_0000_0000_0000_0000

  /** One packed map entry: size (not counting itself), 64-bit base and length, type. */
  datatype Entry = Entry(size: word, addr: nat, len: nat, kind: word) {
    /** start + length in 64-bit arithmetic. */
    function End(): nat { (addr + len) % LIMIT64 }

    /** The k-th address the release loop visits. */
    function StepAt(k: nat): nat { addr + BLOCK_SIZE * k }

    /** The block pmm_free_memory sees: the address is truncated to 32 bits. */
    function BlockAt(k: nat): nat { StepAt(k) % WORD_LIMIT / BLOCK_SIZE }

    ghost predicate ReleasesBefore(b: nat, n: nat)
    {
      exists k: nat :: k < n && StepAt(k) < End() && BlockAt(k) == b
    }

    /** The loop over this entry frees block b. */
    ghost predicate Releases(b: nat)
    {
      kind == AVAILABLE && exists k: nat :: StepAt(k) < End() && BlockAt(k) == b
    }

    /** The loop ends: its first address from the end on is a 64-bit number. See LoopsForever. */
    predicate Bounded()
    {
      kind == AVAILABLE && addr < End() ==> StepAt((End() - addr + BLOCK_SIZE - 1) / BLOCK_SIZE) < LIMIT64
    }
  }

  function Load64(m: seq<byte>, a: nat): (r: nat)
    requires a + 8 <= |m|
    ensures r < LIMIT64
  {
    Load(m, a) + WORD_LIMIT * Load(m, a + 4)
  }

  function EntryAt(m: seq<byte>, a: nat): Entry
    requires a + 24 <= |m|
  {
    Entry(Load(m, a), Load64(m, a + 4), Load64(m, a + 12), Load(m, a + 20))
  }

  /** Every entry met on the way to `end` is readable, and the pointer does not wrap. */
  ghost predicate Walkable(m: seq<byte>, at: nat, end: nat)
    decreases end - at
  {
    at >= end || (
      && at + 24 <= |m|
      && var e := EntryAt(m, at);
      && e.Bounded()
      && at + e.size + 4 < WORD_LIMIT
      && Walkable(m, at + e.size + 4, end))
  }

  /** The entries met, each found by the size of the one before. */
  ghost function Entries(m: seq<byte>, at: nat, end: nat): seq<Entry>
    requires Walkable(m, at, end)
    decreases end - at
  {
    if at >= end then [] else [EntryAt(m, at)] + Entries(m, at + EntryAt(m, at).size + 4, end)
  }

  /** One of the first n entries releases block b. */
  ghost predicate FirstRelease(es: seq<Entry>, n: nat, b: nat)
    requires n <= |es|
  {
    exists i :: 0 <= i < n && es[i].Releases(b)
  }

  ghost predicate SomeReleases(es: seq<Entry>, b: nat)
  {
    FirstRelease(es, |es|, b)
  }

  /** Bit 6 of the flags: a memory map is there. */
  predicate HasMap(m: seq<byte>, info: nat)
    requires info + 4 <= |m|
  {
    Load(m, info) / 64 % 2 == 1
  }

  /** The structure is readable and so is the map, if there is one. */
  ghost predicate MapReadable(m: seq<byte>, info: nat)
  {
    && info + 52 <= |m|
    && (HasMap(m, info) ==>
          var at, length := Load(m, info + 48), Load(m, info + 44);
          at + length < WORD_LIMIT && Walkable(m, at, at + length))
  }

  method ReleaseRegion(pmm: Pmm, e: Entry)
    requires pmm.Valid() && e.Bounded() && e.kind == AVAILABLE
    modifies pmm, pmm.bitmap
    ensures pmm.Valid() && pmm.total == old(pmm.total) && pmm.Drift() == old(pmm.Drift())
    ensures forall b :: b in pmm.Used() <==> b in old(pmm.Used()) && !e.Releases(b)
  {
    var current := e.addr;
    ghost var k := 0;
    while current < e.End()
      invariant current == e.StepAt(k)
      invariant pmm.Valid() && pmm.total == old(pmm.total) && pmm.Drift() == old(pmm.Drift())
      invariant forall b :: b in pmm.Used() <==> b in old(pmm.Used()) && !e.ReleasesBefore(b, k)
      decreases e.End() - current
    {
      ghost var used := pmm.Used();
      pmm.FreeMemory(current % WORD_LIMIT);
      forall b: nat
        ensures e.ReleasesBefore(b, k + 1) <==> e.ReleasesBefore(b, k) || b == e.BlockAt(k)
      {
        OneMore(e, b, k);
      }
      current := current + BLOCK_SIZE;
      k := k + 1;
    }
    forall b: nat
      ensures e.Releases(b) <==> e.ReleasesBefore(b, k)
    {
      Exhausted(e, b, k);
    }
  }

  lemma OneMore(e: Entry, b: nat, k: nat)
    requires e.StepAt(k) < e.End()
    ensures e.ReleasesBefore(b, k + 1) <==> e.ReleasesBefore(b, k) || b == e.BlockAt(k)
  {
    if e.ReleasesBefore(b, k + 1) && b != e.BlockAt(k) {
      var i: nat :| i < k + 1 && e.StepAt(i) < e.End() && e.BlockAt(i) == b;
      assert i < k;
    }
  }

  lemma Exhausted(e: Entry, b: nat, k: nat)
    requires e.kind == AVAILABLE && e.End() <= e.StepAt(k)
    ensures e.Releases(b) <==> e.ReleasesBefore(b, k)
  {
    if e.Releases(b) {
      var i: nat :| e.StepAt(i) < e.End() && e.BlockAt(i) == b;
      assert i < k;
    }
  }

  /**
   * parse_memory_map. `m` is the readable physical memory, `info` the address of the
   * multiboot structure. Exactly the blocks some available entry steps into become free.
   */
  method ParseMemoryMap(pmm: Pmm, m: seq<byte>, info: nat)
    requires pmm.Valid() && MapReadable(m, info)
    modifies pmm, pmm.bitmap
    ensures pmm.Valid() && pmm.total == old(pmm.total) && pmm.Drift() == old(pmm.Drift())
    ensures forall b :: b in pmm.Used() <==> b in old(pmm.Used()) && !SomeReleases(MapOf(m, info), b)
    ensures Load(m, info) / 64 % 2 == 0 ==> pmm.Used() == old(pmm.Used())
  {
    if !HasMap(m, info) {
      return;
    }
    WalkMap(pmm, m, Load(m, info + 48), Load(m, info + 48) + Load(m, info + 44));
  }

  /** The loop: each entry is found by the size of the one before. */
  method WalkMap(pmm: Pmm, m: seq<byte>, at: nat, end: nat)
    requires pmm.Valid() && Walkable(m, at, end)
    modifies pmm, pmm.bitmap
    ensures pmm.Valid() && pmm.total == old(pmm.total) && pmm.Drift() == old(pmm.Drift())
    ensures var es := Entries(m, at, end); Cleared(pmm.Used(), old(pmm.Used()), es, |es|)
  {
    var mmap := at;
    ghost var es, n := Entries(m, at, end), 0;
    while mmap < end
      invariant Walkable(m, mmap, end)
      invariant n <= |es| && Entries(m, mmap, end) == es[n..]
      invariant pmm.Valid() && pmm.total == old(pmm.total) && pmm.Drift() == old(pmm.Drift())
      invariant Cleared(pmm.Used(), old(pmm.Used()), es, n)
      decreases end - mmap
    {
      var e := EntryAt(m, mmap);
      assert es[n..] == [es[n]] + es[n + 1..];
      ghost var before := pmm.Used();
      if e.kind == AVAILABLE {
        ReleaseRegion(pmm, e);
      }
      OneMoreEntry(pmm.Used(), before, old(pmm.Used()), es, n);
      mmap := mmap + e.size + 4;
      n := n + 1;
    }
  }

  /** Of the blocks in `was`, exactly those released by the first n entries are gone. */
  ghost predicate Cleared(now: set<nat>, was: set<nat>, es: seq<Entry>, n: nat)
    requires n <= |es|
  {
    forall b :: b in now <==> b in was && !FirstRelease(es, n, b)
  }

  lemma OneMoreEntry(now: set<nat>, before: set<nat>, was: set<nat>, es: seq<Entry>, n: nat)
    requires n < |es| && Cleared(before, was, es, n)
    requires forall b :: b in now <==> b in before && !es[n].Releases(b)
    ensures Cleared(now, was, es, n + 1)
  {
    forall b: nat
      ensures FirstRelease(es, n + 1, b) <==> FirstRelease(es, n, b) || es[n].Releases(b)
    {
    }
  }

  /** The entries parse_memory_map acts on: none when bit 6 of the flags is clear. */
  ghost function MapOf(m: seq<byte>, info: nat): seq<Entry>
    requires MapReadable(m, info)
  {
    if !HasMap(m, info) then []
    else Entries(m, Load(m, info + 48), Load(m, info + 48) + Load(m, info + 44))
  }

  /**
   * The map is read as section 3.3 of the Multiboot Specification lays it out: address and length of the map
   * in the structure's fields at 48 and 44, then entries of six words, each the number of bytes its size says
   * after the end of the size field of the one before. What a boot loader packed that way is read back.
   */
  lemma MapReadBack(m: seq<byte>, info: nat, ats: seq<nat>, es: seq<Entry>)
    requires info + 52 <= |m| && Load(m, info) / 64 % 2 == 1
    requires |ats| == |es| + 1 && ats[|es|] < WORD_LIMIT
    requires Load(m, info + 48) == ats[0] && ats[0] + Load(m, info + 44) == ats[|es|]
    requires forall k :: 0 <= k < |es| ==> ats[k] + 24 <= |m| && ats[k + 1] == ats[k] + 4 + es[k].size && es[k].Bounded()
    requires forall k :: 0 <= k < |es| ==>
               && Load(m, ats[k]) == es[k].size && Load(m, ats[k] + 20) == es[k].kind
               && Load(m, ats[k] + 4) == es[k].addr % 0x1_0000_0000 && Load(m, ats[k] + 8) == es[k].addr / 0x1_0000_0000
               && Load(m, ats[k] + 12) == es[k].len % 0x1_0000_0000 && Load(m, ats[k] + 16) == es[k].len / 0x1_0000_0000
    ensures MapReadable(m, info) && MapOf(m, info) == es
  {
    forall k | 0 <= k < |es|
      ensures EntryAt(m, ats[k]) == es[k]
    {
      TwoWords(es[k].addr);
      TwoWords(es[k].len);
    }
    ReadFrom(m, ats, es, 0);
  }

  lemma TwoWords(x: nat)
    ensures x == x % 0x1_0000_0000 + 0x1_0000_0000 * (x / 0x1_0000_0000)
  {
  }

  /** The entries from number i on. */
  lemma {:induction false} ReadFrom(m: seq<byte>, ats: seq<nat>, es: seq<Entry>, i: nat)
    requires |ats| == |es| + 1 && i <= |es| && ats[|es|] < WORD_LIMIT
    requires forall k :: 0 <= k < |es| ==> ats[k] + 24 <= |m| && ats[k + 1] == ats[k] + 4 + es[k].size && es[k].Bounded()
    requires forall k :: 0 <= k < |es| ==> EntryAt(m, ats[k]) == es[k]
    ensures ats[i] <= ats[|es|] && (i < |es| ==> ats[i] < ats[|es|])
    ensures Walkable(m, ats[i], ats[|es|]) && Entries(m, ats[i], ats[|es|]) == es[i..]
    decreases |es| - i
  {
    if i < |es| {
      ReadFrom(m, ats, es, i + 1);
      assert es[i..] == [es[i]] + es[i + 1..];
    }
  }

  /** A map of the usual entry alone, 127 MB from 1 MB up, given by its words: exactly the blocks 256 to 0x7FDF are released. */
  lemma UsualMap(m: seq<byte>, info: nat, at: nat, b: nat)
    requires info + 52 <= |m| && at + 24 <= |m| && at + 24 < WORD_LIMIT
    requires Load(m, info) == 0x40 && Load(m, info + 44) == 24 && Load(m, info + 48) == at
    requires Load(m, at) == 20 && Load(m, at + 4) == 0x10_0000 && Load(m, at + 8) == 0
    requires Load(m, at + 12) == 0x7EE_0000 && Load(m, at + 16) == 0 && Load(m, at + 20) == 1
    ensures MapReadable(m, info) && (SomeReleases(MapOf(m, info), b) <==> 256 <= b < 0x7FE0)
  {
    var e := Entry(20, 0x10_0000, 0x7EE_0000, 1);
    MapReadBack(m, info, [at, at + 24], [e]);
    UsualBlocks(e, b);
    assert [e][0] == e && forall i :: 0 <= i < 1 ==> [e][i] == e;
  }

  lemma UsualBlocks(e: Entry, b: nat)
    requires e == Entry(20, 0x10_0000, 0x7EE_0000, 1)
    ensures e.Releases(b) <==> 256 <= b < 0x7FE0
  {
    ReleasedBlocks(e, b);
    if 256 <= b < 0x7FE0 {
      assert Stepped(e, b + BLOCKS * 0);
    }
  }

  /** For any other region every value the wrapping 64-bit counter can take is below the end. */
  lemma LoopsForever(e: Entry, k: nat)
    requires e.kind == AVAILABLE && !e.Bounded()
    ensures e.StepAt(k) % LIMIT64 < e.End()
  {
    var n := (e.End() - e.addr + 4095) / 4096;
    SplitAddress(e.End() - e.addr + 4095);
    SplitAddress(e.addr);
    var a, r := e.addr / 4096, e.addr % 4096;
    assert e.addr + 4096 * n < e.End() + 4096;
    assert a + n == 0x10_0000_0000_0000;
    var q := (a + k) / 0x10_0000_0000_0000;
    SplitSteps(a + k);
    RemainderIs64(e.StepAt(k), q, 4096 * ((a + k) % 0x10_0000_0000_0000) + r);
  }

  lemma SplitSteps(x: nat)
    ensures x == 0x10_0000_0000_0000 * (x / 0x10_0000_0000_0000) + x % 0x10_0000_0000_0000
  {
  }

  lemma RemainderIs64(x: nat, q: nat, r: nat)
    requires x == 0x1_0000_0000_0000_0000 * q + r && r < 0x1_0000_0000_0000_0000
    ensures x % 0x1_0000_0000_0000_0000 == r
  {
  }

  // ----- which blocks a region releases -----

  /** Blocks whose number a 32-bit address can have. */
  const BLOCKS := 0x10_0000

  lemma SplitAddress(a: nat)
    ensures a == 4096 * (a / 4096) + a % 4096
  {
  }

  /** Step k lies k blocks after the start, at the same offset; cutting it takes the block number modulo 2^20. */
  lemma StepBlock(e: Entry, k: nat)
    ensures e.BlockAt(k) == (e.addr / BLOCK_SIZE + k) % BLOCKS
  {
    SplitAddress(e.addr);
    CutBlock(e.addr / 4096 + k, e.addr % 4096);
    assert e.StepAt(k) == 4096 * (e.addr / 4096 + k) + e.addr % 4096;
  }

  lemma CutBlock(c: nat, r: nat)
    requires r < 4096
    ensures (4096 * c + r) % 0x1_0000_0000 / 4096 == c % 0x10_0000
  {
    var q, d := c / 0x10_0000, c % 0x10_0000;
    assert c == 0x10_0000 * q + d;
    assert 4096 * c + r == 0x1_0000_0000 * q + (4096 * d + r);
    RemainderIs(4096 * c + r, q, 4096 * d + r);
    QuotientIs(4096 * d + r, d, r);
  }

  lemma RemainderIs(x: nat, q: nat, r: nat)
    requires x == 0x1_0000_0000 * q + r && r < 0x1_0000_0000
    ensures x % 0x1_0000_0000 == r
  {
  }

  lemma QuotientIs(x: nat, q: nat, r: nat)
    requires x == 4096 * q + r && r < 4096
    ensures x / 4096 == q
  {
  }

  lemma WrapIs(x: nat, q: nat, r: nat)
    requires x == 0x10_0000 * q + r && r < 0x10_0000
    ensures x % 0x10_0000 == r
  {
  }

  /**
   * A region releases block b exactly when b, or b a number of times 4 GB further up, lies from the block of its
   * start on and is stepped into, at the offset of the start, before its end.
   */
  lemma ReleasedBlocks(e: Entry, b: nat)
    requires e.kind == AVAILABLE
    ensures e.Releases(b) <==> b < BLOCKS && exists j: nat :: Stepped(e, b + BLOCKS * j)
  {
    if e.Releases(b) {
      var k: nat :| e.StepAt(k) < e.End() && e.BlockAt(k) == b;
      StepBlock(e, k);
      SplitAddress(e.addr);
      var c := e.addr / BLOCK_SIZE + k;
      var j := c / 0x10_0000;
      assert c == b + BLOCKS * j;
      assert Stepped(e, b + BLOCKS * j);
    }
    if b < BLOCKS && exists j: nat :: Stepped(e, b + BLOCKS * j) {
      var j: nat :| Stepped(e, b + BLOCKS * j);
      var k := b + BLOCKS * j - e.addr / BLOCK_SIZE;
      SplitAddress(e.addr);
      StepBlock(e, k);
      WrapIs(b + BLOCKS * j, j, b);
      assert e.StepAt(k) < e.End() && e.BlockAt(k) == b;
    }
  }

  /** The region steps into block c of its 64-bit addresses. */
  predicate Stepped(e: Entry, c: nat)
  {
    e.addr / BLOCK_SIZE <= c && BLOCK_SIZE * c + e.addr % BLOCK_SIZE < e.End()
  }

  /** Block b lies inside the region of the entry. */
  predicate Inside(e: Entry, b: nat)
  {
    e.addr <= BLOCK_SIZE * b && BLOCK_SIZE * b + BLOCK_SIZE <= e.End()
  }

  /** The region is empty, or block-aligned and below 4 GB, or starts at 0 and covers the first 4 GB. */
  predicate Tidy(e: Entry)
  {
    || e.End() <= e.addr
    || (e.addr % BLOCK_SIZE == 0 && e.End() % BLOCK_SIZE == 0 && e.End() <= WORD_LIMIT)
    || (e.addr == 0 && WORD_LIMIT <= e.End())
  }

  ghost predicate ReleasesInside(e: Entry)
  {
    forall b: nat :: b < BLOCKS ==> (e.Releases(b) <==> Inside(e, b))
  }

  /** Released and wholly available are the same thing for every block a 32-bit address can have exactly for tidy regions. */
  lemma AlignedExact(e: Entry)
    requires e.kind == AVAILABLE
    ensures ReleasesInside(e) <==> Tidy(e)
  {
    if Tidy(e) {
      forall b: nat | b < BLOCKS
        ensures e.Releases(b) <==> Inside(e, b)
      {
        TidyReleases(e, b);
      }
    } else {
      Untidy(e);
    }
  }

  lemma TidyReleases(e: Entry, b: nat)
    requires e.kind == AVAILABLE && Tidy(e) && b < BLOCKS
    ensures e.Releases(b) <==> Inside(e, b)
  {
    ReleasedBlocks(e, b);
    SplitAddress(e.addr);
    SplitAddress(e.End());
    if Inside(e, b) {
      assert Stepped(e, b + BLOCKS * 0);
    }
    if e.Releases(b) {
      var j: nat :| Stepped(e, b + BLOCKS * j);
      assert e.End() <= WORD_LIMIT ==> j == 0;
    }
  }

  /** In any other region some released block is not wholly available. */
  lemma Untidy(e: Entry)
    requires e.kind == AVAILABLE && !Tidy(e)
    ensures !ReleasesInside(e)
  {
    SplitAddress(e.addr);
    SplitAddress(e.End());
    var a := e.addr / BLOCK_SIZE;
    if a >= BLOCKS {
      var b := a % 0x10_0000;
      StepBlock(e, 0);
      assert e.BlockAt(0) == b && e.Releases(b) && !Inside(e, b);
    } else if e.End() > WORD_LIMIT {
      var k := if e.addr % BLOCK_SIZE == 0 then BLOCKS - a else 0;
      StepBlock(e, k);
      WrapIs(a + k, if k == 0 then 0 else 1, if k == 0 then a else 0);
      assert e.BlockAt(k) == (if k == 0 then a else 0);
      assert e.StepAt(k) < e.End();
      assert e.Releases(e.BlockAt(k)) && !Inside(e, e.BlockAt(k));
    } else {
      var last := if e.addr % BLOCK_SIZE == 0 then e.End() / BLOCK_SIZE else a;
      assert Stepped(e, last + BLOCKS * 0);
      ReleasedBlocks(e, last);
      assert !Inside(e, last);
    }
  }

  /** The usual low memory region of a PC, 0 to 0x9FC00: its last block is released though 1 KB of it is not available. */
  lemma PartialBlockReleased()
    ensures var e := Entry(20, 0, 0x9_FC00, AVAILABLE); e.Releases(159) && !Inside(e, 159)
  {
    var e := Entry(20, 0, 0x9_FC00, AVAILABLE);
    assert e.StepAt(159) < e.End() && e.BlockAt(159) == 159;
  }

  /** The usual region of a PC above 4 GB is block-aligned, and releases the blocks from 0 up, the kernel's among them. */
  lemma HighRegionReleasesLow()
    ensures var e := Entry(20, 0x1_0000_0000, 0x1_0000_0000, AVAILABLE);
      && e.Bounded() && e.addr % BLOCK_SIZE == 0 && e.End() % BLOCK_SIZE == 0
      && e.Releases(0) && e.Releases(256)
      && !Inside(e, 0) && !Inside(e, 256)
  {
    var e := Entry(20, 0x1_0000_0000, 0x1_0000_0000, AVAILABLE);
    assert e.StepAt(0) < e.End() && e.BlockAt(0) == 0;
    assert e.StepAt(256) < e.End() && e.BlockAt(256) == 256;
  }

  /** How many steps a region takes, from its start and modulo 4 GB, to the first of the blocks first to last. */
  function StepsTo(e: Entry, first: nat, last: nat): (k: nat)
    requires first <= last < BLOCKS
  {
    var a := e.addr / BLOCK_SIZE % BLOCKS;
    if a < first then first - a else if a <= last then 0 else BLOCKS - a + first
  }

  /** The region ends before it steps into one of the blocks first to last. */
  predicate EndsBefore(e: Entry, first: nat, last: nat)
    requires first <= last < BLOCKS
  {
    e.End() <= e.StepAt(StepsTo(e, first, last))
  }

  /**
   * The blocks first to last, say those of the kernel image, stay used through the walk exactly when every
   * available region ends before it steps into one of them.
   */
  lemma BlocksSpared(es: seq<Entry>, first: nat, last: nat)
    requires first <= last < BLOCKS
    ensures (forall b :: first <= b <= last ==> !SomeReleases(es, b))
       <==> forall i :: 0 <= i < |es| && es[i].kind == AVAILABLE ==> EndsBefore(es[i], first, last)
  {
    forall i | 0 <= i < |es| && es[i].kind == AVAILABLE
      ensures (forall b :: first <= b <= last ==> !es[i].Releases(b)) <==> EndsBefore(es[i], first, last)
    {
      RegionSpares(es[i], first, last);
    }
    if forall b :: first <= b <= last ==> !SomeReleases(es, b) {
      forall i, b | 0 <= i < |es| && first <= b <= last
        ensures !es[i].Releases(b)
      {
        assert !SomeReleases(es, b);
      }
    }
  }

  lemma RegionSpares(e: Entry, first: nat, last: nat)
    requires e.kind == AVAILABLE && first <= last < BLOCKS
    ensures (forall b :: first <= b <= last ==> !e.Releases(b)) <==> EndsBefore(e, first, last)
  {
    var k := StepsTo(e, first, last);
    StepHits(e, first, last);
    if e.StepAt(k) < e.End() {
      assert e.Releases(e.BlockAt(k));
    }
    forall b | first <= b <= last && e.Releases(b)
      ensures e.StepAt(k) < e.End()
    {
      var i: nat :| e.StepAt(i) < e.End() && e.BlockAt(i) == b;
      if i < k {
        StepMisses(e, first, last, i);
      }
    }
  }

  /** That step is in the range, and no earlier one is. */
  lemma StepHits(e: Entry, first: nat, last: nat)
    requires first <= last < BLOCKS
    ensures first <= e.BlockAt(StepsTo(e, first, last)) <= last
  {
    var k := StepsTo(e, first, last);
    StepBlock(e, k);
    var c := e.addr / BLOCK_SIZE;
    var q, a := c / 0x10_0000, c % 0x10_0000;
    assert c == 0x10_0000 * q + a;
    if a > last {
      WrapIs(c + k, q + 1, first);
    } else {
      WrapIs(c + k, q, a + k);
    }
  }

  lemma StepMisses(e: Entry, first: nat, last: nat, i: nat)
    requires first <= last < BLOCKS && i < StepsTo(e, first, last)
    ensures !(first <= e.BlockAt(i) <= last)
  {
    StepBlock(e, i);
    var c := e.addr / BLOCK_SIZE;
    var q, a := c / 0x10_0000, c % 0x10_0000;
    assert c == 0x10_0000 * q + a;
    if a + i < BLOCKS {
      WrapIs(c + i, q, a + i);
    } else {
      WrapIs(c + i, q + 1, a + i - BLOCKS);
    }
  }

  /** The usual region above 1 MB releases the block the kernel image starts in. */
  lemma KernelReleased()
    ensures Entry(20, 0x10_0000, 0x7EE_0000, AVAILABLE).Releases(256)
  {
    var e := Entry(20, 0x10_0000, 0x7EE_0000, AVAILABLE);
    assert e.StepAt(0) < e.End() && e.BlockAt(0) == 256;
  }

  // ----- boot -----

  /**
   * kernel_main's memory set-up: pmm_init, parse_memory_map, pmm_lock_memory(0). Afterwards a block is used
   * exactly when it is block 0, or the map does not release it and pmm_init found it used: blocks of the
   * whole bitmap words always, blocks of the partial last word when their bit happened to be set in memory.
   * The cached counter is right exactly when all of these bits were set and the map had released block 0.
   */
  method BootFrames(m: seq<byte>, info: nat, memory: array<Bits.bits>) returns (pmm: Pmm)
    requires MapReadable(m, info)
    requires RamBlocks(m, info) > 0 && memory.Length == (RamBlocks(m, info) + 31) / 32
    modifies memory
    ensures fresh(pmm) && pmm.bitmap == memory && pmm.Valid()
    ensures pmm.total == (Load(m, info + 4) + Load(m, info + 8)) % 0x40_0000 / 4
    ensures forall b :: 0 <= b < pmm.total ==>
              (b in pmm.Used() <==>
               b == 0 || (!SomeReleases(MapOf(m, info), b) && (b < pmm.Limit() || IsUsed(old(memory[..]), b))))
    ensures pmm.Drift() == 0 <==>
              TailUsed(old(memory[..]), pmm.Limit(), pmm.total)
              && SomeReleases(MapOf(m, info), 0)
  {
    pmm := LockAll(m, info, memory);
    KilobytesToBlocks(Load(m, info + 4) + Load(m, info + 8));
    ghost var drift := pmm.Drift();
    ParseMemoryMap(pmm, m, info);
    assert pmm.Drift() == drift;
    pmm.LockMemory(0);
  }

  /** pmm_init on the reported amount of RAM. */
  method LockAll(m: seq<byte>, info: nat, memory: array<Bits.bits>) returns (pmm: Pmm)
    requires info + 12 <= |m| && memory.Length == (RamBlocks(m, info) + 31) / 32
    modifies memory
    ensures fresh(pmm) && pmm.bitmap == memory && pmm.Valid() && pmm.total == RamBlocks(m, info) && pmm.Drift() < 0x10_0000
    ensures forall b: nat :: b in pmm.Used() <==> b < pmm.total && (b < pmm.Limit() || IsUsed(old(memory[..]), b))
    ensures pmm.Drift() == 0 <==> TailUsed(old(memory[..]), pmm.Limit(), pmm.total)
  {
    var ram := (Load(m, info + 4) + Load(m, info + 8)) * 1024 % WORD_LIMIT;
    pmm := new Pmm(memory, ram);
    forall b: nat
      ensures b in pmm.Used() <==> b < pmm.total && (b < pmm.Limit() || IsUsed(old(memory[..]), b))
    {
      InUsedSet(pmm.bitmap[..], pmm.total, b);
    }
    TailDecides(memory[..], old(memory[..]), pmm.Limit(), pmm.total);
  }

  /** Blocks of RAM according to mem_lower and mem_upper, in 32-bit arithmetic. */
  function RamBlocks(m: seq<byte>, info: nat): nat
    requires info + 12 <= |m|
  {
    (Load(m, info + 4) + Load(m, info + 8)) * 1024 % WORD_LIMIT / BLOCK_SIZE
  }

  /** Four kilobytes a block; the multiplication by 1024 drops what does not fit 32 bits. */
  lemma KilobytesToBlocks(x: nat)
    ensures x * 1024 % 0x1_0000_0000 / 4096 == x % 0x40_0000 / 4
  {
    var q, r := x / 0x40_0000, x % 0x40_0000;
    assert x == 0x40_0000 * q + r;
    RemainderIs(x * 1024, q, 1024 * r);
    assert r == 4 * (r / 4) + r % 4;
    QuotientIs(1024 * r, r / 4, 1024 * (r % 4));
  }

  ghost predicate TailUsed(bm: seq<Bits.bits>, from: nat, total: nat)
  {
    forall b :: from <= b < total ==> IsUsed(bm, b)
  }

  lemma TailDecides(bm: seq<Bits.bits>, was: seq<Bits.bits>, limit: nat, total: nat)
    requires FullBelow(bm, limit) && limit <= total
    requires forall b :: limit <= b < total ==> (IsUsed(bm, b) <==> IsUsed(was, b))
    ensures FullBelow(bm, total) <==> TailUsed(was, limit, total)
  {
  }

  // ----- memcpy -----

  /** Which original byte the forward copy leaves at dest + i: overlapped from below, the source repeats. */
  function CopySource(dest: nat, src: nat, i: nat): (k: nat)
    ensures k <= src + i
    decreases i
  {
    if src < dest <= src + i then CopySource(dest, src, i - (dest - src)) else src + i
  }

  method Memcpy(mem: array<byte>, dest: nat, src: nat, n: nat)
    requires dest + n <= mem.Length && src + n <= mem.Length
    modifies mem
    ensures forall i :: 0 <= i < n ==> CopySource(dest, src, i) < mem.Length && mem[dest + i] == old(mem[..])[CopySource(dest, src, i)]
    ensures forall k :: 0 <= k < mem.Length && !(dest <= k < dest + n) ==> mem[k] == old(mem[k])
  {
    var i := 0;
    while i < n
      invariant i <= n
      invariant forall j :: 0 <= j < i ==> CopySource(dest, src, j) < mem.Length && mem[dest + j] == old(mem[..])[CopySource(dest, src, j)]
      invariant forall k :: 0 <= k < mem.Length && !(dest <= k < dest + i) ==> mem[k] == old(mem[k])
    {
      assert src < dest <= src + i ==> mem[dest + (i - (dest - src))] == old(mem[..])[CopySource(dest, src, i)];
      mem[dest + i] := mem[src + i];
      i := i + 1;
    }
  }

  /** A copy to d bytes above its source repeats the first d bytes of it for ever. */
  lemma {:induction false} CopyRepeats(src: nat, d: nat, q: nat, r: nat)
    requires r < d
    ensures 0 <= q * d + r && CopySource(src + d, src, q * d + r) == src + r
    decreases q
  {
    if q == 0 {
    } else {
      CopyRepeats(src, d, q - 1, r);
      assert q * d + r - d == (q - 1) * d + r;
    }
  }

  /** The copy is faithful for every content exactly when the destination does not start inside the source, past its first byte. */
  lemma CopyFaithful(dest: nat, src: nat, n: nat)
    ensures (forall i :: 0 <= i < n ==> CopySource(dest, src, i) == src + i) <==> !(src < dest < src + n)
  {
    if src < dest < src + n {
      assert CopySource(dest, src, dest - src) == src;
    }
  }
}
