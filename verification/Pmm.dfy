/** src/pmm.c: the bitmap of physical 4 KB blocks, one bit a block, set while used. */
module Pmm {
  import opened Words
  import opened Bits
  import opened Frames

  const NONE: word := 0xFFFF_FFFF

  predicate IsUsed(bm: seq<bits>, b: nat)
  {
    b / 32 < |bm| && Bit(bm[b / 32], b % 32)
  }

  /** The used blocks below total. */
  ghost function UsedSet(bm: seq<bits>, total: nat): set<nat>
  {
    if total == 0 then {}
    else if IsUsed(bm, total - 1) then UsedSet(bm, total - 1) + {total - 1}
    else UsedSet(bm, total - 1)
  }

  lemma {:induction false} InUsedSet(bm: seq<bits>, total: nat, b: nat)
    ensures b in UsedSet(bm, total) <==> b < total && IsUsed(bm, b)
  {
    if total > 0 {
      InUsedSet(bm, total - 1, b);
    }
  }

  /** w with bit j forced to `used`. */
  function MarkedWord(w: bits, j: nat, used: bool): bits
    requires j < 32
  {
    if used then w | Mask(j) else w & !Mask(j)
  }

  lemma MarkedWordBit(w: bits, j: nat, used: bool, k: nat)
    requires j < 32 && k < 32
    ensures Bit(MarkedWord(w, j, used), k) <==> if k == j then used else Bit(w, k)
  {
    if k == j {
      ThisBit(w, j);
    } else {
      OtherBitTest(w, j, k);
    }
  }

  /** bm with the bit of block b forced to `used`. */
  function Marked(bm: seq<bits>, b: nat, used: bool): seq<bits>
    requires b / 32 < |bm|
  {
    bm[b / 32 := MarkedWord(bm[b / 32], b % 32, used)]
  }

  /** Marking touches one block only. */
  lemma MarkedBit(bm: seq<bits>, b: nat, used: bool, c: nat)
    requires b / 32 < |bm|
    ensures IsUsed(Marked(bm, b, used), c) <==> if c == b then used else IsUsed(bm, c)
  {
    var i, j, k := b / 32, b % 32, c % 32;
    if c / 32 == i {
      assert c == b <==> k == j;
      MarkedWordBit(bm[i], j, used, k);
      assert Marked(bm, b, used)[i] == MarkedWord(bm[i], j, used);
    }
  }

  lemma MarkedSet(bm: seq<bits>, b: nat, used: bool, total: nat)
    requires b / 32 < |bm|
    ensures UsedSet(Marked(bm, b, used), total)
         == if b >= total then UsedSet(bm, total) else if used then UsedSet(bm, total) + {b} else UsedSet(bm, total) - {b}
  {
    forall c: nat
      ensures c in UsedSet(Marked(bm, b, used), total)
          <==> c in if b >= total then UsedSet(bm, total) else if used then UsedSet(bm, total) + {b} else UsedSet(bm, total) - {b}
    {
      MarkedBit(bm, b, used, c);
      InUsedSet(bm, total, c);
      InUsedSet(Marked(bm, b, used), total, c);
    }
  }

  /** Every block below n is used. */
  ghost predicate FullBelow(bm: seq<bits>, n: nat)
  {
    forall b :: 0 <= b < n ==> IsUsed(bm, b)
  }

  /** A word equal to FULL may be skipped whole. */
  lemma SkipFullWord(bm: seq<bits>, i: nat)
    requires i < |bm| && bm[i] == FULL && FullBelow(bm, 32 * i)
    ensures FullBelow(bm, 32 * i + 32)
  {
    forall b | 32 * i <= b < 32 * i + 32
      ensures IsUsed(bm, b)
    {
      FullWord(b % 32);
      assert b / 32 == i;
    }
  }

  /** A word other than FULL has a clear bit: the inner search cannot run off its end. */
  lemma ClearBitExists(bm: seq<bits>, i: nat)
    requires i < |bm| && FullBelow(bm, 32 * i + 32)
    ensures bm[i] == FULL
  {
    forall j | 0 <= j < 32
      ensures Bit(bm[i], j)
    {
      assert IsUsed(bm, 32 * i + j);
      assert (32 * i + j) / 32 == i && (32 * i + j) % 32 == j;
    }
    AllBits(bm[i]);
  }

  /** Number of used blocks below n. */
  ghost function Count(bm: seq<bits>, n: nat): nat
  {
    if n == 0 then 0 else Count(bm, n - 1) + if IsUsed(bm, n - 1) then 1 else 0
  }

  lemma {:induction false} CountChanged(bm: seq<bits>, m: seq<bits>, b: nat, used: bool, n: nat)
    requires forall c :: IsUsed(m, c) <==> if c == b then used else IsUsed(bm, c)
    ensures Count(m, n) == Count(bm, n) + if b < n && used != IsUsed(bm, b) then (if used then 1 else -1) else 0
  {
    if n > 0 {
      CountChanged(bm, m, b, used, n - 1);
      assert IsUsed(m, n - 1) <==> if n - 1 == b then used else IsUsed(bm, n - 1);
    }
  }

  lemma CountMarked(bm: seq<bits>, b: nat, used: bool, n: nat)
    requires b / 32 < |bm|
    ensures Count(Marked(bm, b, used), n)
         == Count(bm, n) + if b < n && used != IsUsed(bm, b) then (if used then 1 else -1) else 0
  {
    var m := Marked(bm, b, used);
    forall c: nat
      ensures IsUsed(m, c) <==> if c == b then used else IsUsed(bm, c)
    {
      MarkedBit(bm, b, used, c);
    }
    CountChanged(bm, m, b, used, n);
  }

  /** All of the first n bits are set exactly when the count is n. */
  lemma {:induction false} CountFull(bm: seq<bits>, n: nat)
    ensures Count(bm, n) <= n && (Count(bm, n) == n <==> FullBelow(bm, n))
  {
    if n > 0 {
      CountFull(bm, n - 1);
      assert FullBelow(bm, n) <==> FullBelow(bm, n - 1) && IsUsed(bm, n - 1);
    }
  }

  lemma AddNew(s: set<nat>, x: nat)
    requires x !in s
    ensures |s + {x}| == |s| + 1
  {
  }

  lemma {:induction false} CountIsSize(bm: seq<bits>, n: nat)
    ensures Count(bm, n) == |UsedSet(bm, n)|
  {
    if n > 0 {
      CountIsSize(bm, n - 1);
      InUsedSet(bm, n - 1, n - 1);
      if IsUsed(bm, n - 1) {
        AddNew(UsedSet(bm, n - 1), n - 1);
      }
    }
  }

  /** The block the search stops at is the least one not used. */
  lemma SearchIsNextFree(s: Frames, bm: seq<bits>, b: nat)
    requires s.used == UsedSet(bm, s.total) && b <= s.limit <= s.total
    requires FullBelow(bm, b) && (b < s.limit ==> !IsUsed(bm, b))
    ensures s.NextFree() == b && (b < s.limit ==> b !in s.used)
  {
    forall c: nat
      ensures c in s.used <==> c < s.total && IsUsed(bm, c)
    {
      InUsedSet(bm, s.total, c);
    }
    s.NextFreeIs(0, b);
  }

  class Pmm {
    var total: nat            // total_blocks
    var used: word            // used_blocks
    const bitmap: array<bits> // pmm_bitmap

    ghost predicate Valid()
      reads this, bitmap
    {
      && total < 0x10_0000
      && bitmap.Length == (total + 31) / 32
      && 0 <= Drift() < 0x8000_0000
    }

    /** Blocks whose bit is set. */
    ghost function Used(): set<nat>
      reads this, bitmap
    {
      UsedSet(bitmap[..], total)
    }

    /** By how much the cached counter exceeds the number of set bits. */
    ghost function Drift(): int
      reads this, bitmap
    {
      used - Count(bitmap[..], total)
    }

    /** What callers see: the used blocks and the cached counter. */
    ghost function View(): Frames
      reads this, bitmap
    {
      Frames(total, Limit(), Used(), used)
    }

    /** The search covers whole words only. */
    function Limit(): nat
      reads this
    {
      total / 32 * 32
    }

    /** pmm_init: `memory` is whatever lies behind the kernel image; its last word may hold a partial tail. */
    constructor (memory: array<bits>, ramSize: word)
      requires memory.Length == (ramSize / BLOCK_SIZE + 31) / 32
      modifies memory
      ensures Valid() && bitmap == memory && total == ramSize / BLOCK_SIZE
      ensures FullBelow(bitmap[..], Limit())
      ensures used == total
      ensures forall b :: Limit() <= b < total ==> (IsUsed(bitmap[..], b) <==> IsUsed(old(memory[..]), b))
      ensures Drift() == 0 <==> FullBelow(bitmap[..], total)
    {
      total := ramSize / BLOCK_SIZE;
      bitmap := memory;
      used := ramSize / BLOCK_SIZE;
      new;
      FillWords();
      CountFull(bitmap[..], total);
    }

    /** "Lock down": every whole word set to all ones. */
    method FillWords()
      requires bitmap.Length == (total + 31) / 32
      modifies bitmap
      ensures FullBelow(bitmap[..], Limit())
      ensures forall b :: Limit() <= b < total ==> (IsUsed(bitmap[..], b) <==> IsUsed(old(bitmap[..]), b))
    {
      var length := total / 32;
      var i := 0;
      while i < length
        invariant i <= length
        invariant FullBelow(bitmap[..], 32 * i)
        invariant bitmap[..][length..] == old(bitmap[..])[length..]
      {
        ghost var before := bitmap[..];
        bitmap[i] := FULL;
        forall b | 0 <= b < 32 * i
          ensures IsUsed(bitmap[..], b)
        {
          assert IsUsed(before, b);
        }
        SkipFullWord(bitmap[..], i);
        i := i + 1;
      }
      forall b | Limit() <= b < total
        ensures IsUsed(bitmap[..], b) <==> IsUsed(old(bitmap[..]), b)
      {
        assert bitmap[..][b / 32] == bitmap[..][length..][b / 32 - length];
      }
    }

    /** pmm_bitmap[block / 32] & (1 << block % 32). */
    method Test(block: nat) returns (isSet: bool)
      requires Valid() && block < total
      ensures isSet <==> block in Used()
    {
      InUsedSet(bitmap[..], total, block);
      isSet := bitmap[block / 32] & Mask(block % 32) != 0;
    }

    /** Forces the bit of one block of the bitmap. */
    method Mark(block: nat, to: bool)
      requires bitmap.Length == (total + 31) / 32 && block / 32 < bitmap.Length
      modifies bitmap
      ensures Used() == if block >= total then old(Used()) else if to then old(Used()) + {block} else old(Used()) - {block}
      ensures Count(bitmap[..], total)
           == old(Count(bitmap[..], total)) + if block < total && to != (block in old(Used())) then (if to then 1 else -1) else 0
    {
      MarkedSet(bitmap[..], block, to, total);
      CountMarked(bitmap[..], block, to, total);
      InUsedSet(bitmap[..], total, block);
      bitmap[block / 32] := MarkedWord(bitmap[block / 32], block % 32, to);
      assert bitmap[..] == Marked(old(bitmap[..]), block, to);
    }

    method FreeMemory(address: word)
      requires Valid()
      modifies this, bitmap
      ensures Valid() && View() == old(View()).Step(Release(address))
      ensures Used() == old(Used()) - {address / BLOCK_SIZE} && Drift() == old(Drift())
    {
      var block := address / BLOCK_SIZE;
      InUsedSet(bitmap[..], total, block);
      if block >= total {
        return;
      }
      var inUse := Test(block);
      if !inUse {
        return;
      }
      Mark(block, false);
      used := used - 1;
    }

    /** The word-skip search: the least clear bit of the whole words, NONE exactly when there is none. */
    method FirstFree() returns (index: word)
      requires Valid()
      ensures index == NONE <==> FullBelow(bitmap[..], Limit())
      ensures index != NONE ==> index < Limit() && !IsUsed(bitmap[..], index) && FullBelow(bitmap[..], index)
    {
      var i := 0;
      while i < total / 32
        invariant i <= total / 32
        invariant FullBelow(bitmap[..], 32 * i)
      {
        if bitmap[i] != FULL {
          var j := 0;
          while j < 32
            invariant j <= 32
            invariant FullBelow(bitmap[..], 32 * i + j)
          {
            assert (32 * i + j) / 32 == i && (32 * i + j) % 32 == j;
            if bitmap[i] & Mask(j) == 0 {
              assert !IsUsed(bitmap[..], 32 * i + j);
              return 32 * i + j;
            }
            j := j + 1;
          }
          ClearBitExists(bitmap[..], i);
        }
        SkipFullWord(bitmap[..], i);
        i := i + 1;
      }
      return NONE;
    }

    method AllocBlock() returns (address: word)
      requires Valid()
      modifies this, bitmap
      ensures Valid() && View() == old(View()).Step(Take) && Drift() == old(Drift())
      ensures var b := old(View()).NextFree();
        if b < Limit() then address == b * BLOCK_SIZE < NONE else address == NONE
    {
      var index := FirstFree();
      if index == NONE {
        SearchIsNextFree(View(), bitmap[..], Limit());
        return NONE;
      }
      SearchIsNextFree(View(), bitmap[..], index);
      CountFull(bitmap[..], total);
      ghost var was := View();
      Mark(index, true);
      used := used + 1;
      assert View() == was.(used := was.used + {index}, counter := was.counter + 1);
      address := index * BLOCK_SIZE;
      assert address / BLOCK_SIZE == index;
    }

    /** The counter goes up even when the block was already used, or is one of the spare bits of the last word. */
    method LockMemory(address: word)
      requires Valid() && address / BLOCK_SIZE / 32 < bitmap.Length && Drift() < 0x7FFF_FFFF
      modifies this, bitmap
      ensures Valid() && View() == old(View()).Step(Lock(address))
      ensures Drift() == old(Drift()) + if old(View()).DoubleLock(Lock(address)) then 1 else 0
    {
      var block := address / BLOCK_SIZE;
      CountFull(bitmap[..], total);
      Mark(block, true);
      used := used + 1;
    }
  }

  /** One block of RAM whose bit happens to be clear: pmm_init counts it as used although it is not. */
  method ClearTailExample() returns (pmm: Pmm)
    ensures fresh(pmm) && pmm.Valid() && pmm.total == 1
    ensures pmm.used == 1 && pmm.Used() == {} && pmm.Drift() == 1
  {
    var memory := new bits[1](_ => 0);
    ghost var was := memory[..];
    pmm := new Pmm(memory, BLOCK_SIZE);
    assert !IsUsed(was, 0) && !IsUsed(pmm.bitmap[..], 0);
    assert UsedSet(pmm.bitmap[..], 0) == {} && Count(pmm.bitmap[..], 0) == 0;
  }

  /** Freeing a block right after it was allocated restores the bitmap bit for bit. */
  lemma AllocThenFree(bm: seq<bits>, b: nat)
    requires b / 32 < |bm| && !IsUsed(bm, b)
    ensures Marked(Marked(bm, b, true), b, false) == bm
  {
    MarkedWordUndo(bm[b / 32], b % 32);
    var once := Marked(bm, b, true);
    assert Marked(once, b, false)[b / 32] == bm[b / 32];
  }

  lemma MarkedWordUndo(w: bits, j: nat)
    requires j < 32 && !Bit(w, j)
    ensures MarkedWord(MarkedWord(w, j, true), j, false) == w
  {
  }
}
