/** src/paging.c: building and extending the kernel page directory. */
module Paging {
  import opened Words
  import opened PageTables
  import Frames
  import Pmm

  const DIRECTORY_SPAN := 0x40_0000  // bytes one directory entry covers

  const HEAP_PAGE := 4096            // page number of 0x1000000

  /** What the allocator returns in state v: its next free block, or the sentinel. */
  function FrameAddress(v: Frames.Frames): nat
  {
    if v.NextFree() < v.limit then v.NextFree() * FRAME else Pmm.NONE
  }

  /** The page that address lies in: once paging is on, it has to be mapped for the frame to be written. */
  function FramePage(v: Frames.Frames): nat
  {
    if v.NextFree() < v.limit then v.NextFree() else PAGES - 1
  }

  /** The next free block lies in the first 4 MB, where the kernel can write it. */
  predicate LowFrame(v: Frames.Frames)
  {
    v.NextFree() < v.limit && v.NextFree() < LOW
  }

  /** The next n allocations all return blocks in the first 4 MB. */
  predicate LowSupply(v: Frames.Frames, n: nat)
    decreases n
  {
    n == 0 || (LowFrame(v) && LowSupply(v.Step(Frames.Take), n - 1))
  }

  /** How a call of map_page ends. */
  datatype Outcome = Done | Fault | Astray

  /**
   * How map_page for directory entry d ends when the kernel's directory is frame dir and the allocator is in state v:
   * it faults when it cannot reach the directory or the table; it goes astray when it puts a new table into a frame
   * above 4 MB while the page of that number is mapped, and so writes whatever frame that page shows.
   */
  function Ending(m: seq<word>, dir: nat, d: nat, v: Frames.Frames): Outcome
    requires HasFrame(m, dir) && d < ENTRIES && FramePage(v) < PAGES
  {
    var de := DirEntry(m, dir, d);
    if dir >= LOW then Fault
    else if Present(de) then (if FrameOf(de) < LOW then Done else Fault)
    else if LowFrame(v) then Done
    else if Walk(m, dir, FramePage(v)) == None then Fault
    else Astray
  }

  /** The page is one of the first 4 MB, or unmapped. */
  predicate Plain(m: seq<word>, dir: nat, page: nat)
    requires HasFrame(m, dir)
  {
    page < LOW || (page < PAGES && Walk(m, dir, page) == None)
  }

  /**
   * What is left out: a directory or a linked table above 4 MB seen through a mapping, an exhausted allocator while the last
   * page is mapped, and a page that shows the directory, a table or no memory.
   */
  ghost predicate Covered(m: seq<word>, dir: nat, d: nat, v: Frames.Frames)
    requires HasFrame(m, dir) && d < ENTRIES && FramePage(v) < PAGES
  {
    var de := DirEntry(m, dir, d);
    && Plain(m, dir, dir)
    && (Present(de) ==> Plain(m, dir, FrameOf(de)))
    && (Ending(m, dir, d, v) == Astray ==> v.NextFree() < v.limit && DataFrame(m, dir, Walk(m, dir, FramePage(v)).value.frame))
  }

  /** The allocator's state after map_page. */
  function After(m: seq<word>, dir: nat, d: nat, v: Frames.Frames): Frames.Frames
    requires HasFrame(m, dir) && d < ENTRIES
  {
    if dir >= LOW || Present(DirEntry(m, dir, d)) then v else v.Step(Frames.Take)
  }

  class Vmm {
    const pmm: Pmm.Pmm
    const mem: array<word>  // physical memory
    var directory: word     // kernel_directory, a physical address

    ghost function Dir(): nat
      reads this
    {
      directory / FRAME
    }

    /** RAM covers every block the allocator may hand out. */
    ghost predicate Backed()
      reads this, pmm, pmm.bitmap
    {
      pmm.Valid() && pmm.total * ENTRIES <= mem.Length
    }

    ghost predicate Valid()
      reads this, pmm, pmm.bitmap, mem
    {
      && Backed()
      && directory % FRAME == 0
      && WellLinked(mem[..], Dir(), pmm.Used())
    }

    /** Paging is on and the kernel can reach its own tables: what paging_init is for. */
    ghost predicate Reachable()
      reads this, mem
    {
      LowIdentity(mem[..], Dir()) && LowTables(mem[..], Dir())
    }

    constructor (pmm: Pmm.Pmm, mem: array<word>)
      ensures this.pmm == pmm && this.mem == mem && directory == NULL
    {
      this.pmm := pmm;
      this.mem := mem;
      this.directory := NULL;
    }

    // ----- paging_init: physical stores, paging still off -----

    /**
     * Fails (the kernel halts) exactly when fewer than two blocks are free. Otherwise the
     * first 4 MB translate to themselves and nothing else is mapped. With paging on, the
     * directory and table can be reached exactly when both frames lie in the first 4 MB.
     */
    method PagingInit() returns (ok: bool)
      requires Backed()
      modifies this, mem, pmm, pmm.bitmap
      ensures var v := old(pmm.View());
        var f, g := v.NextFree(), v.Step(Frames.Take).NextFree();
        && (ok <==> f < v.limit && g < v.limit)
        && (ok ==>
              && Valid() && Dir() == f
              && LowIdentity(mem[..], f)
              && (LowTables(mem[..], f) <==> f < LOW && g < LOW)
              && (forall p :: LOW <= p < PAGES ==> Walk(mem[..], f, p) == None)
              && EmptyEntries(mem[..], f, 1, ENTRIES) && FrameOf(DirEntry(mem[..], f, 0)) == g
              && pmm.View() == v.Step(Frames.Take).Step(Frames.Take))
    {
      var dir := TryTakeFrame();
      if dir == Pmm.NONE {
        return false;
      }
      directory := dir;
      FillDirectory(dir / FRAME);
      var table := TryTakeFrame();
      if table == Pmm.NONE {
        return false;
      }
      MapLow(dir / FRAME, table, pmm.Used());
      return true;
    }

    /** The identity map of the first 4 MB; the source writes it twice. */
    method MapLow(f: nat, table: word, ghost used: set<nat>)
      requires HasFrame(mem[..], f) && HasFrame(mem[..], table / FRAME) && f != table / FRAME && table % FRAME == 0
      requires f in used && table / FRAME in used && forall u :: u in used ==> HasFrame(mem[..], u)
      requires EmptyEntries(mem[..], f, 1, ENTRIES)
      modifies mem
      ensures WellLinked(mem[..], f, used) && LowIdentity(mem[..], f)
      ensures LowTables(mem[..], f) <==> f < LOW && table / FRAME < LOW
      ensures forall p :: LOW <= p < PAGES ==> Walk(mem[..], f, p) == None
      ensures EmptyEntries(mem[..], f, 1, ENTRIES) && FrameOf(DirEntry(mem[..], f, 0)) == table / FRAME
    {
      FillIdentity(f, table);
      FillIdentity(f, table);
      AlignedFlags(table);
      EntryBits(table / FRAME);
      InitialWalks(mem[..], f, table / FRAME, used);
    }

    method TryTakeFrame() returns (t: word)
      requires Backed()
      modifies pmm, pmm.bitmap
      ensures Backed() && pmm.View() == old(pmm.View()).Step(Frames.Take)
      ensures var f := old(pmm.View()).NextFree();
        if f < old(pmm.View()).limit then
          && t == f * FRAME < Pmm.NONE
          && t / FRAME == f
          && f !in old(pmm.Used()) && pmm.Used() == old(pmm.Used()) + {f}
          && HasFrame(mem[..], f)
        else t == Pmm.NONE
      ensures forall f :: f in pmm.Used() ==> HasFrame(mem[..], f)
    {
      t := pmm.AllocBlock();
      forall f | f in pmm.Used()
        ensures HasFrame(mem[..], f)
      {
        Pmm.InUsedSet(pmm.bitmap[..], pmm.total, f);
      }
    }

    /** Every entry "not present, writable". */
    method FillDirectory(f: nat)
      requires HasFrame(mem[..], f)
      modifies mem
      ensures EmptyEntries(mem[..], f, 0, ENTRIES)
    {
      for i := 0 to ENTRIES
        invariant EmptyEntries(mem[..], f, 0, i)
      {
        mem[Slot(f, i)] := EMPTY;
      }
    }

    /** Identity entries into the first table and its link into slot 0. */
    method FillIdentity(f: nat, table: word)
      requires HasFrame(mem[..], f) && HasFrame(mem[..], table / FRAME) && f != table / FRAME && table % FRAME == 0
      requires EmptyEntries(mem[..], f, 1, ENTRIES)
      modifies mem
      ensures IdentityTable(mem[..], table / FRAME, ENTRIES)
      ensures EmptyEntries(mem[..], f, 1, ENTRIES) && DirEntry(mem[..], f, 0) == table / FRAME * FRAME + USER_RW
    {
      var t := table / FRAME;
      for i := 0 to ENTRIES
        invariant IdentityTable(mem[..], t, i)
        invariant EmptyEntries(mem[..], f, 1, ENTRIES)
      {
        mem[Slot(t, i)] := i * FRAME + USER_RW;
      }
      AlignedFlags(table);
      mem[Slot(f, 0)] := WithFlags(table);
    }

    // ----- accesses with paging on -----

    /** Word i of the table at address base can be accessed: its page is mapped, to memory that is there. */
    ghost predicate Reaches(base: nat, i: nat)
      reads this, mem
    {
      && i < ENTRIES && base % FRAME == 0 && base / FRAME < PAGES && HasFrame(mem[..], Dir())
      && var w := Walk(mem[..], Dir(), base / FRAME);
      w.Some? && HasFrame(mem[..], w.value.frame)
    }

    /** The frame the page at address base shows. */
    ghost function Shown(base: nat): nat
      requires Reaches(base, 0)
      reads this, mem
    {
      Walk(mem[..], Dir(), base / FRAME).value.frame
    }

    /** Physical word the processor accesses for address base + 4 i. */
    function Translate(base: nat, i: nat): (k: nat)
      requires Reaches(base, i)
      reads this, mem
      ensures k == Slot(Shown(base), i)
    {
      SameFrame(base, i);
      Slot(Walk(mem[..], directory / FRAME, (base + 4 * i) / FRAME).value.frame, (base + 4 * i) % FRAME / 4)
    }

    method StoreVirtual(base: nat, i: nat, w: word)
      requires Reaches(base, i)
      modifies mem
      ensures mem[..] == old(mem[..])[Slot(old(Shown(base)), i) := w]
    {
      mem[Translate(base, i)] := w;
    }

    method LoadVirtual(base: nat, i: nat) returns (w: word)
      requires Reaches(base, i)
      ensures w == mem[..][Slot(Shown(base), i)]
    {
      w := mem[Translate(base, i)];
    }

    /** The first 4 MB are the identity, and the directory lies there. */
    ghost predicate Direct()
      reads this, mem
    {
      LowIdentity(mem[..], Dir()) && Dir() < LOW
    }

    /** Accesses to the first 4 MB reach the frame they name. */
    lemma InLow(base: nat, i: nat)
      requires LowIdentity(mem[..], Dir()) && base % FRAME == 0 && base / FRAME < LOW && i < ENTRIES && HasFrame(mem[..], base / FRAME)
      ensures Reaches(base, i) && Shown(base) == base / FRAME
    {
    }

    // ----- map_page -----

    method TakeFrame() returns (t: word)
      requires Valid()
      modifies pmm, pmm.bitmap
      ensures Valid() && pmm.View() == old(pmm.View()).Step(Frames.Take)
      ensures t == FrameAddress(old(pmm.View())) && t / FRAME == FramePage(old(pmm.View()))
      ensures var f := old(pmm.View()).NextFree();
        f < old(pmm.Limit()) ==>
          && t % FRAME == 0 && HasFrame(mem[..], f)
          && f !in old(pmm.Used()) && pmm.Used() == old(pmm.Used()) + {f}
    {
      ghost var used := pmm.Used();
      t := TryTakeFrame();
      StillLinked(mem[..], Dir(), used, pmm.Used());
      assert used + pmm.Used() == pmm.Used();
    }

    /** map_page. A fault halts the kernel; a frame taken for the new table is lost. */
    method MapPage(va: word, pa: word) returns (end: Outcome)
      requires Valid() && LowIdentity(mem[..], Dir())
      requires FramePage(pmm.View()) < PAGES && Covered(mem[..], Dir(), va / DIRECTORY_SPAN, pmm.View())
      modifies mem, pmm, pmm.bitmap
      ensures Valid() && end == Ending(old(mem[..]), Dir(), va / DIRECTORY_SPAN, old(pmm.View()))
      ensures end == Done ==> Mapped(old(mem[..]), mem[..], Dir(), va / DIRECTORY_SPAN, va / FRAME, pa / FRAME)
      ensures end == Done && !Present(DirEntry(old(mem[..]), Dir(), va / DIRECTORY_SPAN)) ==>
                FrameOf(DirEntry(mem[..], Dir(), va / DIRECTORY_SPAN)) == FramePage(old(pmm.View()))
      ensures end == Fault ==> mem[..] == old(mem[..])
      ensures end == Astray ==>
                Misplaced(old(mem[..]), mem[..], Dir(), va / DIRECTORY_SPAN, va / FRAME % ENTRIES,
                          Walk(old(mem[..]), Dir(), FramePage(old(pmm.View()))).value.frame, FrameAddress(old(pmm.View())), WithFlags(pa))
      ensures pmm.View() == After(old(mem[..]), Dir(), va / DIRECTORY_SPAN, old(pmm.View()))
    {
      Indices(va);
      var d, i := va / DIRECTORY_SPAN % ENTRIES, va / FRAME % ENTRIES;
      assert d == va / DIRECTORY_SPAN;
      end := MapEntry(d, i, pa);
    }

    /** The same, by directory and table index. */
    method MapEntry(d: nat, i: nat, pa: word) returns (end: Outcome)
      requires Valid() && LowIdentity(mem[..], Dir()) && d < ENTRIES && i < ENTRIES
      requires FramePage(pmm.View()) < PAGES && Covered(mem[..], Dir(), d, pmm.View())
      modifies mem, pmm, pmm.bitmap
      ensures Valid() && end == Ending(old(mem[..]), Dir(), d, old(pmm.View()))
      ensures end == Done ==> Mapped(old(mem[..]), mem[..], Dir(), d, d * ENTRIES + i, pa / FRAME)
      ensures end == Done && !Present(DirEntry(old(mem[..]), Dir(), d)) ==> FrameOf(DirEntry(mem[..], Dir(), d)) == FramePage(old(pmm.View()))
      ensures end == Fault ==> mem[..] == old(mem[..])
      ensures end == Astray ==>
                Misplaced(old(mem[..]), mem[..], Dir(), d, i,
                          Walk(old(mem[..]), Dir(), FramePage(old(pmm.View()))).value.frame, FrameAddress(old(pmm.View())), WithFlags(pa))
      ensures pmm.View() == After(old(mem[..]), Dir(), d, old(pmm.View()))
    {
      if Walk(mem[..], directory / FRAME, directory / FRAME) == None {
        return Fault;  // the directory cannot be read
      }
      assert Direct();
      InLow(directory, d);
      var de := LoadVirtual(directory, d);
      if !Present(de) {
        end := AddAndSet(d, i, pa);
      } else {
        end := OpenAndSet(d, i, de, pa);
      }
    }

    /** The branch of map_page for a missing table. */
    method AddAndSet(d: nat, i: nat, pa: word) returns (end: Outcome)
      requires Valid() && Direct() && d < ENTRIES && i < ENTRIES && !Present(DirEntry(mem[..], Dir(), d))
      requires FramePage(pmm.View()) < PAGES && Covered(mem[..], Dir(), d, pmm.View())
      modifies mem, pmm, pmm.bitmap
      ensures Valid() && end == Ending(old(mem[..]), Dir(), d, old(pmm.View()))
      ensures end == Done ==>
                && Mapped(old(mem[..]), mem[..], Dir(), d, d * ENTRIES + i, pa / FRAME)
                && FrameOf(DirEntry(mem[..], Dir(), d)) == FramePage(old(pmm.View()))
      ensures end == Fault ==> mem[..] == old(mem[..])
      ensures end == Astray ==>
                Misplaced(old(mem[..]), mem[..], Dir(), d, i,
                          Walk(old(mem[..]), Dir(), FramePage(old(pmm.View()))).value.frame, FrameAddress(old(pmm.View())), WithFlags(pa))
      ensures pmm.View() == old(pmm.View()).Step(Frames.Take)
    {
      ghost var m, used := mem[..], pmm.Used();
      var t := TakeFrame();
      assert mem[..] == m;
      if Walk(mem[..], directory / FRAME, t / FRAME) == None {
        return Fault;
      }
      if t / FRAME < LOW {
        LinkAndSet(d, i, t, pa, used);
        return Done;
      }
      LinkAstray(d, i, t, pa, used);
      end := Astray;
    }

    /** The new table lies in the first 4 MB. */
    method LinkAndSet(d: nat, i: nat, t: word, pa: word, ghost used: set<nat>)
      requires WellLinked(mem[..], Dir(), used) && Direct() && directory % FRAME == 0
      requires d < ENTRIES && i < ENTRIES && !Present(DirEntry(mem[..], Dir(), d))
      requires t % FRAME == 0 && t / FRAME < LOW && t / FRAME !in used && HasFrame(mem[..], t / FRAME)
      modifies mem
      ensures WellLinked(mem[..], Dir(), used + {t / FRAME})
      ensures Mapped(old(mem[..]), mem[..], Dir(), d, d * ENTRIES + i, pa / FRAME)
      ensures FrameOf(DirEntry(mem[..], Dir(), d)) == t / FRAME
    {
      ghost var m := mem[..];
      LinkTable(d, t, used);
      ghost var linked := mem[..];
      SetEntry(d, i, pa, used + {t / FRAME});
      MappedAfter(m, linked, mem[..], Dir(), d, d * ENTRIES + i, pa / FRAME);
    }

    /** The branch for a table that is there: its entry is opened, which changes nothing. */
    method OpenAndSet(d: nat, i: nat, de: word, pa: word) returns (end: Outcome)
      requires Valid() && Direct() && d < ENTRIES && i < ENTRIES && de == DirEntry(mem[..], Dir(), d) && Present(de)
      requires Plain(mem[..], Dir(), FrameOf(de))
      modifies mem
      ensures Valid() && end == if FrameOf(de) < LOW then Done else Fault
      ensures end == Done ==> Mapped(old(mem[..]), mem[..], Dir(), d, d * ENTRIES + i, pa / FRAME)
      ensures end == Fault ==> mem[..] == old(mem[..])
    {
      ghost var m := mem[..];
      UpgradeEntry(d, de, pmm.Used());
      if Walk(mem[..], directory / FRAME, FrameOf(de)) == None {
        return Fault;
      }
      SetEntry(d, i, pa, pmm.Used());
      SameMapped(m, mem[..], Dir(), d, d * ENTRIES + i, pa / FRAME);
      end := Done;
    }

    /** entries[d] |= 7 on an entry that already has these flags. */
    method UpgradeEntry(d: nat, de: word, ghost used: set<nat>)
      requires WellLinked(mem[..], Dir(), used) && Direct() && directory % FRAME == 0
      requires d < ENTRIES && de == DirEntry(mem[..], Dir(), d) && Present(de)
      modifies mem
      ensures mem[..] == old(mem[..])
    {
      assert IsTable(mem[..], Dir(), d, used);
      InLow(directory, d);
      StoreVirtual(directory, d, WithFlags(de));
    }

    /** The last store of map_page, once the table is linked. */
    method SetEntry(d: nat, i: nat, pa: word, ghost used: set<nat>)
      requires WellLinked(mem[..], Dir(), used) && Direct() && directory % FRAME == 0
      requires d < ENTRIES && i < ENTRIES && Present(DirEntry(mem[..], Dir(), d)) && FrameOf(DirEntry(mem[..], Dir(), d)) < LOW
      modifies mem
      ensures WellLinked(mem[..], Dir(), used) && (LowTables(old(mem[..]), Dir()) ==> LowTables(mem[..], Dir()))
      ensures MapsOnly(old(mem[..]), mem[..], Dir(), d * ENTRIES + i, pa / FRAME)
      ensures forall k :: 0 <= k < ENTRIES ==> DirEntry(mem[..], Dir(), k) == DirEntry(old(mem[..]), Dir(), k)
    {
      ghost var m := mem[..];
      InLow(directory, d);
      var de := LoadVirtual(directory, d);
      assert de == DirEntry(m, Dir(), d) && IsTable(m, Dir(), d, used);
      var table := de - de % FRAME;
      TableBase(de);
      InLow(table, i);
      StoreVirtual(table, i, WithFlags(pa));
      assert (d * ENTRIES + i) / ENTRIES == d && (d * ENTRIES + i) % ENTRIES == i;
      PageMapped(m, mem[..], Dir(), used, d * ENTRIES + i, pa);
    }

    /** The branch of map_page that adds a table in frame t. */
    method LinkTable(d: nat, t: word, ghost used: set<nat>)
      requires WellLinked(mem[..], Dir(), used) && Direct() && directory % FRAME == 0
      requires d < ENTRIES && !Present(DirEntry(mem[..], Dir(), d))
      requires t % FRAME == 0 && t / FRAME < LOW && t / FRAME !in used && HasFrame(mem[..], t / FRAME)
      modifies mem
      ensures WellLinked(mem[..], Dir(), used + {t / FRAME}) && Direct()
      ensures LowTables(old(mem[..]), Dir()) ==> LowTables(mem[..], Dir())
      ensures Present(DirEntry(mem[..], Dir(), d)) && FrameOf(DirEntry(mem[..], Dir(), d)) == t / FRAME
      ensures SameWalks(old(mem[..]), mem[..], Dir()) && OtherSlots(old(mem[..]), mem[..], Dir(), d)
    {
      ghost var m := mem[..];
      UnusedData(m, Dir(), used, t / FRAME);
      InLow(t, 0);
      ClearTable(t, t / FRAME, used);
      ghost var cleared := mem[..];
      ClearedSame(m, cleared, Dir(), used, t / FRAME, ENTRIES);
      IdentitySame(m, cleared, Dir());
      InLow(directory, d);
      StoreVirtual(directory, d, WithFlags(t));
      AlignedFlags(t);
      EntryBits(t / FRAME);
      TableAdded(m, cleared, mem[..], Dir(), used, d, t / FRAME);
    }

    /** The same stores and the last one when t is seen through a page that shows frame g. */
    method LinkAstray(d: nat, i: nat, t: word, pa: word, ghost used: set<nat>)
      requires WellLinked(mem[..], Dir(), used) && Direct() && directory % FRAME == 0
      requires d < ENTRIES && i < ENTRIES && !Present(DirEntry(mem[..], Dir(), d))
      requires t % FRAME == 0 && t / FRAME !in used && HasFrame(mem[..], t / FRAME)
      requires Reaches(t, 0) && DataFrame(mem[..], Dir(), Shown(t))
      modifies mem
      ensures WellLinked(mem[..], Dir(), used + {t / FRAME})
      ensures Misplaced(old(mem[..]), mem[..], Dir(), d, i, old(Shown(t)), t, WithFlags(pa))
    {
      ghost var m, g := mem[..], Shown(t);
      ClearTable(t, g, used);
      ghost var cleared := mem[..];
      ClearedSame(m, cleared, Dir(), used, g, ENTRIES);
      IdentitySame(m, cleared, Dir());
      InLow(directory, d);
      StoreVirtual(directory, d, WithFlags(t));
      ghost var linked := mem[..];
      AstrayLinked(m, cleared, linked, Dir(), used, d, t, g);
      StoreVirtual(t, i, WithFlags(pa));
      AstrayDone(m, cleared, linked, mem[..], Dir(), used, d, i, t, g, pa);
    }

    /** heap_init's first two lines: whatever the allocator returns is mapped at 16 MB. */
    method MapHeapPage() returns (ok: bool, frame: word)
      requires Valid() && LowIdentity(mem[..], Dir())
      requires var v := pmm.View().Step(Frames.Take);
        FramePage(v) < PAGES && Covered(mem[..], Dir(), HEAP_PAGE / ENTRIES, v) && Ending(mem[..], Dir(), HEAP_PAGE / ENTRIES, v) != Astray
      modifies mem, pmm, pmm.bitmap
      ensures Valid()
      ensures frame == FrameAddress(old(pmm.View())) && frame / FRAME == FramePage(old(pmm.View()))
      ensures var v := old(pmm.View()).Step(Frames.Take);
        && (ok <==> Ending(old(mem[..]), Dir(), HEAP_PAGE / ENTRIES, v) == Done)
        && (if ok then Mapped(old(mem[..]), mem[..], Dir(), HEAP_PAGE / ENTRIES, HEAP_PAGE, frame / FRAME) else mem[..] == old(mem[..]))
        && (ok && !Present(DirEntry(old(mem[..]), Dir(), HEAP_PAGE / ENTRIES)) ==>
              FrameOf(DirEntry(mem[..], Dir(), HEAP_PAGE / ENTRIES)) == FramePage(v))
        && pmm.View() == After(old(mem[..]), Dir(), HEAP_PAGE / ENTRIES, v)
    {
      frame := TakeFrame();
      assert mem[..] == old(mem[..]);
      var end := MapPage(HEAP_PAGE * FRAME, frame);
      ok := end == Done;
    }

    /**
     * create_task makes the page of the user stack accessible by mapping it to the frame of its own number:
     * no translation changes exactly when it was mapped like that already. The frame is not locked.
     */
    method UnlockStack(userBase: word) returns (ok: bool)
      requires Valid() && LowIdentity(mem[..], Dir())
      requires FramePage(pmm.View()) < PAGES && Covered(mem[..], Dir(), userBase / DIRECTORY_SPAN, pmm.View())
      requires Ending(mem[..], Dir(), userBase / DIRECTORY_SPAN, pmm.View()) != Astray
      modifies mem, pmm, pmm.bitmap
      ensures Valid()
      ensures ok <==> Ending(old(mem[..]), Dir(), userBase / DIRECTORY_SPAN, old(pmm.View())) == Done
      ensures var p := userBase / FRAME;
        if ok then
          && Mapped(old(mem[..]), mem[..], Dir(), userBase / DIRECTORY_SPAN, p, p)
          && LowIdentity(mem[..], Dir())
          && (SameWalks(old(mem[..]), mem[..], Dir()) <==> Walk(old(mem[..]), Dir(), p) == Some(Mapping(p, true, true)))
        else mem[..] == old(mem[..])
      ensures pmm.View() == After(old(mem[..]), Dir(), userBase / DIRECTORY_SPAN, old(pmm.View()))
    {
      var aligned := userBase - userBase % FRAME;
      AlignedAddress(userBase);
      ghost var m := mem[..];
      var end := MapPage(aligned, aligned);
      ok := end == Done;
      if ok {
        RemapKeeps(m, mem[..], Dir(), userBase / FRAME);
        IdentityKept(m, mem[..], Dir(), userBase / FRAME, userBase / FRAME);
      }
    }

    /** Filling the new table with empty entries, through a page that shows frame g. */
    method ClearTable(t: word, ghost g: nat, ghost used: set<nat>)
      requires WellLinked(mem[..], Dir(), used)
      requires Reaches(t, 0) && Shown(t) == g && DataFrame(mem[..], Dir(), g)
      modifies mem
      ensures Cleared(old(mem[..]), mem[..], g, ENTRIES)
    {
      ghost var m := mem[..];
      for k := 0 to ENTRIES
        invariant Cleared(m, mem[..], g, k)
        invariant Reaches(t, 0) && Shown(t) == g
      {
        StoreVirtual(t, k, EMPTY);
        ClearedSame(m, mem[..], Dir(), used, g, k + 1);
      }
    }
  }

  /** First the table, then the entry: together one page is mapped. */
  lemma MappedAfter(m: seq<word>, linked: seq<word>, m': seq<word>, dir: nat, d: nat, p: nat, frame: nat)
    requires p < PAGES && d < ENTRIES && SameWalks(m, linked, dir) && OtherSlots(m, linked, dir, d) && Present(DirEntry(linked, dir, d))
    requires MapsOnly(linked, m', dir, p, frame) && forall k :: 0 <= k < ENTRIES ==> DirEntry(m', dir, k) == DirEntry(linked, dir, k)
    requires LowTables(m, dir) ==> LowTables(m', dir)
    ensures Mapped(m, m', dir, d, p, frame)
  {
    MapsAfter(m, linked, m', dir, p, frame);
  }

  lemma SameMapped(m: seq<word>, m': seq<word>, dir: nat, d: nat, p: nat, frame: nat)
    requires p < PAGES && d < ENTRIES && HasFrame(m, dir) && Present(DirEntry(m, dir, d))
    requires MapsOnly(m, m', dir, p, frame) && forall k :: 0 <= k < ENTRIES ==> DirEntry(m', dir, k) == DirEntry(m, dir, k)
    requires LowTables(m, dir) ==> LowTables(m', dir)
    ensures Mapped(m, m', dir, d, p, frame)
  {
  }

  /** A page that is mapped has its table elsewhere than in the slot that was empty. */
  lemma AstrayLinked(m: seq<word>, cleared: seq<word>, linked: seq<word>, dir: nat, used: set<nat>, d: nat, t: word, g: nat)
    requires WellLinked(m, dir, used) && d < ENTRIES && !Present(DirEntry(m, dir, d)) && DataFrame(m, dir, g)
    requires t % FRAME == 0 && t / FRAME !in used && HasFrame(m, t / FRAME) && t / FRAME < PAGES && Walk(m, dir, t / FRAME).Some?
    requires Cleared(m, cleared, g, ENTRIES) && linked == cleared[Slot(dir, d) := WithFlags(t)]
    ensures WellLinked(linked, dir, used + {t / FRAME}) && Walk(linked, dir, t / FRAME) == Walk(m, dir, t / FRAME)
  {
    ClearedSame(m, cleared, dir, used, g, ENTRIES);
    AlignedFlags(t);
    LinkedAnyway(cleared, linked, dir, used, d, t / FRAME);
  }

  lemma AstrayDone(m: seq<word>, cleared: seq<word>, linked: seq<word>, m': seq<word>, dir: nat, used: set<nat>,
                   d: nat, i: nat, t: word, g: nat, pa: word)
    requires HasFrame(m, dir) && HasFrame(m, g) && g != dir && d < ENTRIES && i < ENTRIES
    requires Cleared(m, cleared, g, ENTRIES) && linked == cleared[Slot(dir, d) := WithFlags(t)]
    requires WellLinked(linked, dir, used + {t / FRAME}) && m' == linked[Slot(g, i) := WithFlags(pa)]
    ensures WellLinked(m', dir, used + {t / FRAME}) && Misplaced(m, m', dir, d, i, g, t, WithFlags(pa))
  {
    SlotsApart(dir, d, g, ENTRIES);
    SameDirectoryAfter(linked, m', dir, used + {t / FRAME}, g, i);
  }

  /** A store into a data frame keeps the table structure. */
  lemma SameDirectoryAfter(m: seq<word>, m': seq<word>, dir: nat, used: set<nat>, g: nat, i: nat)
    requires WellLinked(m, dir, used) && HasFrame(m, g) && g != dir && i < ENTRIES
    requires |m'| == |m| && forall k :: 0 <= k < |m| && k != Slot(g, i) ==> m'[k] == m[k]
    ensures WellLinked(m', dir, used)
  {
    forall k | 0 <= k < ENTRIES
      ensures DirEntry(m', dir, k) == DirEntry(m, dir, k)
    {
      SlotsApart(dir, k, g, ENTRIES);
    }
    SameDirectory(m, m', dir, used);
  }

  /** The two 10-bit indices of an address are its page number. */
  lemma Indices(va: word)
    ensures va / DIRECTORY_SPAN < ENTRIES
    ensures va / DIRECTORY_SPAN * ENTRIES + va / FRAME % ENTRIES == va / FRAME
  {
  }

  lemma SameFrame(base: nat, i: nat)
    requires base % FRAME == 0 && i < ENTRIES
    ensures (base + 4 * i) / FRAME == base / FRAME && (base + 4 * i) % FRAME / 4 == i
  {
  }

  lemma AlignedAddress(a: word)
    ensures (a - a % FRAME) / FRAME == a / FRAME && (a - a % FRAME) / DIRECTORY_SPAN == a / DIRECTORY_SPAN
  {
    assert a == 0x40_0000 * (a / 0x40_0000) + a % 0x40_0000;
    assert a - a % 4096 == 0x40_0000 * (a / 0x40_0000) + (a % 0x40_0000 - a % 0x40_0000 % 4096);
  }

  /** e & ~0xFFF. */
  lemma TableBase(e: word)
    ensures (e - e % FRAME) % FRAME == 0 && (e - e % FRAME) / FRAME == FrameOf(e)
  {
  }

  lemma AlignedFlags(t: word)
    requires t % FRAME == 0
    ensures WithFlags(t) == t / FRAME * FRAME + USER_RW
  {
  }
}
