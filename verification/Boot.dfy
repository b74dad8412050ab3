/** The steps of kernel_main put together: paging with the heap page, and tasks up to the first ticks. */
module Boot {
  import opened Words
  import opened HeapList
  import opened ContextSwitch
  import opened Tasking
  import Frames
  import L = HeapLaws
  import P = PageTables
  import R = RoundRobin
  import S = Scheduler
  import V = Paging

  // ----- paging_init, then heap_init -----

  /** The first 4 MB mapped to themselves. */
  function Identity(): map<nat, P.Mapping>
  {
    map p: nat | 0 <= p < P.LOW :: P.Mapping(p, true, true)
  }

  lemma IdentityMap(m: seq<word>, dir: nat)
    requires P.LowIdentity(m, dir)
    requires forall p :: P.LOW <= p < P.PAGES ==> P.Walk(m, dir, p) == None
    ensures P.PageMap(m, dir) == Identity()
  {
    forall p: nat | p < P.LOW
      ensures P.Walk(m, dir, p) == Some(P.Mapping(p, true, true))
    {
    }
  }

  lemma LowBefore(v: Frames.Frames)
    ensures V.LowFrame(v.Step(Frames.Take)) ==> V.LowFrame(v)
  {
    if v.NextFree() < v.limit {
      v.TakeAdvances();
    }
  }

  /** Four allocations return blocks in ascending order, so they are all low when the last one is. */
  lemma FourLow(v: Frames.Frames)
    ensures var v3 := v.Step(Frames.Take).Step(Frames.Take).Step(Frames.Take);
      V.LowSupply(v, 4) <==> V.LowFrame(v3)
  {
    var v1 := v.Step(Frames.Take);
    var v2 := v1.Step(Frames.Take);
    LowBefore(v);
    LowBefore(v1);
    LowBefore(v2);
    assert V.LowSupply(v2.Step(Frames.Take), 1) <==> V.LowFrame(v2.Step(Frames.Take));
    assert V.LowSupply(v2, 2) <==> V.LowFrame(v2.Step(Frames.Take));
    assert V.LowSupply(v1, 3) <==> V.LowFrame(v2.Step(Frames.Take));
  }

  /** The third block of an ample supply. */
  function HeapFrame(v: Frames.Frames): nat
  {
    v.Step(Frames.Take).Step(Frames.Take).NextFree()
  }

  /** The four blocks of an ample supply, ascending. */
  lemma FourBlocks(v: Frames.Frames)
    requires V.LowSupply(v, 4)
    ensures var v1 := v.Step(Frames.Take);
      var v2 := v1.Step(Frames.Take);
      v.NextFree() < v1.NextFree() < v2.NextFree() < v2.Step(Frames.Take).NextFree() < P.LOW
  {
    var v1 := v.Step(Frames.Take);
    var v2 := v1.Step(Frames.Take);
    assert V.LowSupply(v1, 3) && V.LowSupply(v2, 2) && V.LowSupply(v2.Step(Frames.Take), 1);
    v.TakeAdvances();
    v1.TakeAdvances();
    v2.TakeAdvances();
  }

  /** In paging_init's directory only entry 0 links a table; a mapping in entry 4 then adds one. */
  lemma HeapData(m: seq<word>, m': seq<word>, dir: nat, table: nat, frame: nat)
    requires P.HasFrame(m, dir) && P.HasFrame(m, frame) && P.EmptyEntries(m, dir, 1, P.ENTRIES) && P.FrameOf(P.DirEntry(m, dir, 0)) == table
    requires P.OtherSlots(m, m', dir, 4)
    requires dir != frame && table != frame && P.FrameOf(P.DirEntry(m', dir, 4)) != frame
    ensures P.DataFrame(m', dir, frame)
    ensures forall d :: 0 < d < P.ENTRIES && d != 4 ==> !P.Present(P.DirEntry(m', dir, d))
  {
    forall d | 0 < d < P.ENTRIES && d != 4
      ensures !P.Present(P.DirEntry(m', dir, d))
    {
      assert m[P.Slot(dir, d)] == P.EMPTY;
    }
    assert P.DirEntry(m', dir, 0) == P.DirEntry(m, dir, 0);
  }

  /**
   * paging_init, then the mapping of the heap page. It succeeds exactly when four blocks below 4 MB
   * are free; then the first 4 MB and the heap page are mapped and nothing else, through directory entries 0 and 4.
   */
  method StartPaging(vmm: V.Vmm) returns (ok: bool, frame: word)
    requires vmm.Backed()
    modifies vmm, vmm.mem, vmm.pmm, vmm.pmm.bitmap
    ensures ok <==> V.LowSupply(old(vmm.pmm.View()), 4)
    ensures ok ==> vmm.Valid() && vmm.Reachable()
    ensures ok ==> frame / P.FRAME == HeapFrame(old(vmm.pmm.View())) < P.LOW && P.DataFrame(vmm.mem[..], vmm.Dir(), frame / P.FRAME)
    ensures ok ==> P.PageMap(vmm.mem[..], vmm.Dir()) == Identity()[V.HEAP_PAGE := P.Mapping(frame / P.FRAME, true, true)]
    ensures ok ==> P.Present(P.DirEntry(vmm.mem[..], vmm.Dir(), 4))
    ensures ok ==> forall d :: 0 < d < P.ENTRIES && d != 4 ==> !P.Present(P.DirEntry(vmm.mem[..], vmm.Dir(), d))
    ensures ok ==> vmm.pmm.View() == FourTaken(old(vmm.pmm.View()))
  {
    ghost var v := vmm.pmm.View();
    FourLow(v);
    LowBefore(v);
    LowBefore(v.Step(Frames.Take));
    LowBefore(v.Step(Frames.Take).Step(Frames.Take));
    ok := vmm.PagingInit();
    if !ok {
      return false, 0;
    }
    ok, frame := HeapInit(vmm, v);
  }

  /** What heap_init does to the tables paging_init left, when that started with the allocator in state v. */
  method HeapInit(vmm: V.Vmm, ghost v: Frames.Frames) returns (ok: bool, frame: word)
    requires vmm.Valid() && vmm.Dir() == v.NextFree() && P.LowIdentity(vmm.mem[..], vmm.Dir())
    requires forall p :: P.LOW <= p < P.PAGES ==> P.Walk(vmm.mem[..], vmm.Dir(), p) == None
    requires P.EmptyEntries(vmm.mem[..], vmm.Dir(), 1, P.ENTRIES)
    requires P.FrameOf(P.DirEntry(vmm.mem[..], vmm.Dir(), 0)) == v.Step(Frames.Take).NextFree()
    requires P.LowTables(vmm.mem[..], vmm.Dir()) <==> v.NextFree() < P.LOW && v.Step(Frames.Take).NextFree() < P.LOW
    requires vmm.pmm.View() == v.Step(Frames.Take).Step(Frames.Take)
    requires V.LowSupply(v, 4) <==> V.LowFrame(v.Step(Frames.Take).Step(Frames.Take).Step(Frames.Take))
    requires V.LowSupply(v, 4) ==> v.NextFree() < P.LOW
    modifies vmm.mem, vmm.pmm, vmm.pmm.bitmap
    ensures ok <==> V.LowSupply(v, 4)
    ensures ok ==> vmm.Valid() && vmm.Reachable()
    ensures ok ==> frame / P.FRAME == HeapFrame(v) < P.LOW && P.DataFrame(vmm.mem[..], vmm.Dir(), frame / P.FRAME)
    ensures ok ==> P.PageMap(vmm.mem[..], vmm.Dir()) == Identity()[V.HEAP_PAGE := P.Mapping(frame / P.FRAME, true, true)]
    ensures ok ==> P.Present(P.DirEntry(vmm.mem[..], vmm.Dir(), 4))
    ensures ok ==> forall d :: 0 < d < P.ENTRIES && d != 4 ==> !P.Present(P.DirEntry(vmm.mem[..], vmm.Dir(), d))
    ensures ok ==> vmm.pmm.View() == FourTaken(v)
  {
    ghost var m := vmm.mem[..];
    assert P.DirEntry(m, vmm.Dir(), 4) == P.EMPTY by {
      assert m[P.Slot(vmm.Dir(), 4)] == P.EMPTY;
    }
    ok, frame := vmm.MapHeapPage();
    if ok {
      FourBlocks(v);
      IdentityMap(m, vmm.Dir());
      P.FlatUpdate(m, vmm.mem[..], vmm.Dir(), V.HEAP_PAGE, frame / P.FRAME);
      HeapData(m, vmm.mem[..], vmm.Dir(), v.Step(Frames.Take).NextFree(), frame / P.FRAME);
    }
  }

  /** The allocator after four calls. */
  function FourTaken(v: Frames.Frames): Frames.Frames
  {
    v.Step(Frames.Take).Step(Frames.Take).Step(Frames.Take).Step(Frames.Take)
  }

  /**
   * If create_task then unlocks a user stack in the heap page, the page loses the frame heap_init gave it:
   * it was `frame`, below 4 MB, and becomes frame 4096, which the allocator goes on to treat as before.
   */
  method UnlockAfterBoot(vmm: V.Vmm, userBase: word) returns (ok: bool, frame: word)
    requires vmm.Backed() && BASE <= userBase < LIMIT
    modifies vmm, vmm.mem, vmm.pmm, vmm.pmm.bitmap
    ensures ok <==> V.LowSupply(old(vmm.pmm.View()), 4)
    ensures ok ==> frame / P.FRAME == HeapFrame(old(vmm.pmm.View())) < P.LOW
    ensures ok ==> P.HasFrame(vmm.mem[..], vmm.Dir()) && P.Walk(vmm.mem[..], vmm.Dir(), V.HEAP_PAGE) == Some(P.Mapping(V.HEAP_PAGE, true, true))
    ensures ok ==> vmm.pmm.View() == FourTaken(old(vmm.pmm.View()))
  {
    ok, frame := StartPaging(vmm);
    if ok {
      assert userBase / P.FRAME == V.HEAP_PAGE && userBase / V.DIRECTORY_SPAN == 4;
      ok := vmm.UnlockStack(userBase);
    }
  }

  /**
   * If instead map_page needs a new table when the next free block is number 4096, the table is cleared through the heap
   * page: the heap's frame is filled with the pattern of empty entries, its headers included.
   */
  method WipeAfterBoot(vmm: V.Vmm, va: word, pa: word) returns (ok: bool, frame: word, end: V.Outcome)
    requires vmm.Backed() && va / V.DIRECTORY_SPAN != 0 && va / V.DIRECTORY_SPAN != 4
    requires var v := FourTaken(vmm.pmm.View()); v.NextFree() == V.HEAP_PAGE < v.limit
    modifies vmm, vmm.mem, vmm.pmm, vmm.pmm.bitmap
    ensures ok <==> V.LowSupply(old(vmm.pmm.View()), 4)
    ensures ok ==> frame / P.FRAME == HeapFrame(old(vmm.pmm.View())) && end == V.Astray
    ensures ok ==> forall k :: 0 <= k < P.ENTRIES && k != va / P.FRAME % P.ENTRIES ==>
                     P.Slot(frame / P.FRAME, k) < vmm.mem.Length && vmm.mem[P.Slot(frame / P.FRAME, k)] == P.EMPTY
  {
    ok, frame := StartPaging(vmm);
    end := V.Fault;
    if ok {
      V.Indices(va);
      assert V.HEAP_PAGE in P.PageMap(vmm.mem[..], vmm.Dir());
      end := Wipe(vmm, va, pa, frame / P.FRAME);
    }
  }

  /** The call itself, frame g being the one the page at the new table's address shows. */
  method Wipe(vmm: V.Vmm, va: word, pa: word, ghost g: nat) returns (end: V.Outcome)
    requires vmm.Valid() && vmm.Reachable() && va / V.DIRECTORY_SPAN < P.ENTRIES
    requires !P.Present(P.DirEntry(vmm.mem[..], vmm.Dir(), va / V.DIRECTORY_SPAN))
    requires vmm.pmm.View().NextFree() == V.HEAP_PAGE < vmm.pmm.Limit()
    requires P.Walk(vmm.mem[..], vmm.Dir(), V.HEAP_PAGE) == Some(P.Mapping(g, true, true)) && P.DataFrame(vmm.mem[..], vmm.Dir(), g)
    modifies vmm.mem, vmm.pmm, vmm.pmm.bitmap
    ensures end == V.Astray
    ensures forall k :: 0 <= k < P.ENTRIES && k != va / P.FRAME % P.ENTRIES ==>
              P.Slot(g, k) < vmm.mem.Length && vmm.mem[P.Slot(g, k)] == P.EMPTY
  {
    ghost var m := vmm.mem[..];
    end := vmm.MapPage(va, pa);
    WipedFrame(m, vmm.mem[..], vmm.Dir(), va / V.DIRECTORY_SPAN, va / P.FRAME % P.ENTRIES, g, V.HEAP_PAGE * P.FRAME, P.WithFlags(pa));
  }

  lemma WipedFrame(m: seq<word>, m': seq<word>, dir: nat, d: nat, i: nat, g: nat, t: word, e: word)
    requires P.HasFrame(m, dir) && P.HasFrame(m, g) && g != dir && d < P.ENTRIES && i < P.ENTRIES && P.Misplaced(m, m', dir, d, i, g, t, e)
    ensures forall k :: 0 <= k < P.ENTRIES && k != i ==> P.Slot(g, k) < |m'| && m'[P.Slot(g, k)] == P.EMPTY
  {
    P.SlotsApart(dir, d, g, P.ENTRIES);
  }

  // ----- task_init, create_task, the first ticks -----

  /** A launch reads the 52 bytes of its frame. */
  lemma LaunchKept(m: seq<byte>, m': seq<byte>, base: nat, sp: nat, entry: word, userTop: word)
    requires Launches(m, base, sp, entry, userTop) && base <= sp && sp - base + 52 <= |m| == |m'|
    requires forall k :: sp - base <= k < sp - base + 52 ==> m'[k] == m[k]
    ensures Launches(m', base, sp, entry, userTop)
  {
    forall ss0: word
      ensures CanResume(m', base, sp) && Resume(m', base, sp, ss0) == Launched(entry, userTop)
    {
      ResumeSame(m, m', base, sp, ss0);
      assert Resume(m, base, sp, ss0) == Launched(entry, userTop);
    }
  }

  /** What the first task got is kept while the second is made. */
  lemma FirstKept(m: seq<byte>, m': seq<byte>, areas: seq<Area>, n: nat, kernelBase: nat, entry: word, userTop: word)
    requires |m| == |m'| == PAGE && AreasKept(m, m', areas) && n < |areas| && areas[n] == Area(kernelBase, STACK)
    requires BASE <= kernelBase && kernelBase + STACK <= LIMIT
    requires Launches(m, BASE, kernelBase + STACK - 52, entry, userTop)
    ensures Launches(m', BASE, kernelBase + STACK - 52, entry, userTop)
  {
    forall k | kernelBase + STACK - 52 - BASE <= k < kernelBase + STACK - BASE
      ensures m'[k] == m[k]
    {
      assert areas[n].ptr <= BASE + k < areas[n].ptr + areas[n].size;
    }
    LaunchKept(m, m', BASE, kernelBase + STACK - 52, entry, userTop);
  }

  /** Where the frames of the first two tasks lie. */
  const FIRST_SP: word := BASE + 1012
  const SECOND_SP: word := BASE + 3112

  /** What task_init and the first create_task find. */
  lemma FirstTask(charge: nat)
    requires L.ChargeOk(charge)
    ensures charge == 0 ==> Allowed(INITIAL, PCB, 0) && AllAllowed(KernelOnly(charge), 0)
    ensures MallocResult(INITIAL, PCB) != NULL && ControlBlock(KernelOnly(charge), charge) != NULL
    ensures KernelStack(KernelOnly(charge)) == BASE + 40 && UserStack(KernelOnly(charge), charge) == BASE + 1076
  {
    SecondTaskStarved(charge);
  }

  /** And the second. */
  lemma SecondTask(charge: nat)
    requires L.ChargeOk(charge)
    ensures charge == 0 ==> AllAllowed(OneTask(charge), 0)
    ensures ControlBlock(OneTask(charge), charge) != NULL
    ensures KernelStack(OneTask(charge)) == BASE + 2140 && UserStack(OneTask(charge), charge) == NULL
  {
    SecondTaskStarved(charge);
  }

  lemma BothLaunch(m: seq<byte>, m': seq<byte>, low: seq<byte>, areas: seq<Area>, first: word, second: word)
    requires |m| == |m'| == PAGE && AreasKept(m, m', areas) && |areas| > 1 && areas[1] == Area(BASE + 40, STACK)
    requires Launches(m, BASE, FIRST_SP, first, BASE + 2100) && Starts(m', low, BASE + 2140, second, STACK)
    ensures Launches(m', BASE, FIRST_SP, first, BASE + 2100) && Launches(m', BASE, SECOND_SP, second, STACK)
  {
    FirstKept(m, m', areas, 1, BASE + 40, first, BASE + 2100);
  }

  /** The ring after task_init and the first create_task. */
  function TwoTasks(): R.Sched
  {
    R.Sched([R.Pcb(1, 0)], 2).Step(R.Create(FIRST_SP))
  }

  method MakeFirst(sys: TaskSystem, first: word)
    requires sys.Valid() && sys.heap.bs == KernelOnly(sys.heap.charge) && |sys.areas| == 1
    requires sys.sched.current != null && sys.sched.View() == R.Sched([R.Pcb(1, 0)], 2)
    modifies sys, sys.heap, sys.heap.mem, sys.low, sys.sched, sys.sched.blocks
    ensures sys.Valid() && sys.sched.current != null && fresh(sys.sched.blocks - old(sys.sched.blocks))
    ensures sys.heap.bs == OneTask(sys.heap.charge)
    ensures |sys.areas| > 1 && sys.areas[1] == Area(BASE + 40, STACK)
    ensures sys.sched.View() == TwoTasks()
    ensures Launches(sys.heap.mem[..], BASE, FIRST_SP, first, BASE + 2100)
  {
    FirstTask(sys.heap.charge);
    ghost var top, start := sys.CreateTask(first);
  }

  method MakeSecond(sys: TaskSystem, ghost first: word, second: word)
    requires sys.Valid() && sys.heap.bs == OneTask(sys.heap.charge)
    requires |sys.areas| > 1 && sys.areas[1] == Area(BASE + 40, STACK)
    requires sys.sched.current != null && sys.sched.View() == TwoTasks()
    requires Launches(sys.heap.mem[..], BASE, FIRST_SP, first, BASE + 2100)
    modifies sys, sys.heap, sys.heap.mem, sys.low, sys.sched, sys.sched.blocks
    ensures sys.Valid() && sys.sched.current != null && fresh(sys.sched.blocks - old(sys.sched.blocks))
    ensures sys.sched.View() == TwoTasks().Step(R.Create(SECOND_SP))
    ensures Launches(sys.heap.mem[..], BASE, FIRST_SP, first, BASE + 2100)
    ensures Launches(sys.heap.mem[..], BASE, SECOND_SP, second, STACK)
  {
    ghost var m, areas := sys.heap.mem[..], sys.areas;
    SecondTask(sys.heap.charge);
    ghost var top, start := sys.CreateTask(second);
    BothLaunch(m, sys.heap.mem[..], sys.low[..], areas, first, second);
  }

  /** task_init and one call of create_task from boot, with either charge. */
  method StartFirst(sys: TaskSystem, first: word)
    requires sys.Valid() && sys.heap.bs == INITIAL && sys.areas == []
    requires sys.sched.current == null && sys.sched.nextPid == 1
    modifies sys, sys.heap, sys.heap.mem, sys.low, sys.sched
    ensures sys.Valid() && sys.sched.current != null && fresh(sys.sched.blocks)
    ensures sys.heap.bs == OneTask(sys.heap.charge)
    ensures |sys.areas| > 1 && sys.areas[1] == Area(BASE + 40, STACK)
    ensures sys.sched.View() == TwoTasks()
    ensures Launches(sys.heap.mem[..], BASE, FIRST_SP, first, BASE + 2100)
  {
    FirstTask(sys.heap.charge);
    sys.TaskInit();
    MakeFirst(sys, first);
  }

  lemma TwoTicks(a: nat, b: nat, esp0: nat, esp1: nat)
    ensures var s := R.Sched([R.Pcb(1, 0)], 2).Step(R.Create(a)).Step(R.Create(b));
      && s.Step(R.Tick(esp0)).ring == [R.Pcb(3, b), R.Pcb(2, a), R.Pcb(1, esp0)]
      && s.Step(R.Tick(esp0)).Step(R.Tick(esp1)).ring == [R.Pcb(2, a), R.Pcb(1, esp0), R.Pcb(3, esp1)]
  {
  }

  /** The first two ticks after that. */
  method TickTwice(sched: S.Scheduler, ghost mem: array<byte>, ghost first: word, ghost second: word, esp0: word, esp1: word)
    returns (sp0: word, sp1: word)
    requires sched.Valid() && sched.current != null && sched.View() == TwoTasks().Step(R.Create(SECOND_SP))
    requires Launches(mem[..], BASE, FIRST_SP, first, BASE + 2100) && Launches(mem[..], BASE, SECOND_SP, second, STACK)
    modifies sched, sched.blocks
    ensures sp0 == SECOND_SP && Launches(mem[..], BASE, sp0, second, STACK)
    ensures sp1 == FIRST_SP && Launches(mem[..], BASE, sp1, first, BASE + 2100)
    ensures sched.Valid() && sched.View().ring == [R.Pcb(2, sp1), R.Pcb(1, esp0), R.Pcb(3, esp1)]
  {
    ghost var m := mem[..];
    TwoTicks(FIRST_SP, SECOND_SP, esp0, esp1);
    sp0 := sched.TimerHandler(esp0);
    sp1 := sched.TimerHandler(esp1);
    assert mem[..] == m;
  }

  /** The second create_task and the ticks. */
  method RunSecond(sys: TaskSystem, ghost first: word, second: word, esp0: word, esp1: word) returns (sp0: word, sp1: word)
    requires sys.Valid() && sys.heap.bs == OneTask(sys.heap.charge)
    requires |sys.areas| > 1 && sys.areas[1] == Area(BASE + 40, STACK)
    requires sys.sched.current != null && sys.sched.View() == TwoTasks()
    requires Launches(sys.heap.mem[..], BASE, FIRST_SP, first, BASE + 2100)
    modifies sys, sys.heap, sys.heap.mem, sys.low, sys.sched, sys.sched.blocks
    ensures sp0 == SECOND_SP && Launches(sys.heap.mem[..], BASE, sp0, second, STACK)
    ensures sp1 == FIRST_SP && Launches(sys.heap.mem[..], BASE, sp1, first, BASE + 2100)
    ensures sys.sched.Valid() && sys.sched.View().ring == [R.Pcb(2, sp1), R.Pcb(1, esp0), R.Pcb(3, esp1)]
  {
    MakeSecond(sys, first, second);
    sp0, sp1 := TickTwice(sys.sched, sys.heap.mem, first, second, esp0, esp1);
  }

  /**
   * From boot, with either charge: two tasks are created and the timer ticks twice, interrupting the kernel
   * at esp0 and the task then running at esp1. The second task runs first, with its stack pointer at 1024
   * because it was refused a user stack, then the first one on its own stack in the heap. Each tick's
   * pointer resumes with the registers given: start0 after the first, start1 after the second.
   */
  method StartTasks(sys: TaskSystem, first: word, second: word, esp0: word, esp1: word)
    returns (sp0: word, sp1: word, ghost start0: Cpu, ghost start1: Cpu)
    requires sys.Valid() && sys.heap.bs == INITIAL && sys.areas == []
    requires sys.sched.current == null && sys.sched.nextPid == 1
    modifies sys, sys.heap, sys.heap.mem, sys.low, sys.sched
    ensures sp0 == BASE + 3112 && ResumesWith(sys.heap.mem[..], BASE, sp0, start0)
    ensures start0.eip == second && start0.esp == 1024 && start0.cs == 0x1B && start0.ss == 0x23 && start0.eflags == 0x202
    ensures start0.eax == start0.ebx == start0.ecx == start0.edx == start0.esi == start0.edi == start0.ebp == 0
    ensures sp1 == BASE + 1012 && ResumesWith(sys.heap.mem[..], BASE, sp1, start1)
    ensures start1.eip == first && start1.esp == BASE + 2100 && start1.cs == 0x1B && start1.ss == 0x23 && start1.eflags == 0x202
    ensures start1.eax == start1.ebx == start1.ecx == start1.edx == start1.esi == start1.edi == start1.ebp == 0
    ensures sys.sched.Valid() && sys.sched.View().ring == [R.Pcb(2, sp1), R.Pcb(1, esp0), R.Pcb(3, esp1)]
  {
    StartFirst(sys, first);
    sp0, sp1 := RunSecond(sys, first, second, esp0, esp1);
    start0 := LaunchState(sys.heap.mem[..], BASE, sp0, second, STACK);
    start1 := LaunchState(sys.heap.mem[..], BASE, sp1, first, BASE + 2100);
  }
}
