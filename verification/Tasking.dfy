/** src/task.c over the kernel heap: every task's stacks and control block are kmalloc'd, its first frame is forged. */
module Tasking {
  import opened Words
  import opened HeapList
  import opened HeapShape
  import opened HeapBytes
  import opened ContextSwitch
  import L = HeapLaws
  import RoundRobin
  import K = KernelHeap
  import S = Scheduler

  const STACK: word := 1024
  const PCB: word := 16   // sizeof(task_t)

  // ----- the ranges tasks hold -----

  /** A range handed out by kmalloc. */
  datatype Area = Area(ptr: nat, size: nat)

  /** All areas are held, each by a block of its own. */
  ghost predicate Owned(bs: Blocks, areas: seq<Area>)
  {
    && (forall i :: 0 <= i < |areas| ==> HeldBlock(bs, areas[i]))
    && (forall i, j :: 0 <= i < j < |areas| ==> areas[i].ptr != areas[j].ptr)
  }

  /** Some allocated block starts at the area and is at least as large. */
  ghost predicate HeldBlock(bs: Blocks, a: Area)
  {
    exists b :: b in bs && !b.free && b.User() == a.ptr && b.size >= a.size
  }

  lemma HeldKept(bs: Blocks, n: nat, charge: nat, a: Area)
    requires HeldBlock(bs, a)
    ensures HeldBlock(Malloc(bs, n, charge), a)
  {
    var b :| b in bs && !b.free && b.User() == a.ptr && b.size >= a.size;
    var k :| 0 <= k < |bs| && bs[k] == b;
    MallocKeeps(bs, n, charge, k);
  }

  /** The area a call of kmalloc(n) that returns p adds: none when p is null. */
  function Got(p: nat, n: nat): seq<Area>
  {
    if p == NULL then [] else [Area(p, n)]
  }

  /** What kmalloc returns is a new area, at a pointer no held area has. */
  lemma NewArea(bs: Blocks, n: nat, charge: nat, areas: seq<Area>)
    requires Disjoint(bs) && Owned(bs, areas)
    ensures Owned(Malloc(bs, n, charge), areas + Got(MallocResult(bs, n), n))
  {
    var i, p, after := FirstFit(bs, n), MallocResult(bs, n), Malloc(bs, n, charge);
    if p != NULL {
      assert after[i] in after && after[i].User() == p && !after[i].free && after[i].size >= n;
    }
    forall k | 0 <= k < |areas|
      ensures HeldBlock(after, areas[k]) && areas[k].ptr != p
    {
      HeldKept(bs, n, charge, areas[k]);
      var b :| b in bs && !b.free && b.User() == areas[k].ptr && b.size >= areas[k].size;
      var j :| 0 <= j < |bs| && bs[j] == b;
      if i < |bs| {
        Apart(bs, i, j);
      }
    }
  }

  lemma AreaInPage(bs: Blocks, areas: seq<Area>, i: nat)
    requires Clean(bs) && Owned(bs, areas) && i < |areas|
    ensures BASE <= areas[i].ptr && areas[i].ptr + areas[i].size <= LIMIT
  {
    var b :| b in bs && !b.free && b.User() == areas[i].ptr && b.size >= areas[i].size;
    var k :| 0 <= k < |bs| && bs[k] == b;
    assert Clear(bs, k);
    EdgeBounds(bs, k);
  }

  /** Held areas lie in the page and do not overlap. */
  lemma AreasDisjoint(bs: Blocks, areas: seq<Area>, i: nat, j: nat)
    requires Clean(bs) && Owned(bs, areas) && i < |areas| && j < |areas| && i != j
    ensures areas[i].ptr + areas[i].size <= areas[j].ptr || areas[j].ptr + areas[j].size <= areas[i].ptr
    ensures BASE <= areas[i].ptr && areas[i].ptr + areas[i].size <= LIMIT
  {
    AreaInPage(bs, areas, i);
    var b :| b in bs && !b.free && b.User() == areas[i].ptr && b.size >= areas[i].size;
    var c :| c in bs && !c.free && c.User() == areas[j].ptr && c.size >= areas[j].size;
    var k :| 0 <= k < |bs| && bs[k] == b;
    var l :| 0 <= l < |bs| && bs[l] == c;
    BlocksDisjoint(bs, k, l);
  }

  /** The bytes of every area are the same in m and m'. */
  ghost predicate AreasKept(m: seq<byte>, m': seq<byte>, areas: seq<Area>)
    requires |m| == |m'| == PAGE
  {
    forall i, k {:trigger areas[i], m'[k]} ::
      0 <= i < |areas| && 0 <= k < PAGE && areas[i].ptr <= BASE + k < areas[i].ptr + areas[i].size ==> m'[k] == m[k]
  }

  /** A kmalloc that keeps live bytes keeps all areas. */
  lemma MallocAreasKept(bs: Blocks, n: nat, charge: nat, m: seq<byte>, m': seq<byte>, areas: seq<Area>)
    requires |m| == |m'| == PAGE && Owned(bs, areas) && LiveKept(bs, Malloc(bs, n, charge), m, m')
    ensures AreasKept(m, m', areas)
  {
    forall i, k | 0 <= i < |areas| && 0 <= k < PAGE && areas[i].ptr <= BASE + k < areas[i].ptr + areas[i].size
      ensures m'[k] == m[k]
    {
      var b :| b in bs && !b.free && b.User() == areas[i].ptr && b.size >= areas[i].size;
      var j :| 0 <= j < |bs| && bs[j] == b;
      MallocKeeps(bs, n, charge, j);
    }
  }

  /** Writing inside a held area disturbs no header. */
  lemma AreaWriteLayout(m: seq<byte>, m': seq<byte>, bs: Blocks, a: Area)
    requires Layout(m, bs) && Clean(bs) && HeldBlock(bs, a) && |m'| == PAGE
    requires forall k :: 0 <= k < PAGE && !(a.ptr <= BASE + k < a.ptr + a.size) ==> m'[k] == m[k]
    ensures Layout(m', bs)
  {
    var b :| b in bs && !b.free && b.User() == a.ptr && b.size >= a.size;
    UserWriteLayout(m, m', bs, b);
  }

  lemma AreasKeptTwice(m0: seq<byte>, m1: seq<byte>, m2: seq<byte>, areas: seq<Area>, more: seq<Area>)
    requires |m0| == |m1| == |m2| == PAGE && AreasKept(m0, m1, areas) && AreasKept(m1, m2, areas + more)
    ensures AreasKept(m0, m2, areas)
  {
    forall i, k | 0 <= i < |areas| && 0 <= k < PAGE && areas[i].ptr <= BASE + k < areas[i].ptr + areas[i].size
      ensures m2[k] == m0[k]
    {
      assert (areas + more)[i] == areas[i];
      assert m1[k] == m0[k];
    }
  }

  /** Writing inside area n keeps the headers and the areas before n. */
  lemma WrittenInArea(m: seq<byte>, m': seq<byte>, bs: Blocks, areas: seq<Area>, n: nat)
    requires Layout(m, bs) && |m'| == PAGE && Clean(bs) && Owned(bs, areas) && n < |areas|
    requires forall k :: 0 <= k < PAGE && !(areas[n].ptr <= BASE + k < areas[n].ptr + areas[n].size) ==> m'[k] == m[k]
    ensures Layout(m', bs) && AreasKept(m, m', areas[..n])
  {
    AreaWriteLayout(m, m', bs, areas[n]);
    forall i, k | 0 <= i < n && 0 <= k < PAGE && areas[i].ptr <= BASE + k < areas[i].ptr + areas[i].size
      ensures m'[k] == m[k]
    {
      AreasDisjoint(bs, areas, i, n);
    }
  }

  // ----- the forged frame -----

  /** The state in which a new task enters user mode. */
  function Launched(entry: word, userTop: word): Cpu
  {
    Cpu(0, 0, 0, 0, 0, 0, 0, entry, 0x1B, 0x202, userTop, 0x23)
  }

  /** The words create_task leaves on the stack, as popa and iret take them. */
  lemma ForgedWords(m: seq<byte>, at: nat, entry: word, userTop: word)
    requires FrameAt(m, at, Frame(Launched(entry, userTop), 0))
    ensures at + 52 <= |m|
    ensures forall k :: 0 <= k < 8 ==> Load(m, at + 4 * k) == 0
    ensures Load(m, at + 32) == entry && Load(m, at + 36) == 0x1B && Load(m, at + 40) == 0x202
    ensures Load(m, at + 44) == userTop && Load(m, at + 48) == 0x23
  {
    FrameWords(m, at, Launched(entry, userTop), 0);
    forall k | 0 <= k < 8
      ensures Load(m, at + 4 * k) == 0
    {
      assert Frame(Launched(entry, userTop), 0)[k] == 0;
    }
  }

  /** Whatever ring 0 stack segment is in use, resuming from sp gives the registers cpu. */
  ghost predicate ResumesWith(m: seq<byte>, base: nat, sp: nat, cpu: Cpu)
  {
    CanResume(m, base, sp) && forall ss0: word {:trigger Resume(m, base, sp, ss0)} :: Resume(m, base, sp, ss0) == cpu
  }

  /** Resuming from sp enters ring 3 at the entry point. */
  ghost predicate Launches(m: seq<byte>, base: nat, sp: nat, entry: word, userTop: word)
  {
    ResumesWith(m, base, sp, Launched(entry, userTop))
  }

  lemma FrameLaunches(m: seq<byte>, base: nat, sp: nat, entry: word, userTop: word)
    requires base <= sp && sp + 44 < WORD_LIMIT && FrameAt(m, sp - base, Frame(Launched(entry, userTop), 0))
    ensures Launches(m, base, sp, entry, userTop)
  {
    forall ss0: word
      ensures CanResume(m, base, sp) && Resume(m, base, sp, ss0) == Launched(entry, userTop)
    {
      FrameResumes(m, base, sp, Launched(entry, userTop), 0, ss0);
    }
  }

  function Zeros(n: nat): seq<word> { seq(n, _ => 0) }

  function Plates(entry: word, userTop: word): seq<word> { [entry, 0x1B, 0x202, userTop, 0x23] }

  lemma OneMoreZero(i: nat, ws: seq<word>)
    ensures [0] + (Zeros(i) + ws) == Zeros(i + 1) + ws
  {
  }

  lemma LaunchFrame(entry: word, userTop: word)
    ensures Zeros(8) + Plates(entry, userTop) == Frame(Launched(entry, userTop), 0)
  {
  }

  /** One of create_task's downward stores onto the new kernel stack, in the page at address base. */
  method Push(mem: array<byte>, base: nat, stack: word, w: word, ghost below: seq<word>) returns (sp: word)
    requires base + 4 <= stack && FrameAt(mem[..], stack - base, below)
    modifies mem
    ensures sp == stack - 4 && FrameAt(mem[..], sp - base, [w] + below)
    ensures forall k :: 0 <= k < mem.Length && !(sp <= base + k < stack) ==> mem[k] == old(mem[k])
  {
    Pushed(mem[..], stack - base, below, w);
    sp := stack - 4;
    Store(mem, sp - base, w);
  }

  /** The 13 words that make popa and iret launch the task. */
  method ForgeFrame(mem: array<byte>, base: nat, top: word, userTop: word, entry: word) returns (sp: word)
    requires base + 52 <= top <= base + mem.Length
    modifies mem
    ensures sp == top - 52
    ensures FrameAt(mem[..], sp - base, Frame(Launched(entry, userTop), 0))
    ensures forall k :: 0 <= k < 8 ==> Load(mem[..], sp - base + 4 * k) == 0
    ensures Load(mem[..], sp - base + 32) == entry && Load(mem[..], sp - base + 36) == 0x1B && Load(mem[..], sp - base + 40) == 0x202
    ensures Load(mem[..], sp - base + 44) == userTop && Load(mem[..], sp - base + 48) == 0x23
    ensures forall k :: 0 <= k < mem.Length && !(sp <= base + k < top) ==> mem[k] == old(mem[k])
  {
    sp := PushPlates(mem, base, top, userTop, entry);
    ghost var ws := Plates(entry, userTop);
    assert Zeros(0) + ws == ws;
    for i := 0 to 8
      invariant sp == top - 20 - 4 * i
      invariant FrameAt(mem[..], sp - base, Zeros(i) + ws)
      invariant forall k :: 0 <= k < mem.Length && !(sp <= base + k < top) ==> mem[k] == old(mem[k])
    {
      sp := Push(mem, base, sp, 0, Zeros(i) + ws);
      OneMoreZero(i, ws);
    }
    LaunchFrame(entry, userTop);
    ForgedWords(mem[..], sp - base, entry, userTop);
  }

  /** The five words for iret. */
  method PushPlates(mem: array<byte>, base: nat, top: word, userTop: word, entry: word) returns (sp: word)
    requires base + 52 <= top <= base + mem.Length
    modifies mem
    ensures sp == top - 20
    ensures FrameAt(mem[..], sp - base, Plates(entry, userTop))
    ensures forall k :: 0 <= k < mem.Length && !(sp <= base + k < top) ==> mem[k] == old(mem[k])
  {
    sp := Push(mem, base, top, 0x23, []);
    sp := Push(mem, base, sp, userTop, [0x23] + []);
    sp := Push(mem, base, sp, 0x202, [userTop] + ([0x23] + []));
    sp := Push(mem, base, sp, 0x1B, [0x202] + ([userTop] + ([0x23] + [])));
    sp := Push(mem, base, sp, entry, [0x1B] + ([0x202] + ([userTop] + ([0x23] + []))));
    assert [entry] + ([0x1B] + ([0x202] + ([userTop] + ([0x23] + [])))) == Plates(entry, userTop);
  }

  /** The frame lies at the top of the kernel stack, which is in the page at address 0 if its pointer is null. */
  ghost predicate Forged(heap: seq<byte>, low: seq<byte>, kernelBase: nat, entry: word, userTop: word)
  {
    if kernelBase != NULL then
      BASE <= kernelBase && kernelBase + STACK <= LIMIT && FrameAt(heap, kernelBase + STACK - 52 - BASE, Frame(Launched(entry, userTop), 0))
    else
      FrameAt(low, STACK - 52, Frame(Launched(entry, userTop), 0))
  }

  /** A task with that kernel stack is launched by its first resumption. */
  ghost predicate Starts(heap: seq<byte>, low: seq<byte>, kernelBase: nat, entry: word, userTop: word)
  {
    if kernelBase != NULL then Launches(heap, BASE, kernelBase + STACK - 52, entry, userTop)
    else Launches(low, 0, STACK - 52, entry, userTop)
  }

  /** The registers with which a launch begins. */
  lemma LaunchState(m: seq<byte>, base: nat, sp: nat, entry: word, userTop: word) returns (start: Cpu)
    requires Launches(m, base, sp, entry, userTop)
    ensures start.eip == entry && start.esp == userTop && start.cs == 0x1B && start.ss == 0x23 && start.eflags == 0x202
    ensures start.eax == start.ebx == start.ecx == start.edx == start.esi == start.edi == start.ebp == 0
    ensures ResumesWith(m, base, sp, start)
  {
    start := Launched(entry, userTop);
  }

  /** The same for a task whose kernel stack may be null. */
  lemma StartedState(heap: seq<byte>, low: seq<byte>, kernelBase: nat, entry: word, userTop: word) returns (start: Cpu)
    requires Starts(heap, low, kernelBase, entry, userTop)
    ensures start.eip == entry && start.esp == userTop && start.cs == 0x1B && start.ss == 0x23 && start.eflags == 0x202
    ensures start.eax == start.ebx == start.ecx == start.edx == start.esi == start.edi == start.ebp == 0
    ensures if kernelBase != NULL then ResumesWith(heap, BASE, kernelBase + 972, start) else ResumesWith(low, 0, 972, start)
  {
    start := Launched(entry, userTop);
  }

  lemma ForgedStarts(heap: seq<byte>, low: seq<byte>, kernelBase: nat, entry: word, userTop: word)
    requires Forged(heap, low, kernelBase, entry, userTop)
    ensures Starts(heap, low, kernelBase, entry, userTop)
  {
    if kernelBase != NULL {
      FrameLaunches(heap, BASE, kernelBase + STACK - 52, entry, userTop);
    } else {
      FrameLaunches(low, 0, STACK - 52, entry, userTop);
    }
  }

  /** A forged frame survives whatever keeps its stack. */
  lemma ForgedKept(m: seq<byte>, m': seq<byte>, low: seq<byte>, areas: seq<Area>, n: nat, kernelBase: nat, entry: word, userTop: word)
    requires |m| == |m'| == PAGE && AreasKept(m, m', areas) && Forged(m, low, kernelBase, entry, userTop)
    requires kernelBase != NULL ==> n < |areas| && areas[n] == Area(kernelBase, STACK)
    ensures Forged(m', low, kernelBase, entry, userTop)
  {
    if kernelBase != NULL {
      var at := kernelBase + STACK - 52 - BASE;
      forall k | at <= k < at + 52
        ensures m'[k] == m[k]
      {
        assert areas[n].ptr <= BASE + k < areas[n].ptr + areas[n].size;
      }
      FrameSurvives(m, m', at, Frame(Launched(entry, userTop), 0));
    }
  }

  /** Only the frame of a null kernel stack is written to the page at address 0. */
  ghost predicate LowKept(low: seq<byte>, low': seq<byte>, kernelBase: nat)
  {
    |low| == |low'| == PAGE && forall k :: 0 <= k < PAGE && (kernelBase != NULL || !(STACK - 52 <= k < STACK)) ==> low'[k] == low[k]
  }

  // ----- create_task's memory -----

  /** The three pointers create_task gets, in order; it checks none of them. */
  function KernelStack(bs: Blocks): nat
  {
    MallocResult(bs, STACK)
  }

  function UserStack(bs: Blocks, charge: nat): nat
  {
    MallocResult(Malloc(bs, STACK, charge), STACK)
  }

  function ControlBlock(bs: Blocks, charge: nat): nat
  {
    MallocResult(Stacks(bs, charge), PCB)
  }

  function Stacks(bs: Blocks, charge: nat): Blocks
  {
    Malloc(Malloc(bs, STACK, charge), STACK, charge)
  }

  function Allocated(bs: Blocks, charge: nat): Blocks
  {
    Malloc(Stacks(bs, charge), PCB, charge)
  }

  /** None of the three allocations fails. */
  predicate Affordable(bs: Blocks, charge: nat)
  {
    KernelStack(bs) != NULL && UserStack(bs, charge) != NULL && ControlBlock(bs, charge) != NULL
  }

  /** kmalloc(n) keeps every range clear and the claimed total below 2^31. */
  ghost predicate Allowed(bs: Blocks, n: nat, charge: nat)
  {
    Grantable(bs, n, charge) && Footprint(bs) + HEADER < 0x8000_0000
  }

  ghost predicate StacksAllowed(bs: Blocks, charge: nat)
  {
    Allowed(bs, STACK, charge) && Allowed(Malloc(bs, STACK, charge), STACK, charge)
  }

  ghost predicate AllAllowed(bs: Blocks, charge: nat)
  {
    StacksAllowed(bs, charge) && Allowed(Stacks(bs, charge), PCB, charge)
  }

  /** The areas create_task adds: both stacks, then its control block. */
  function StackAreas(bs: Blocks, charge: nat): seq<Area>
  {
    Got(KernelStack(bs), STACK) + Got(UserStack(bs, charge), STACK)
  }

  function TaskAreas(bs: Blocks, charge: nat): seq<Area>
  {
    StackAreas(bs, charge) + Got(ControlBlock(bs, charge), PCB)
  }

  class TaskSystem {
    const heap: K.KernelHeap
    const low: array<byte>      // the page at address 0, where a null stack lies
    const sched: S.Scheduler
    ghost var areas: seq<Area>  // everything allocated for tasks, in order

    ghost predicate Valid()
      reads this, heap, heap.mem, sched, sched.blocks
    {
      HeapOk() && sched.Valid()
    }

    ghost predicate HeapOk()
      reads this, heap, heap.mem
    {
      && heap.Valid() && Clean(heap.bs)
      && Owned(heap.bs, areas)
      && low != heap.mem && low.Length == PAGE
    }

    constructor (heap: K.KernelHeap, low: array<byte>, sched: S.Scheduler)
      requires heap.Valid() && Clean(heap.bs) && sched.Valid() && low != heap.mem && low.Length == PAGE
      ensures Valid() && this.heap == heap && this.low == low && this.sched == sched && areas == []
    {
      this.heap := heap;
      this.low := low;
      this.sched := sched;
      this.areas := [];
    }

    /** task_init: a control block for the kernel itself. */
    method TaskInit()
      requires Valid() && sched.current == null && sched.nextPid == 1 && MallocResult(heap.bs, PCB) != NULL
      requires heap.charge == 0 ==> Allowed(heap.bs, PCB, 0)
      modifies this, heap, heap.mem, sched
      ensures Valid()
      ensures heap.bs == Malloc(old(heap.bs), PCB, heap.charge)
      ensures areas == old(areas) + [Area(MallocResult(old(heap.bs), PCB), PCB)]
      ensures sched.View() == RoundRobin.Sched([RoundRobin.Pcb(1, 0)], 2)
      ensures sched.current != null && fresh(sched.blocks)
      ensures AreasKept(old(heap.mem[..]), heap.mem[..], old(areas))
    {
      var pcb := Allocate(PCB);
      sched.TaskInit();
    }

    method Allocate(n: word) returns (p: word)
      requires HeapOk() && (heap.charge == 0 ==> Allowed(heap.bs, n, 0))
      modifies heap, heap.mem, this`areas
      ensures HeapOk()
      ensures heap.bs == Malloc(old(heap.bs), n, heap.charge)
      ensures p == MallocResult(old(heap.bs), n) && areas == old(areas) + Got(p, n)
      ensures AreasKept(old(heap.mem[..]), heap.mem[..], old(areas))
    {
      ghost var bs, m := heap.bs, heap.mem[..];
      if heap.charge == HEADER {
        ChargedGrantable(bs, n);
      }
      GrantedLoose(bs, n, heap.charge);
      p := heap.Kmalloc(n);
      NewArea(bs, n, heap.charge, areas);
      MallocAreasKept(bs, n, heap.charge, m, heap.mem[..], areas);
      areas := areas + Got(p, n);
    }

    /**
     * create_task, without the remapping of the user stack's page. The new task's first resumption
     * enters ring 3 at the entry point with its stack pointer 1024 above what kmalloc returned for
     * the user stack, null or not. All areas stay disjoint and what they held is untouched.
     */
    method CreateTask(entry: word) returns (ghost userTop: word, ghost start: Cpu)
      requires Valid() && sched.current != null && sched.nextPid + 1 < WORD_LIMIT
      requires ControlBlock(heap.bs, heap.charge) != NULL
      requires heap.charge == 0 ==> AllAllowed(heap.bs, 0)
      modifies this, heap, heap.mem, low, sched, sched.blocks
      ensures Valid()
      ensures heap.bs == Allocated(old(heap.bs), heap.charge)
      ensures areas == old(areas) + TaskAreas(old(heap.bs), heap.charge)
      ensures sched.View() == old(sched.View()).Step(RoundRobin.Create(KernelStack(old(heap.bs)) + STACK - 52))
      ensures userTop == UserStack(old(heap.bs), heap.charge) + STACK
      ensures Starts(heap.mem[..], low[..], KernelStack(old(heap.bs)), entry, userTop)
      ensures start.eip == entry && start.esp == userTop && start.cs == 0x1B && start.ss == 0x23 && start.eflags == 0x202
      ensures start.eax == start.ebx == start.ecx == start.edx == start.esi == start.edi == start.ebp == 0
      ensures if KernelStack(old(heap.bs)) != NULL then ResumesWith(heap.mem[..], BASE, KernelStack(old(heap.bs)) + 972, start)
              else ResumesWith(low[..], 0, 972, start)
      ensures AreasKept(old(heap.mem[..]), heap.mem[..], old(areas))
      ensures LowKept(old(low[..]), low[..], KernelStack(old(heap.bs)))
      ensures sched.current == old(sched.current) && fresh(sched.blocks - old(sched.blocks))
    {
      var sp;
      sp, userTop := BuildTask(entry);
      start := StartedState(heap.mem[..], low[..], KernelStack(old(heap.bs)), entry, userTop);
      sched.AddTask(sp);
    }

    /** create_task up to the control block's contents. */
    method BuildTask(entry: word) returns (sp: word, ghost userTop: word)
      requires HeapOk() && ControlBlock(heap.bs, heap.charge) != NULL
      requires heap.charge == 0 ==> AllAllowed(heap.bs, 0)
      modifies heap, heap.mem, low, this`areas
      ensures HeapOk()
      ensures heap.bs == Allocated(old(heap.bs), heap.charge)
      ensures areas == old(areas) + TaskAreas(old(heap.bs), heap.charge)
      ensures sp == KernelStack(old(heap.bs)) + STACK - 52
      ensures userTop == UserStack(old(heap.bs), heap.charge) + STACK
      ensures Starts(heap.mem[..], low[..], KernelStack(old(heap.bs)), entry, userTop)
      ensures AreasKept(old(heap.mem[..]), heap.mem[..], old(areas))
      ensures LowKept(old(low[..]), low[..], KernelStack(old(heap.bs)))
    {
      ghost var bs, before, m0 := heap.bs, areas, heap.mem[..];
      sp, userTop := BuildStacks(entry);
      ghost var m := heap.mem[..];
      var pcb := Allocate(PCB);
      Built(m0, m, heap.mem[..], low[..], before, bs, heap.charge, entry, userTop);
    }

    /** The first part of create_task: both stacks and the forged frame. */
    method BuildStacks(entry: word) returns (sp: word, userTop: word)
      requires HeapOk()
      requires heap.charge == 0 ==> StacksAllowed(heap.bs, 0)
      modifies heap, heap.mem, low, this`areas
      ensures HeapOk()
      ensures heap.bs == Stacks(old(heap.bs), heap.charge)
      ensures areas == old(areas) + StackAreas(old(heap.bs), heap.charge)
      ensures sp == KernelStack(old(heap.bs)) + STACK - 52 && userTop == UserStack(old(heap.bs), heap.charge) + STACK
      ensures Forged(heap.mem[..], low[..], KernelStack(old(heap.bs)), entry, userTop)
      ensures AreasKept(old(heap.mem[..]), heap.mem[..], old(areas))
      ensures LowKept(old(low[..]), low[..], KernelStack(old(heap.bs)))
    {
      ghost var before, m0 := areas, heap.mem[..];
      var kernelBase, userBase := AllocateStacks();
      ghost var m := heap.mem[..];
      userTop := userBase + STACK;
      sp := ForgeOnStack(kernelBase, userTop, entry, |before|);
      assert areas[..|before|] == before;
      AreasKeptTwice(m0, m, heap.mem[..], before, []);
    }

    /** The frame goes to the top of the kernel stack, area n, or below address 1024 when there is none. */
    method ForgeOnStack(kernelBase: word, userTop: word, entry: word, ghost n: nat) returns (sp: word)
      requires HeapOk() && n <= |areas|
      requires kernelBase != NULL ==>
                 n < |areas| && areas[n] == Area(kernelBase, STACK) && BASE <= kernelBase && kernelBase + STACK <= LIMIT
      modifies heap.mem, low
      ensures HeapOk()
      ensures sp == kernelBase + STACK - 52
      ensures Forged(heap.mem[..], low[..], kernelBase, entry, userTop)
      ensures AreasKept(old(heap.mem[..]), heap.mem[..], areas[..n])
      ensures LowKept(old(low[..]), low[..], kernelBase)
    {
      ghost var m := heap.mem[..];
      if kernelBase != NULL {
        sp := ForgeFrame(heap.mem, BASE, kernelBase + STACK, userTop, entry);
        WrittenInArea(m, heap.mem[..], heap.bs, areas, n);
      } else {
        sp := ForgeFrame(low, 0, kernelBase + STACK, userTop, entry);
      }
    }

    method AllocateStacks() returns (kernelBase: word, userBase: word)
      requires HeapOk()
      requires heap.charge == 0 ==> StacksAllowed(heap.bs, 0)
      modifies heap, heap.mem, this`areas
      ensures HeapOk()
      ensures heap.bs == Stacks(old(heap.bs), heap.charge)
      ensures areas == old(areas) + StackAreas(old(heap.bs), heap.charge)
      ensures kernelBase == KernelStack(old(heap.bs)) && userBase == UserStack(old(heap.bs), heap.charge)
      ensures kernelBase == NULL || (BASE <= kernelBase && kernelBase + STACK <= LIMIT)
      ensures userBase + STACK <= LIMIT
      ensures AreasKept(old(heap.mem[..]), heap.mem[..], old(areas))
    {
      ghost var before, m0 := areas, heap.mem[..];
      kernelBase := Allocate(STACK);
      ghost var m1, got := heap.mem[..], Got(kernelBase, STACK);
      userBase := Allocate(STACK);
      AreasKeptTwice(m0, m1, heap.mem[..], before, got);
      NewStacks(heap.bs, before, kernelBase, userBase);
    }
  }

  lemma NewStacks(bs: Blocks, areas: seq<Area>, kernelBase: nat, userBase: nat)
    requires Clean(bs) && Owned(bs, areas + Got(kernelBase, STACK) + Got(userBase, STACK))
    ensures areas + Got(kernelBase, STACK) + Got(userBase, STACK) == areas + (Got(kernelBase, STACK) + Got(userBase, STACK))
    ensures kernelBase == NULL || (BASE <= kernelBase && kernelBase + STACK <= LIMIT)
    ensures userBase + STACK <= LIMIT
  {
    var all := areas + Got(kernelBase, STACK) + Got(userBase, STACK);
    if kernelBase != NULL {
      assert all[|areas|] == Area(kernelBase, STACK);
      AreaInPage(bs, all, |areas|);
    }
    if userBase != NULL {
      assert all[|all| - 1] == Area(userBase, STACK);
      AreaInPage(bs, all, |all| - 1);
    }
  }

  /** The control block's kmalloc (m to m') disturbs neither the frame nor the areas there were at first (m0). */
  lemma Built(m0: seq<byte>, m: seq<byte>, m': seq<byte>, low: seq<byte>, before: seq<Area>, bs: Blocks, charge: nat,
              entry: word, userTop: word)
    requires |m0| == |m| == |m'| == PAGE && AreasKept(m0, m, before) && AreasKept(m, m', before + StackAreas(bs, charge))
    requires Forged(m, low, KernelStack(bs), entry, userTop)
    ensures AreasKept(m0, m', before) && Starts(m', low, KernelStack(bs), entry, userTop)
    ensures before + StackAreas(bs, charge) + Got(ControlBlock(bs, charge), PCB) == before + TaskAreas(bs, charge)
  {
    AreasKeptTwice(m0, m, m', before, StackAreas(bs, charge));
    ForgedKept(m, m', low, before + StackAreas(bs, charge), |before|, KernelStack(bs), entry, userTop);
    ForgedStarts(m', low, KernelStack(bs), entry, userTop);
  }

  // ----- how many tasks the heap page holds -----

  /** Everything but the last block is allocated. */
  ghost predicate OnlyTailFree(bs: Blocks)
  {
    bs != [] && bs[|bs| - 1].free && forall i :: 0 <= i < |bs| - 1 ==> !bs[i].free
  }

  function Tail(bs: Blocks): Block
    requires bs != []
  {
    bs[|bs| - 1]
  }

  lemma TailFirst(bs: Blocks, n: nat)
    requires OnlyTailFree(bs)
    ensures FirstFit(bs, n) == if Tail(bs).size < n then |bs| else |bs| - 1
  {
    assert Tail(bs).size >= n ==> bs[|bs| - 1].Fits(n);
  }

  /** kmalloc on such a heap cuts the tail, or uses it up. */
  lemma TailMalloc(bs: Blocks, n: nat, charge: nat)
    requires OnlyTailFree(bs)
    ensures MallocResult(bs, n) == NULL <==> Tail(bs).size < n
    ensures Tail(bs).size < n ==> Malloc(bs, n, charge) == bs
    ensures Tail(bs).size > n + charge ==>
      var r := Malloc(bs, n, charge);
      OnlyTailFree(r) && Tail(r) == Block(Tail(bs).User() + n, Tail(bs).size - n - charge, true)
    ensures n <= Tail(bs).size <= n + charge ==> forall k :: MallocResult(Malloc(bs, n, charge), k) == NULL
  {
    TailFirst(bs, n);
    if n <= Tail(bs).size <= n + charge {
      var r := Malloc(bs, n, charge);
      assert forall i :: 0 <= i < |r| ==> !r[i].free;
    }
  }

  /** create_task gets all its memory exactly when the tail has room for two stacks, two headers and a control block. */
  lemma AffordableExactly(bs: Blocks, charge: nat)
    requires OnlyTailFree(bs)
    ensures Affordable(bs, charge) <==> Tail(bs).size >= 2 * (STACK + charge) + PCB
  {
    TailMalloc(bs, STACK, charge);
    var b1 := Malloc(bs, STACK, charge);
    if Tail(bs).size > STACK + charge {
      TailMalloc(b1, STACK, charge);
      if Tail(b1).size > STACK + charge {
        TailMalloc(Malloc(b1, STACK, charge), PCB, charge);
      }
    }
  }

  /** On such a heap kmalloc(n) is allowed exactly when what it does to the tail stays inside the page. */
  lemma TailGrantable(bs: Blocks, n: nat, charge: nat)
    requires OnlyTailFree(bs)
    ensures Grantable(bs, n, charge) <==>
              || Tail(bs).size < n
              || (Tail(bs).size > n + charge && Tail(bs).User() + n + HEADER <= LIMIT)
              || (Tail(bs).size <= n + charge && Tail(bs).End() <= LIMIT)
  {
    TailFirst(bs, n);
  }

  /** The heap after task_init. */
  function KernelOnly(charge: nat): Blocks
  {
    Malloc(INITIAL, PCB, charge)
  }

  /** The heap after task_init and one create_task. */
  function OneTask(charge: nat): Blocks
  {
    Allocated(KernelOnly(charge), charge)
  }

  /** Three calls that cut the tail of a heap like that. */
  lemma TaskFromTail(bs: Blocks, charge: nat)
    requires L.ChargeOk(charge) && OnlyTailFree(bs) && Tail(bs).size > 2 * (STACK + charge) + PCB + charge
    requires Tail(bs).addr + 2112 <= LIMIT && Footprint(bs) + 4 * HEADER < 0x8000_0000
    ensures AllAllowed(bs, charge)
    ensures KernelStack(bs) == Tail(bs).User() && UserStack(bs, charge) == Tail(bs).User() + 1036
    ensures var r := Allocated(bs, charge);
      && OnlyTailFree(r)
      && Tail(r) == Block(Tail(bs).addr + 2100, Tail(bs).size - 2 * (STACK + charge) - PCB - charge, true)
      && Footprint(r) <= Footprint(bs) + 3 * HEADER
  {
    var b1 := Malloc(bs, STACK, charge);
    CutTail(bs, STACK, charge);
    CutTail(b1, STACK, charge);
    CutTail(Stacks(bs, charge), PCB, charge);
  }

  lemma CutTail(bs: Blocks, n: nat, charge: nat)
    requires L.ChargeOk(charge) && OnlyTailFree(bs) && Tail(bs).size > n + charge
    requires Tail(bs).User() + n + HEADER <= LIMIT && Footprint(bs) + HEADER < 0x8000_0000
    ensures Allowed(bs, n, charge) && MallocResult(bs, n) == Tail(bs).User()
    ensures var r := Malloc(bs, n, charge);
      && OnlyTailFree(r) && Tail(r) == Block(Tail(bs).User() + n, Tail(bs).size - n - charge, true)
      && Footprint(r) <= Footprint(bs) + HEADER
  {
    TailMalloc(bs, n, charge);
    TailGrantable(bs, n, charge);
    TailFirst(bs, n);
    TakeFootprint(bs, |bs| - 1, n, charge);
  }

  /**
   * From boot, with either charge, the first create_task is allowed and gets all its memory. The second
   * is allowed, gets a kernel stack and a control block, and is refused its user stack: by CreateTask's
   * contract it starts with its stack pointer at 1024.
   */
  lemma SecondTaskStarved(charge: nat)
    requires L.ChargeOk(charge)
    ensures Allowed(INITIAL, PCB, charge) && MallocResult(INITIAL, PCB) != NULL
    ensures var b := KernelOnly(charge);
      && AllAllowed(b, charge) && Affordable(b, charge)
      && KernelStack(b) == BASE + 40 && UserStack(b, charge) == BASE + 1076
    ensures var b := OneTask(charge);
      && AllAllowed(b, charge)
      && KernelStack(b) == BASE + 2140 && UserStack(b, charge) == NULL && ControlBlock(b, charge) != NULL
  {
    assert Claim(INITIAL, 0) == 0;
    CutTail(INITIAL, PCB, charge);
    TaskFromTail(KernelOnly(charge), charge);
    AffordableExactly(KernelOnly(charge), charge);
    var b := OneTask(charge);
    CutTail(b, STACK, charge);
    var b1 := Malloc(b, STACK, charge);
    TailMalloc(b1, STACK, charge);
    TailGrantable(b1, STACK, charge);
    CutTail(b1, PCB, charge);
  }
}
