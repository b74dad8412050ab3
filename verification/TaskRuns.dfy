/**
 * Whole runs of the machine: tasks run, are interrupted, create others and are resumed. The ring of control blocks
 * and the frames on the stacks together give every task its registers back.
 */
module TaskRuns {
  import opened Words
  import opened ContextSwitch
  import L = HeapList
  import R = RoundRobin
  import T = Tasking

  /** Memory starts at address base; ss0 is the ring 0 stack segment; area gives the offsets that belong to each task. */
  datatype World = World(base: nat, ss0: word, area: nat -> set<nat>)

  datatype Machine = Machine(sched: R.Sched, m: seq<byte>)

  /**
   * What happens next. Tick: the current task runs until memory is m and its registers are cpu, and is then interrupted;
   * the frame goes below address top. Create: it calls create_task, which leaves memory m and the forged pointer.
   */
  datatype Event = Tick(m: seq<byte>, cpu: Cpu, top: nat, spSlot: word) | Create(m: seq<byte>, cpu: Cpu, forged: nat)

  ghost predicate SameOn(m: seq<byte>, m': seq<byte>, a: set<nat>)
  {
    |m| == |m'| && forall k :: k in a && k < |m| ==> m'[k] == m[k]
  }

  /** The frame at sp, inside the area, resumes with the registers cpu. */
  ghost predicate Parked(w: World, m: seq<byte>, sp: nat, cpu: Cpu, a: set<nat>)
  {
    && CanResume(m, w.base, sp) && Resume(m, w.base, sp, w.ss0) == cpu
    && forall k :: sp - w.base <= k < sp - w.base + FrameSize(cpu.cs) ==> k in a
  }

  lemma ParkedKept(w: World, m: seq<byte>, m': seq<byte>, sp: nat, cpu: Cpu, a: set<nat>)
    requires Parked(w, m, sp, cpu, a) && SameOn(m, m', a)
    ensures Parked(w, m', sp, cpu, a)
  {
    ResumeSame(m, m', w.base, sp, w.ss0);
  }

  /** What create_task leaves is parked, in any area its kernel stack belongs to: see Tasking.TaskSystem.CreateTask. */
  lemma CreatedParked(w: World, m: seq<byte>, low: seq<byte>, kernelBase: nat, entry: word, userTop: word, a: set<nat>)
    requires T.Starts(m, low, kernelBase, entry, userTop) && kernelBase >= w.base == L.BASE
    requires forall k :: kernelBase <= w.base + k < kernelBase + T.STACK ==> k in a
    ensures Parked(w, m, kernelBase + T.STACK - 52, T.Launched(entry, userTop), a)
  {
    var sp := kernelBase + T.STACK - 52;
    assert Resume(m, w.base, sp, w.ss0) == T.Launched(entry, userTop);
  }

  /** The current task writes nothing that belongs to a waiting one. */
  ghost predicate Spares(w: World, s: R.Sched, m: seq<byte>, m': seq<byte>)
  {
    forall j :: 0 < j < |s.ring| ==> SameOn(m, m', w.area(s.ring[j].id))
  }

  /** It does so, and the frame of its interruption, or the one it forges, lies in the area of the task it is for. */
  ghost predicate Possible(w: World, t: Machine, e: Event)
    requires t.sched.ring != []
  {
    && |e.m| == |t.m| && Spares(w, t.sched, t.m, e.m)
    && match e
       case Tick(m, cpu, top, _) =>
         && w.base + FrameSize(cpu.cs) <= top <= w.base + |m| && top < WORD_LIMIT
         && (!Outer(cpu.cs) ==> cpu.esp == top && cpu.ss == w.ss0)
         && forall k :: top - FrameSize(cpu.cs) - w.base <= k < top - w.base ==> k in w.area(t.sched.Current().id)
       case Create(m, cpu, forged) => Parked(w, m, forged, cpu, w.area(t.sched.nextPid))
  }

  /** The interrupt and the timer handler, or the end of create_task. */
  ghost function Step(w: World, t: Machine, e: Event): (r: Machine)
    requires t.sched.ring != []
    ensures r.sched.ring != []
  {
    match e
    case Tick(m, cpu, top, spSlot) =>
      if w.base + FrameSize(cpu.cs) <= top <= w.base + |m| then
        var (after, sp) := Interrupted(m, w.base, top, cpu, spSlot);
        Machine(t.sched.Step(R.Tick(sp)), after)
      else t
    case Create(m, _, forged) => Machine(t.sched.Step(R.Create(forged)), m)
  }

  /** The machine after the first i events. */
  ghost function At(w: World, t: Machine, es: seq<Event>, i: nat): (r: Machine)
    requires t.sched.ring != [] && i <= |es|
    ensures r.sched.ring != []
  {
    if i == 0 then t else Step(w, At(w, t, es, i - 1), es[i - 1])
  }

  ghost predicate PossibleAt(w: World, t: Machine, es: seq<Event>, i: nat)
    requires t.sched.ring != [] && i < |es|
  {
    Possible(w, At(w, t, es, i), es[i])
  }

  ghost predicate Run(w: World, t: Machine, es: seq<Event>)
  {
    && t.sched.ring != [] && t.sched.Valid()
    && (forall a, b :: a != b ==> w.area(a) !! w.area(b))
    && forall i {:trigger PossibleAt(w, t, es, i)} :: 0 <= i < |es| ==> PossibleAt(w, t, es, i)
  }

  /** The registers task `id` had when it was last interrupted; those it was forged or started with if it never was. */
  ghost function Registers(w: World, t: Machine, es: seq<Event>, i: nat, id: nat, first: nat -> Cpu): Cpu
    requires t.sched.ring != [] && i <= |es|
  {
    if i == 0 then first(id)
    else
      if Subject(At(w, t, es, i - 1).sched, es[i - 1]) == id then es[i - 1].cpu else Registers(w, t, es, i - 1, id, first)
  }

  /** The task that is interrupted or created. */
  function Subject(s: R.Sched, e: Event): nat
    requires s.ring != []
  {
    if e.Tick? then s.Current().id else s.nextPid
  }

  lemma {:induction false} RunValid(w: World, t: Machine, es: seq<Event>, i: nat)
    requires Run(w, t, es) && i <= |es|
    ensures At(w, t, es, i).sched.Valid() && |At(w, t, es, i).m| == |t.m|
  {
    if i > 0 {
      RunValid(w, t, es, i - 1);
      assert PossibleAt(w, t, es, i - 1);
      var p := At(w, t, es, i - 1);
      match es[i - 1]
      case Tick(m, cpu, top, spSlot) => p.sched.StepValid(R.Tick(top - FrameSize(cpu.cs)));
      case Create(_, _, forged) => p.sched.StepValid(R.Create(forged));
    }
  }

  /** The task at ring position j finds the registers cpu on its stack. */
  ghost predicate Waits(w: World, t: Machine, j: nat, cpu: Cpu)
  {
    j < |t.sched.ring| && Parked(w, t.m, t.sched.ring[j].esp, cpu, w.area(t.sched.ring[j].id))
  }

  /** An interruption parks the interrupted task at the end of the ring. */
  lemma TickParks(w: World, t: Machine, e: Event)
    requires t.sched.ring != [] && e.Tick? && Possible(w, t, e)
    ensures Waits(w, Step(w, t, e), |t.sched.ring| - 1, e.cpu)
  {
    var r, sp, n := Step(w, t, e), e.top - FrameSize(e.cpu.cs), |t.sched.ring|;
    ContextPreserved(e.m, w.base, e.top, e.cpu, e.spSlot, w.ss0);
    assert (r.m, sp) == Interrupted(e.m, w.base, e.top, e.cpu, e.spSlot);
    assert r.sched.ring[n - 1] == R.Pcb(t.sched.Current().id, sp);
    assert Parked(w, r.m, sp, e.cpu, w.area(t.sched.Current().id));
  }

  /** It moves the others up and leaves their stacks alone. */
  lemma TickKeeps(w: World, t: Machine, e: Event, j: nat, cpu: Cpu)
    requires t.sched.ring != [] && e.Tick? && Possible(w, t, e) && j > 0 && Waits(w, t, j, cpu)
    requires w.area(t.sched.Current().id) !! w.area(t.sched.ring[j].id)
    ensures Waits(w, Step(w, t, e), j - 1, cpu)
  {
    var r, sp, a := Step(w, t, e), e.top - FrameSize(e.cpu.cs), w.area(t.sched.ring[j].id);
    assert SameOn(t.m, e.m, a);
    assert (r.m, sp) == Interrupted(e.m, w.base, e.top, e.cpu, e.spSlot);
    assert SameOn(t.m, r.m, a);
    assert r.sched.ring[j - 1] == t.sched.ring[j];
    ParkedKept(w, t.m, r.m, t.sched.ring[j].esp, cpu, a);
  }

  /** So does a creation, which puts the new task at position 1. */
  lemma CreateKeeps(w: World, t: Machine, e: Event, j: nat, cpu: Cpu)
    requires t.sched.ring != [] && e.Create? && Possible(w, t, e) && j > 0
    ensures Waits(w, Step(w, t, e), 1, e.cpu)
    ensures Waits(w, t, j, cpu) ==> Waits(w, Step(w, t, e), j + 1, cpu)
  {
    if Waits(w, t, j, cpu) {
      var a := w.area(t.sched.ring[j].id);
      assert SameOn(t.m, e.m, a);
      ParkedKept(w, t.m, e.m, t.sched.ring[j].esp, cpu, a);
    }
  }

  /** One event: the task now at position j was at the next or the last position before, or is the event's subject. */
  lemma StepWaits(w: World, t: Machine, e: Event, j: nat, cpu: Cpu)
    requires t.sched.ring != [] && t.sched.Valid() && Possible(w, t, e) && (j > 0 || e.Tick?)
    requires e.Tick? && j + 1 < |t.sched.ring| ==> w.area(t.sched.ring[0].id) !! w.area(t.sched.ring[j + 1].id)
    requires j < |Step(w, t, e).sched.ring|
    requires var k := if e.Tick? then j + 1 else j - 1;
      if 0 < k < |t.sched.ring| then Waits(w, t, k, cpu) else cpu == e.cpu
    ensures var p := Step(w, t, e).sched.ring[j];
      && Waits(w, Step(w, t, e), j, cpu)
      && var k := if e.Tick? then j + 1 else j - 1;
      if 0 < k < |t.sched.ring| then p.id == t.sched.ring[k].id != Subject(t.sched, e) else p.id == Subject(t.sched, e)
  {
    var ring := t.sched.ring;
    if e.Tick? && j + 1 < |ring| {
      assert ring[0].id != ring[j + 1].id;
      TickKeeps(w, t, e, j + 1, cpu);
    } else if e.Tick? {
      TickParks(w, t, e);
    } else {
      CreateKeeps(w, t, e, if j == 1 then 1 else j - 1, cpu);
    }
  }

  /** At first every waiting task has a frame with the registers `first` says. */
  ghost predicate AllWait(w: World, t: Machine, first: nat -> Cpu)
  {
    forall k {:trigger t.sched.ring[k]} :: 0 < k < |t.sched.ring| ==> Waits(w, t, k, first(t.sched.ring[k].id))
  }

  /** One event of a run. */
  lemma NextParked(w: World, t: Machine, es: seq<Event>, first: nat -> Cpu, i: nat, j: nat)
    requires Run(w, t, es) && 0 < i <= |es| && j < |At(w, t, es, i).sched.ring| && (j > 0 || es[i - 1].Tick?)
    requires var p, k := At(w, t, es, i - 1), if es[i - 1].Tick? then j + 1 else j - 1;
      0 < k < |p.sched.ring| ==> Waits(w, p, k, Registers(w, t, es, i - 1, p.sched.ring[k].id, first))
    ensures var r := At(w, t, es, i); Waits(w, r, j, Registers(w, t, es, i, r.sched.ring[j].id, first))
  {
    RunValid(w, t, es, i - 1);
    assert PossibleAt(w, t, es, i - 1);
    var before, e := At(w, t, es, i - 1), es[i - 1];
    var ring, k := before.sched.ring, if e.Tick? then j + 1 else j - 1;
    if 0 < k < |ring| {
      assert k == j + 1 ==> ring[0].id != ring[k].id;
      StepWaits(w, before, e, j, Registers(w, t, es, i - 1, ring[k].id, first));
    } else {
      StepWaits(w, before, e, j, e.cpu);
    }
  }

  /**
   * Over every run: each waiting task, and after a tick the current one as well, finds on its stack the registers it
   * had when it was last interrupted.
   */
  lemma {:induction false} AlwaysParked(w: World, t: Machine, es: seq<Event>, first: nat -> Cpu, i: nat, j: nat)
    requires Run(w, t, es) && i <= |es| && j < |At(w, t, es, i).sched.ring| && AllWait(w, t, first)
    requires j > 0 || (i > 0 && es[i - 1].Tick?)
    ensures var r := At(w, t, es, i); Waits(w, r, j, Registers(w, t, es, i, r.sched.ring[j].id, first))
  {
    if i > 0 {
      var k := if es[i - 1].Tick? then j + 1 else j - 1;
      if 0 < k < |At(w, t, es, i - 1).sched.ring| {
        AlwaysParked(w, t, es, first, i - 1, k);
      }
      NextParked(w, t, es, first, i, j);
    }
  }

  /**
   * So the task a tick returns to, from the pointer the handler hands to popa and iret, has every register as it was
   * when it was last interrupted, whatever the others did in between.
   */
  lemma RegistersReturn(w: World, t: Machine, es: seq<Event>, first: nat -> Cpu, i: nat)
    requires Run(w, t, es) && i < |es| && es[i].Tick? && AllWait(w, t, first) && w.base > 0
    ensures var r := At(w, t, es, i + 1);
      var p := r.sched.Current();
      && p.esp != 0 && CanResume(r.m, w.base, p.esp)
      && Resume(r.m, w.base, p.esp, w.ss0) == Registers(w, t, es, i + 1, p.id, first)
  {
    AlwaysParked(w, t, es, first, i + 1, 0);
  }

  /** With more than one task these are the registers from before the tick. */
  lemma OthersRegisters(w: World, t: Machine, es: seq<Event>, first: nat -> Cpu, i: nat)
    requires Run(w, t, es) && i < |es| && es[i].Tick? && |At(w, t, es, i).sched.ring| > 1
    ensures var id := At(w, t, es, i + 1).sched.Current().id;
      Registers(w, t, es, i + 1, id, first) == Registers(w, t, es, i, id, first)
  {
    RunValid(w, t, es, i);
    assert PossibleAt(w, t, es, i);
    var ring := At(w, t, es, i).sched.ring;
    assert ring[0].id != ring[1].id;
  }
}
