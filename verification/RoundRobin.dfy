/**
 * The scheduler as a step system: a ring of tasks, the current one first, changed by
 * task creation and timer ticks; and its laws over whole runs.
 */
module RoundRobin {

  /** What the scheduler keeps of a task. */
  datatype Pcb = Pcb(id: nat, esp: nat)

  /** Create carries the forged stack pointer of the new task, Tick the one of the preempted task. */
  datatype Event = Create(forged: nat) | Tick(esp: nat)

  datatype Sched = Sched(ring: seq<Pcb>, nextPid: nat) {
    ghost predicate Valid()
    {
      && ring != []
      && (forall i :: 0 <= i < |ring| ==> ring[i].id < nextPid)
      && (forall i, j :: 0 <= i < j < |ring| ==> ring[i].id != ring[j].id)
    }

    function Current(): Pcb
      requires ring != []
    {
      ring[0]
    }

    /** The new task comes right after the current one. */
    function Joined(forged: nat): Sched
      requires ring != []
    {
      Sched(
        seq(|ring| + 1, i requires 0 <= i <= |ring| =>
          if i == 0 then ring[0] else if i == 1 then Pcb(nextPid, forged) else ring[i - 1]),
        nextPid + 1)
    }

    /** The preempted task goes to the back with its stack pointer saved. */
    function Rotated(esp: nat): Sched
      requires ring != []
    {
      this.(ring := seq(|ring|, i requires 0 <= i < |ring| => if i + 1 < |ring| then ring[i + 1] else Pcb(ring[0].id, esp)))
    }

    function Step(e: Event): (s: Sched)
      requires ring != []
      ensures s.ring != []
    {
      match e
      case Create(forged) => Joined(forged)
      case Tick(esp) => Rotated(esp)
    }

    lemma StepValid(e: Event)
      requires Valid()
      ensures Step(e).Valid()
    {
    }
  }

  /** The state after the first i events. */
  function At(s: Sched, es: seq<Event>, i: nat): (r: Sched)
    requires s.ring != [] && i <= |es|
    ensures r.ring != []
  {
    if i == 0 then s else At(s, es, i - 1).Step(es[i - 1])
  }

  function Ticks(es: seq<Event>, i: nat): nat
    requires i <= |es|
  {
    if i == 0 then 0 else Ticks(es, i - 1) + if es[i - 1].Tick? then 1 else 0
  }

  function Creates(es: seq<Event>, i: nat): nat
    requires i <= |es|
  {
    if i == 0 then 0 else Creates(es, i - 1) + if es[i - 1].Create? then 1 else 0
  }

  /** The ring always holds distinct tasks: those it started with and those created. */
  lemma {:induction false} RunValid(s: Sched, es: seq<Event>, i: nat)
    requires s.Valid() && i <= |es|
    ensures At(s, es, i).Valid()
    ensures |At(s, es, i).ring| == |s.ring| + Creates(es, i)
    ensures At(s, es, i).nextPid == s.nextPid + Creates(es, i)
  {
    if i > 0 {
      RunValid(s, es, i - 1);
      At(s, es, i - 1).StepValid(es[i - 1]);
    }
  }

  // ----- waiting time -----

  /** Task `id` was not current at any point before event i. */
  ghost predicate Waiting(s: Sched, es: seq<Event>, i: nat, id: nat)
    requires s.ring != [] && i <= |es|
  {
    forall k :: 0 <= k < i ==> At(s, es, k).Current().id != id
  }

  /** While a task waits, its distance grows by one with every creation and shrinks by one with every tick. */
  lemma {:induction false} Distance(s: Sched, es: seq<Event>, i: nat, d: nat)
    requires s.Valid() && i <= |es| && 0 < d < |s.ring| && Waiting(s, es, i, s.ring[d].id)
    ensures var p := d + Creates(es, i) - Ticks(es, i);
      0 <= p < |At(s, es, i).ring| && At(s, es, i).ring[p].id == s.ring[d].id
  {
    if i > 0 {
      Distance(s, es, i - 1, d);
      assert At(s, es, i - 1).Current().id != s.ring[d].id;
    }
  }

  /**
   * A task at ring distance d that has not run yet becomes current exactly when the number
   * of ticks reaches d plus the number of tasks created meanwhile.
   */
  lemma FirstTurn(s: Sched, es: seq<Event>, i: nat, d: nat)
    requires s.Valid() && i <= |es| && 0 < d < |s.ring| && Waiting(s, es, i, s.ring[d].id)
    ensures At(s, es, i).Current().id == s.ring[d].id <==> Ticks(es, i) == d + Creates(es, i)
  {
    Distance(s, es, i, d);
    RunValid(s, es, i);
  }

  ghost predicate OnlyTicks(es: seq<Event>)
  {
    forall k :: 0 <= k < |es| ==> es[k].Tick?
  }

  /** Ticks alone rotate the ring. */
  lemma {:induction false} Rotation(s: Sched, es: seq<Event>, i: nat, j: nat)
    requires s.Valid() && OnlyTicks(es) && i <= |es| && i <= |s.ring| && j < |s.ring|
    ensures |At(s, es, i).ring| == |s.ring|
    ensures At(s, es, i).ring[j].id == s.ring[if i + j < |s.ring| then i + j else i + j - |s.ring|].id
  {
    if i > 0 {
      Rotation(s, es, i - 1, if j + 1 < |s.ring| then j + 1 else 0);
    }
  }

  function Turn(j: nat, n: nat): nat { if j < n then j else 0 }

  /** With n tasks and no creation, n ticks run every task exactly once and return to the first. */
  lemma EachOnce(s: Sched, es: seq<Event>)
    requires s.Valid() && OnlyTicks(es) && |es| == |s.ring|
    ensures forall j :: 0 < j < |es| ==> At(s, es, j).Current().id == s.ring[j].id
    ensures At(s, es, |es|).Current().id == s.ring[0].id
    ensures forall j, k :: 0 < j < k <= |es| ==> At(s, es, j).Current().id != At(s, es, k).Current().id
  {
    forall j | 0 < j < |es|
      ensures At(s, es, j).Current().id == s.ring[j].id
    {
      Rotation(s, es, j, 0);
    }
    Rotation(s, es, |es|, 0);
    forall j, k | 0 < j < k <= |es|
      ensures At(s, es, j).Current().id != At(s, es, k).Current().id
    {
      TurnsDiffer(s, es, j, k);
    }
  }

  lemma TurnsDiffer(s: Sched, es: seq<Event>, j: nat, k: nat)
    requires s.Valid() && OnlyTicks(es) && |es| == |s.ring| && 0 < j < k <= |es|
    ensures At(s, es, j).Current().id != At(s, es, k).Current().id
  {
    Rotation(s, es, j, 0);
    Rotation(s, es, k, 0);
    assert s.ring[Turn(j, |es|)].id != s.ring[Turn(k, |es|)].id;
  }

  // ----- saved stack pointers -----

  /** The stack pointer the ring holds for task `id`. */
  function EspOf(ring: seq<Pcb>, id: nat, from: nat := 0): nat
    requires from <= |ring|
    decreases |ring| - from
  {
    if from == |ring| then 0 else if ring[from].id == id then ring[from].esp else EspOf(ring, id, from + 1)
  }

  lemma {:induction false} EspAt(ring: seq<Pcb>, j: nat, from: nat)
    requires from <= j < |ring|
    requires forall k :: from <= k < j ==> ring[k].id != ring[j].id
    ensures EspOf(ring, ring[j].id, from) == ring[j].esp
    decreases |ring| - from
  {
    if from < j {
      EspAt(ring, j, from + 1);
    }
  }

  /** The stack pointer saved when `id` was last preempted, or its forged one if it never ran. */
  function LastSaved(s: Sched, es: seq<Event>, i: nat, id: nat): nat
    requires s.ring != [] && i <= |es|
  {
    if i == 0 then EspOf(s.ring, id)
    else
      var p := At(s, es, i - 1);
      match es[i - 1]
      case Create(forged) => if p.nextPid == id then forged else LastSaved(s, es, i - 1, id)
      case Tick(esp) => if p.Current().id == id then esp else LastSaved(s, es, i - 1, id)
  }

  /** Every task in the ring holds exactly that stack pointer, whoever ran in between. */
  lemma {:induction false} SavedPointer(s: Sched, es: seq<Event>, i: nat, j: nat)
    requires s.Valid() && i <= |es| && j < |At(s, es, i).ring|
    ensures var p := At(s, es, i).ring[j]; p.esp == LastSaved(s, es, i, p.id)
  {
    if i == 0 {
      EspAt(s.ring, j, 0);
    } else {
      RunValid(s, es, i - 1);
      var before := At(s, es, i - 1).ring;
      match es[i - 1]
      case Create(_) =>
        if j != 1 {
          SavedPointer(s, es, i - 1, if j == 0 then 0 else j - 1);
        }
      case Tick(_) =>
        if j + 1 < |before| {
          SavedPointer(s, es, i - 1, j + 1);
        }
    }
  }

  /** What a tick returns for the task it switches to. */
  lemma Resumed(s: Sched, es: seq<Event>, i: nat)
    requires s.Valid() && i < |es| && es[i].Tick?
    ensures var t := At(s, es, i + 1).Current();
      && t.esp == LastSaved(s, es, i + 1, t.id)
      && (|At(s, es, i).ring| > 1 ==> t.esp == LastSaved(s, es, i, t.id))
  {
    SavedPointer(s, es, i + 1, 0);
    RunValid(s, es, i);
  }

  // ----- the fallback -----

  ghost predicate RealPointers(es: seq<Event>)
  {
    forall k :: 0 <= k < |es| ==> match es[k] case Create(forged) => forged != 0 case Tick(esp) => esp != 0
  }

  /** No waiting task ever has a zero stack pointer, so the fallback for one is never taken. */
  lemma {:induction false} WaitersReady(s: Sched, es: seq<Event>, i: nat)
    requires s.ring != [] && i <= |es| && RealPointers(es)
    requires forall j :: 0 < j < |s.ring| ==> s.ring[j].esp != 0
    ensures forall j :: 0 < j < |At(s, es, i).ring| ==> At(s, es, i).ring[j].esp != 0
    ensures i > 0 && es[i - 1].Tick? ==> At(s, es, i).Current().esp != 0
  {
    if i > 0 {
      WaitersReady(s, es, i - 1);
    }
  }
}
