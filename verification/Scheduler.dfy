/** src/task.c and src/timer.c: the circular list of control blocks and the timer handler that rotates it. */
module Scheduler {
  import opened Words
  import opened RoundRobin

  /** task_t. */
  class Task {
    const id: word
    const pageDire: word
    var esp: word
    var next: Task?

    constructor (id: word, esp: word, pageDire: word)
      ensures this.id == id && this.esp == esp && this.pageDire == pageDire
    {
      this.id := id;
      this.pageDire := pageDire;
      this.esp := esp;
      this.next := null;
    }
  }

  /** tasks lists exactly the members of blocks, each once. */
  ghost predicate Members(tasks: seq<Task>, blocks: set<Task>)
  {
    && (forall i :: 0 <= i < |tasks| ==> tasks[i] in blocks)
    && (forall t :: t in blocks ==> t in tasks)
    && (forall i, j :: 0 <= i < j < |tasks| ==> tasks[i] != tasks[j])
  }

  /** Each task is linked to the next one, the last to the first. */
  ghost predicate Cycle(tasks: seq<Task>, blocks: set<Task>)
    requires Members(tasks, blocks)
    reads blocks
  {
    forall i {:trigger tasks[i].next} :: 0 <= i < |tasks| ==> tasks[i].next == if i + 1 < |tasks| then tasks[i + 1] else tasks[0]
  }

  ghost function Ring(tasks: seq<Task>, blocks: set<Task>): seq<Pcb>
    requires Members(tasks, blocks)
    reads blocks
  {
    seq(|tasks|, i requires 0 <= i < |tasks| && tasks[i] in blocks reads blocks => Pcb(tasks[i].id, tasks[i].esp))
  }

  class Scheduler {
    const kernelDirectory: word
    var current: Task?      // current_task
    var readyQueue: Task?   // ready_queue
    var nextPid: word       // next_pid
    var tick: word
    var ss0: word           // tss_entry.ss0
    var cr3: word           // the page directory in use
    ghost var tasks: seq<Task>  // the ring, from current on
    ghost var blocks: set<Task> // its members

    /** The list is one cycle through exactly the tasks created, starting at the current one. */
    ghost predicate Valid()
      reads this, blocks
    {
      && Members(tasks, blocks)
      && Cycle(tasks, blocks)
      && (current == null <==> tasks == [])
      && (tasks != [] ==> tasks[0] == current && readyQueue != null && readyQueue in tasks)
      && (forall t :: t in blocks ==> t.pageDire == kernelDirectory)
      && (tasks != [] ==> ss0 == 0x10 && View().Valid())
    }

    ghost function View(): Sched
      requires Members(tasks, blocks)
      reads this, blocks
    {
      Sched(Ring(tasks, blocks), nextPid)
    }

    constructor (kernelDirectory: word)
      ensures Valid() && current == null && nextPid == 1 && tasks == [] && blocks == {}
      ensures this.kernelDirectory == cr3 == kernelDirectory
    {
      this.kernelDirectory, cr3 := kernelDirectory, kernelDirectory;
      current, readyQueue := null, null;
      nextPid, tick, ss0 := 1, 0, 0;
      tasks, blocks := [], {};
    }

    /** task_init, its control block allocated: the kernel becomes the only task. */
    method TaskInit()
      requires Valid() && current == null && nextPid == 1
      modifies this
      ensures Valid() && current != null && fresh(blocks)
      ensures View() == Sched([Pcb(1, 0)], 2) && readyQueue == current
      ensures cr3 == old(cr3)
    {
      var kernelTask := new Task(nextPid, 0, kernelDirectory);
      nextPid := nextPid + 1;
      ss0 := 0x10;
      kernelTask.next := kernelTask;
      current := kernelTask;
      readyQueue := kernelTask;
      tasks, blocks := [kernelTask], {kernelTask};
    }

    /** The end of create_task: a control block with the forged stack pointer, linked in after the current task. */
    method AddTask(forged: word)
      requires Valid() && current != null && nextPid + 1 < WORD_LIMIT
      modifies this, blocks
      ensures Valid() && View() == old(View()).Step(Create(forged))
      ensures readyQueue == old(readyQueue) && cr3 == old(cr3)
      ensures current == old(current) && fresh(blocks - old(blocks))
    {
      ghost var before, was := View(), tasks;
      before.StepValid(Create(forged));
      var newTask := new Task(nextPid, forged, kernelDirectory);
      nextPid := nextPid + 1;
      Link(newTask);
      forall i | 0 <= i < |tasks|
        ensures View().ring[i] == before.Joined(forged).ring[i]
      {
        if i != 1 {
          assert tasks[i] == was[if i == 0 then 0 else i - 1];
        }
      }
      assert View() == before.Joined(forged);
    }

    /** The circular insertion. */
    method Link(newTask: Task)
      requires Members(tasks, blocks) && Cycle(tasks, blocks) && tasks != [] && tasks[0] == current && readyQueue != null && readyQueue in tasks
      requires newTask !in blocks
      modifies `tasks, `blocks, blocks, newTask`next
      ensures blocks == old(blocks) + {newTask}
      ensures |tasks| == |old(tasks)| + 1 && tasks[0] == current && readyQueue in tasks
      ensures Members(tasks, blocks) && Cycle(tasks, blocks)
      ensures forall i :: 0 <= i < |tasks| ==> tasks[i] == if i == 0 then old(tasks)[0] else if i == 1 then newTask else old(tasks)[i - 1]
      ensures forall t :: t in blocks ==> t.esp == old(t.esp)
    {
      ghost var was := tasks;
      assert was[0].next == if 1 < |was| then was[1] else was[0];
      newTask.next := current.next;
      current.next := newTask;
      tasks := seq(|was| + 1, i requires 0 <= i <= |was| => if i == 0 then was[0] else if i == 1 then newTask else was[i - 1]);
      OneTaskMore(was, tasks, newTask, blocks, readyQueue);
      blocks := blocks + {newTask};
      forall i | 0 <= i < |tasks|
        ensures tasks[i].next == if i + 1 < |tasks| then tasks[i + 1] else tasks[0]
      {
        if i > 1 {
          assert old(was[i - 1].next) == if i < |was| then was[i] else was[0];
        }
      }
    }

    /**
     * timer_handler_main. Returns the stack pointer the stub switches to: that of the next
     * task, or the interrupted one's own when the next one has none yet. All tasks share the
     * kernel's page directory, so the switch never leaves it.
     */
    method TimerHandler(currentEsp: word) returns (esp: word)
      requires Valid()
      modifies this, blocks
      ensures Valid() && tick == (old(tick) + 1) % WORD_LIMIT
      ensures blocks == old(blocks) && readyQueue == old(readyQueue)
      ensures old(current) == null ==> esp == NULL && tasks == [] && nextPid == old(nextPid) && cr3 == old(cr3)
      ensures old(current) != null ==>
                && View() == old(View()).Step(Tick(currentEsp))
                && esp == (if View().Current().esp == 0 then currentEsp else View().Current().esp)
                && cr3 == if View().Current().esp == 0 then old(cr3) else kernelDirectory
    {
      ghost var before := View();
      tick := (tick + 1) % WORD_LIMIT;
      assert Valid() && View() == before;
      if current == null {
        return NULL;
      }
      Rotate(currentEsp);
      if current.esp == 0 {
        return currentEsp;
      }
      ghost var v := View();
      cr3 := current.pageDire;
      assert View() == v;
      return current.esp;
    }

    /** Save the snapshot of the current task and move on to the next. */
    method Rotate(currentEsp: word)
      requires Valid() && current != null
      modifies `current, `tasks, blocks
      ensures Valid() && View() == old(View()).Step(Tick(currentEsp))
      ensures current != null && current.esp == View().Current().esp && current.pageDire == kernelDirectory
    {
      ghost var before, was := View(), tasks;
      before.StepValid(Tick(currentEsp));
      assert was[0].next == if 1 < |was| then was[1] else was[0];
      current.esp := currentEsp;
      current := current.next;
      tasks := seq(|was|, i requires 0 <= i < |was| => if i + 1 < |was| then was[i + 1] else was[0]);
      SameTasks(was, tasks, blocks, readyQueue);
      forall i | 0 <= i < |tasks|
        ensures View().ring[i] == before.Rotated(currentEsp).ring[i]
      {
        assert tasks[i] == was[if i + 1 < |was| then i + 1 else 0];
      }
      assert View() == before.Rotated(currentEsp);
    }
  }

  lemma OneTaskMore(was: seq<Task>, now: seq<Task>, t: Task, blocks: set<Task>, q: Task)
    requires |was| > 0 && |now| == |was| + 1 && Members(was, blocks) && q in was && t !in blocks
    requires forall i :: 0 <= i < |now| ==> now[i] == if i == 0 then was[0] else if i == 1 then t else was[i - 1]
    ensures Members(now, blocks + {t}) && q in now
  {
    assert now[1] == t;
    forall u | u in was
      ensures u in now
    {
      var k :| 0 <= k < |was| && was[k] == u;
      assert now[if k == 0 then 0 else k + 1] == u;
    }
  }

  lemma SameTasks(was: seq<Task>, now: seq<Task>, blocks: set<Task>, q: Task)
    requires |now| == |was| > 0 && Members(was, blocks) && q in was
    requires forall i :: 0 <= i < |was| ==> now[i] == if i + 1 < |was| then was[i + 1] else was[0]
    ensures Members(now, blocks) && q in now
  {
    forall t | t in was
      ensures t in now
    {
      var k :| 0 <= k < |was| && was[k] == t;
      assert now[if k == 0 then |was| - 1 else k - 1] == t;
    }
  }
}
