/** Whole runs of the frame allocator, over the set of used blocks and the cached counter. */
module Frames {
  import opened Words

  const BLOCK_SIZE := 4096

  datatype Call = Release(address: word) | Take | Lock(address: word)

  /** total and limit are fixed by pmm_init; used and counter change. */
  datatype Frames = Frames(total: nat, limit: nat, used: set<nat>, counter: int) {
    /** Least block below limit that is not used; limit when there is none. */
    function NextFree(from: nat := 0): (b: nat)
      requires from <= limit
      ensures from <= b <= limit && (b < limit ==> b !in used)
      ensures forall c :: from <= c < b ==> c in used
      decreases limit - from
    {
      if from == limit || from !in used then from else NextFree(from + 1)
    }

    lemma {:induction false} NextFreeIs(from: nat, b: nat)
      requires from <= b <= limit
      requires forall c :: from <= c < b ==> c in used
      requires b < limit ==> b !in used
      ensures NextFree(from) == b
      decreases b - from
    {
      if from < b {
        NextFreeIs(from + 1, b);
      }
    }

    /** The next allocation returns a later block. */
    lemma TakeAdvances()
      requires NextFree() < limit
      ensures Step(Take).NextFree() > NextFree()
    {
      var next := Step(Take);
      assert next.limit == limit && next.used == used + {NextFree()};
    }

    function Step(call: Call): Frames
    {
      match call
      case Release(a) =>
        var b := a / BLOCK_SIZE;
        if b < total && b in used then this.(used := used - {b}, counter := counter - 1) else this
      case Take =>
        if NextFree() < limit then this.(used := used + {NextFree()}, counter := counter + 1) else this
      case Lock(a) =>
        var b := a / BLOCK_SIZE;
        this.(used := if b < total then used + {b} else used, counter := counter + 1)
    }

    /** A lock of a block that is already used, or that does not exist. */
    predicate DoubleLock(call: Call)
    {
      call.Lock? && (call.address / BLOCK_SIZE in used || total <= call.address / BLOCK_SIZE)
    }
  }

  ghost predicate Releases(call: Call, b: nat)
  {
    call.Release? && call.address / BLOCK_SIZE == b
  }

  /** The state before call i of the run. */
  function At(s: Frames, calls: seq<Call>, i: nat): Frames
    requires i <= |calls|
  {
    if i == 0 then s else At(s, calls, i - 1).Step(calls[i - 1])
  }

  /** The block handed out by call i; limit when the allocator is exhausted. */
  function TakenBy(s: Frames, calls: seq<Call>, i: nat): nat
    requires i < |calls| && calls[i].Take?
  {
    At(s, calls, i).NextFree()
  }

  lemma {:induction false} HeldUntilReleased(s: Frames, calls: seq<Call>, i: nat, j: nat, b: nat)
    requires i <= j <= |calls| && b in At(s, calls, i).used
    requires forall k :: i <= k < j ==> !Releases(calls[k], b)
    ensures b in At(s, calls, j).used
  {
    if i < j {
      HeldUntilReleased(s, calls, i, j - 1, b);
    }
  }

  /** total and limit never change. */
  lemma {:induction false} SameBounds(s: Frames, calls: seq<Call>, i: nat)
    requires i <= |calls|
    ensures At(s, calls, i).limit == s.limit && At(s, calls, i).total == s.total
  {
    if i > 0 {
      SameBounds(s, calls, i - 1);
    }
  }

  /** In any run two allocations return the same block only if it was freed in between. */
  lemma ReissuedOnlyAfterRelease(s: Frames, calls: seq<Call>, i: nat, j: nat)
    requires i < j < |calls| && calls[i].Take? && calls[j].Take?
    requires TakenBy(s, calls, i) == TakenBy(s, calls, j) < s.limit
    ensures exists k :: i < k < j && Releases(calls[k], TakenBy(s, calls, i))
  {
    var b := TakenBy(s, calls, i);
    SameBounds(s, calls, i);
    SameBounds(s, calls, j);
    assert b in At(s, calls, i + 1).used;
    if forall k :: i + 1 <= k < j ==> !Releases(calls[k], b) {
      HeldUntilReleased(s, calls, i + 1, j, b);
    }
  }

  /** A locked block is not handed out until it is freed: block 0 stays reserved after boot. */
  lemma LockedNeverIssued(s: Frames, calls: seq<Call>, i: nat, j: nat)
    requires i < j < |calls| && calls[i].Lock? && calls[j].Take? && s.limit <= s.total
    requires forall k :: i < k < j ==> !Releases(calls[k], calls[i].address / BLOCK_SIZE)
    requires TakenBy(s, calls, j) < s.limit
    ensures TakenBy(s, calls, j) != calls[i].address / BLOCK_SIZE
  {
    SameBounds(s, calls, i);
    SameBounds(s, calls, j);
    if calls[i].address / BLOCK_SIZE < s.total {
      HeldUntilReleased(s, calls, i + 1, j, calls[i].address / BLOCK_SIZE);
    }
  }

  /** Freeing what was just allocated restores the used blocks and the counter. */
  lemma TakeThenRelease(s: Frames, address: word)
    requires s.limit <= s.total && s.NextFree() < s.limit && address == s.NextFree() * BLOCK_SIZE
    ensures s.Step(Take).Step(Release(address)) == s
  {
    var b := s.NextFree();
    assert address / BLOCK_SIZE == b;
    assert s.used + {b} - {b} == s.used;
  }

  function DoubleLocks(s: Frames, calls: seq<Call>, i: nat): nat
    requires i <= |calls|
  {
    if i == 0 then 0
    else DoubleLocks(s, calls, i - 1) + if At(s, calls, i - 1).DoubleLock(calls[i - 1]) then 1 else 0
  }

  lemma StepCount(s: Frames, call: Call)
    ensures var t := s.Step(call);
      t.counter - |t.used| == s.counter - |s.used| + if s.DoubleLock(call) then 1 else 0
  {
    match call
    case Release(a) =>
    case Take =>
    case Lock(a) =>
      if a / BLOCK_SIZE in s.used {
        assert s.used + {a / BLOCK_SIZE} == s.used;
      }
  }

  /**
   * The cached counter runs ahead of the number of used blocks by exactly the number of
   * locks that hit a used block.
   */
  lemma {:induction false} CounterLaw(s: Frames, calls: seq<Call>, i: nat)
    requires i <= |calls|
    ensures At(s, calls, i).counter - |At(s, calls, i).used| == s.counter - |s.used| + DoubleLocks(s, calls, i)
  {
    if i > 0 {
      CounterLaw(s, calls, i - 1);
      StepCount(At(s, calls, i - 1), calls[i - 1]);
    }
  }

  /** Hence over a run that starts consistent: the counter is right exactly when no lock hit a used block. */
  lemma CounterExact(s: Frames, calls: seq<Call>)
    requires s.counter == |s.used|
    ensures At(s, calls, |calls|).counter == |At(s, calls, |calls|).used| <==> DoubleLocks(s, calls, |calls|) == 0
  {
    CounterLaw(s, calls, |calls|);
  }

  /** Locking a used block is all it takes to put the counter wrong. */
  lemma DoubleLockDrifts()
    ensures var s, calls := Frames(32, 32, {0}, 1), [Lock(0)];
      && s.counter == |s.used|
      && At(s, calls, 1) == Frames(32, 32, {0}, 2)
      && DoubleLocks(s, calls, 1) == 1
  {
    var s := Frames(32, 32, {0}, 1);
    assert At(s, [Lock(0)], 0) == s && DoubleLocks(s, [Lock(0)], 0) == 0;
    assert {0} + {0} == {0};
  }
}
