/**
 * Whole runs over the bytes of the heap page: kmalloc and kfree calls interleaved with
 * clients writing into the ranges they hold.
 */
module HeapRuns {
  import opened Words
  import opened HeapList
  import opened HeapShape
  import opened HeapBytes
  import L = HeapLaws

  datatype State = State(bs: Blocks, m: seq<byte>)

  /** Release and Write name a block by its position; Write is its holder storing anything into the range it was given. */
  datatype Action = Allocate(n: word) | Release(i: nat) | Write(i: nat)

  /** Offset k belongs to the range handed out as block b. */
  predicate InUser(b: Block, k: nat) { b.User() <= BASE + k < b.End() }

  /** The headers in memory describe the list, and no range handed out meets a header or another range. */
  ghost predicate Safe(s: State)
  {
    Layout(s.m, s.bs) && Clean(s.bs) && Coalesced(s.bs) && NoHoles(s.bs)
  }

  /**
   * One action, as long as the headers describe the list; after that anything may happen. For kmalloc these
   * are the stores it makes, whether or not they overlap other headers, unless they leave the page. That is
   * what KernelHeap's methods ensure.
   */
  ghost predicate Next(s: State, a: Action, t: State, charge: nat)
  {
    |s.m| == |t.m| == PAGE && (Layout(s.m, s.bs) ==> Effect(s, a, t, charge))
  }

  ghost predicate Effect(s: State, a: Action, t: State, charge: nat)
    requires Layout(s.m, s.bs) && |t.m| == PAGE
  {
    match a
    case Allocate(n) =>
      var i := FirstFit(s.bs, n);
      && t.bs == Malloc(s.bs, n, charge)
      && if i == |s.bs| then t.m == s.m
         else HeaderInside(s.bs, n, charge) ==> TakenBytes(s.m, t.m, s.bs[i].addr, n, charge)
    case Release(i) =>
      && i < |s.bs| && !s.bs[i].free
      && t.bs == Free(s.bs, i) && Layout(t.m, t.bs)
      && forall k :: 0 <= k < PAGE && t.m[k] != s.m[k] ==> InHeader(s.bs, k)
    case Write(i) =>
      && i < |s.bs| && !s.bs[i].free
      && t.bs == s.bs
      && forall k :: 0 <= k < PAGE && t.m[k] != s.m[k] ==> InUser(s.bs[i], k)
  }

  /** A kmalloc that may be granted: see HeapShape.Grantable. */
  ghost predicate Granted(s: State, a: Action, charge: nat)
  {
    a.Allocate? ==> Grantable(s.bs, a.n, charge)
  }

  /** The block the action is aimed at, if it frees or writes one. */
  ghost predicate Touches(s: State, a: Action, b: Block)
  {
    !a.Allocate? && a.i < |s.bs| && s.bs[a.i] == b
  }

  ghost predicate Trace(states: seq<State>, actions: seq<Action>, charge: nat)
  {
    && |states| == |actions| + 1
    && L.ChargeOk(charge)
    && Safe(states[0])
    && forall j {:trigger StepAt(states, actions, charge, j)} :: 0 <= j < |actions| ==> StepAt(states, actions, charge, j)
  }

  ghost predicate StepAt(states: seq<State>, actions: seq<Action>, charge: nat, j: nat)
    requires |states| == |actions| + 1 && j < |actions|
  {
    Next(states[j], actions[j], states[j + 1], charge)
  }

  ghost predicate AllGranted(states: seq<State>, actions: seq<Action>, charge: nat)
    requires |states| == |actions| + 1
  {
    forall j :: 0 <= j < |actions| ==> Granted(states[j], actions[j], charge)
  }

  lemma NextSafe(s: State, a: Action, t: State, charge: nat)
    requires L.ChargeOk(charge) && Safe(s) && Next(s, a, t, charge)
    ensures Safe(t) <==> Granted(s, a, charge)
  {
    match a
    case Allocate(n) => AllocateSafe(s, n, t, charge);
    case Release(i) =>
      FreeSeparated(s.bs, i);
      FreeShape(s.bs, i);
      FreeCoalesced(s.bs, i);
    case Write(i) =>
      UserWriteLayout(s.m, t.m, s.bs, s.bs[i]);
  }

  lemma AllocateSafe(s: State, n: word, t: State, charge: nat)
    requires L.ChargeOk(charge) && Safe(s) && Next(s, Allocate(n), t, charge)
    ensures Safe(t) <==> Grantable(s.bs, n, charge)
  {
    var i := FirstFit(s.bs, n);
    if i < |s.bs| {
      TakeSafeExactly(s.bs, i, n, charge);
      if Grantable(s.bs, n, charge) {
        EdgeBounds(s.bs, i);
        assert HeaderAt(s.m, s.bs[i], NextAddr(s.bs, i));
        SeparatedDisjoint(t.bs);
        TakeLayout(s.m, t.m, s.bs, i, n, charge);
        TakeCoalesced(s.bs, i, n, charge);
        TakeNoHoles(s.bs, i, n, charge);
      }
    }
  }

  /** While every kmalloc may be granted, all states are safe. */
  lemma {:induction false} GrantedSafe(states: seq<State>, actions: seq<Action>, charge: nat, j: nat)
    requires Trace(states, actions, charge) && AllGranted(states, actions, charge) && j < |states|
    ensures Safe(states[j])
  {
    if j > 0 {
      GrantedSafe(states, actions, charge, j - 1);
      assert StepAt(states, actions, charge, j - 1);
      NextSafe(states[j - 1], actions[j - 1], states[j], charge);
    }
  }

  /**
   * Over every run of calls and client writes that starts safe, whatever its calls overwrite: all states
   * are safe exactly when every kmalloc found room before the next header for the header it forged, or a
   * whole block ending before it.
   */
  lemma AlwaysSafe(states: seq<State>, actions: seq<Action>, charge: nat)
    requires Trace(states, actions, charge)
    ensures (forall j :: 0 <= j < |states| ==> Safe(states[j])) <==> AllGranted(states, actions, charge)
  {
    if AllGranted(states, actions, charge) {
      forall j | 0 <= j < |states|
        ensures Safe(states[j])
      {
        GrantedSafe(states, actions, charge, j);
      }
    } else {
      var j :| 0 <= j < |actions| && !Granted(states[j], actions[j], charge);
      assert StepAt(states, actions, charge, j);
      if Safe(states[j]) {
        NextSafe(states[j], actions[j], states[j + 1], charge);
      }
    }
  }

  /** With splits charged for their header every run from an exact layout is safe: all its states are exact. */
  lemma {:induction false} ChargedSafe(states: seq<State>, actions: seq<Action>, j: nat)
    requires Trace(states, actions, HEADER) && Tiled(states[0].bs) && j < |states|
    ensures Tiled(states[j].bs) && Safe(states[j])
  {
    if j > 0 {
      ChargedSafe(states, actions, j - 1);
      var s, a := states[j - 1], actions[j - 1];
      assert StepAt(states, actions, HEADER, j - 1);
      match a {
        case Allocate(n) =>
          ChargedGrantable(s.bs, n);
          if FirstFit(s.bs, n) < |s.bs| {
            TakeTiled(s.bs, FirstFit(s.bs, n), n, HEADER);
          }
        case Release(i) => FreeTiled(s.bs, i);
        case Write(_) =>
      }
      NextSafe(s, a, states[j], HEADER);
    }
  }

  /** Block b is still allocated in t, with the bytes it had in s. */
  ghost predicate Kept(s: State, t: State, b: Block)
  {
    && |s.m| == |t.m| == PAGE
    && b in t.bs
    && forall k {:trigger t.m[k]} :: 0 <= k < PAGE && InUser(b, k) ==> t.m[k] == s.m[k]
  }

  lemma KeptTwice(s: State, t: State, u: State, b: Block)
    requires Kept(s, t, b) && Kept(t, u, b)
    ensures Kept(s, u, b)
  {
    forall k | 0 <= k < PAGE && InUser(b, k)
      ensures u.m[k] == s.m[k]
    {
      assert t.m[k] == s.m[k];
    }
  }

  lemma AllocateWrites(s: State, n: word, t: State, charge: nat)
    requires Safe(s) && Next(s, Allocate(n), t, charge) && Grantable(s.bs, n, charge) && FirstFit(s.bs, n) < |s.bs|
    ensures forall k :: 0 <= k < PAGE && t.m[k] != s.m[k] ==> InHeader(t.bs, k)
  {
    var i := FirstFit(s.bs, n);
    EdgeBounds(s.bs, i);
    assert HeaderAt(s.m, s.bs[i], NextAddr(s.bs, i));
    TakeWrites(s.m, t.m, s.bs, i, n, charge);
  }

  /** An action aimed elsewhere leaves an allocated block allocated and its bytes alone. */
  lemma NextKeeps(s: State, a: Action, t: State, charge: nat, b: Block)
    requires Safe(s) && Next(s, a, t, charge) && Granted(s, a, charge) && b in s.bs && !b.free && !Touches(s, a, b)
    ensures Kept(s, t, b)
  {
    var x :| 0 <= x < |s.bs| && s.bs[x] == b;
    match a
    case Allocate(n) =>
      MallocKeeps(s.bs, n, charge, x);
      if FirstFit(s.bs, n) < |s.bs| {
        AllocateWrites(s, n, t, charge);
        TakeSafeExactly(s.bs, FirstFit(s.bs, n), n, charge);
        MallocLiveKept(s.bs, n, charge, s.m, t.m);
      }
    case Release(i) =>
      FreeKeeps(s.bs, i, x);
      FreeLiveKept(s.bs, t.bs, s.m, t.m);
    case Write(i) =>
      BlocksDisjoint(s.bs, x, i);
  }

  /**
   * Over every run in which each kmalloc may be granted: from any moment on, a range handed out stays
   * allocated with the same bytes until its own holder writes it or frees it, whatever is allocated,
   * freed and written in between.
   */
  lemma {:induction false} HeldBytesKept(states: seq<State>, actions: seq<Action>, charge: nat, j: nat, k: nat, b: Block)
    requires Trace(states, actions, charge) && AllGranted(states, actions, charge) && j <= k < |states|
    requires b in states[j].bs && !b.free
    requires forall x :: j <= x < k ==> !Touches(states[x], actions[x], b)
    ensures Kept(states[j], states[k], b)
    ensures b in states[k].bs && |states[j].m| == |states[k].m| == PAGE
    ensures forall x :: 0 <= x < PAGE && b.User() <= BASE + x < b.End() ==> states[k].m[x] == states[j].m[x]
  {
    if j < k {
      HeldBytesKept(states, actions, charge, j, k - 1, b);
      GrantedSafe(states, actions, charge, k - 1);
      assert StepAt(states, actions, charge, k - 1);
      NextKeeps(states[k - 1], actions[k - 1], states[k], charge, b);
      KeptTwice(states[j], states[k - 1], states[k], b);
    } else {
      GrantedSafe(states, actions, charge, j);
    }
  }
}
