/** Whole runs of map_page and pmm_alloc_block calls against the flat page map. */
module PagingRuns {
  import opened Words
  import opened PageTables
  import opened Paging
  import Frames

  /** The directory entries that link a table. */
  ghost function Slots(m: seq<word>, dir: nat): set<nat>
    requires HasFrame(m, dir)
  {
    set d: nat | d < ENTRIES && Present(DirEntry(m, dir, d))
  }

  /**
   * Every table the calls need gets a frame below 4 MB, when `slots` are linked and the allocator is in state v.
   * Only the first call for a missing slot needs one, and every pmm_alloc_block takes a block away.
   */
  ghost predicate Served(slots: set<nat>, v: Frames.Frames, calls: seq<Call>)
    decreases |calls|
  {
    calls == [] ||
    match calls[0]
    case Take => Served(slots, v.Step(Frames.Take), calls[1..])
    case Map(va, _) =>
      var d := va / DIRECTORY_SPAN;
      if d in slots then Served(slots, v, calls[1..])
      else LowFrame(v) && Served(slots + {d}, v.Step(Frames.Take), calls[1..])
  }

  /** How many blocks the calls take. */
  ghost function Demand(slots: set<nat>, calls: seq<Call>): nat
    decreases |calls|
  {
    if calls == [] then 0
    else
      match calls[0]
      case Take => 1 + Demand(slots, calls[1..])
      case Map(va, _) =>
        var d := va / DIRECTORY_SPAN;
        if d in slots then Demand(slots, calls[1..]) else 1 + Demand(slots + {d}, calls[1..])
  }

  /** As many free low blocks as the calls take are enough; a run within linked tables needs none. */
  lemma {:induction false} SupplySuffices(slots: set<nat>, v: Frames.Frames, calls: seq<Call>)
    requires LowSupply(v, Demand(slots, calls))
    ensures Served(slots, v, calls)
    decreases |calls|
  {
    if calls != [] {
      match calls[0]
      case Take => SupplySuffices(slots, v.Step(Frames.Take), calls[1..]);
      case Map(va, _) =>
        var d := va / DIRECTORY_SPAN;
        if d in slots {
          SupplySuffices(slots, v, calls[1..]);
        } else {
          SupplySuffices(slots + {d}, v.Step(Frames.Take), calls[1..]);
        }
    }
  }

  /** The call leaves the identity of the first 4 MB alone. */
  predicate KeepsLow(c: Call)
  {
    c.Map? ==> c.va / FRAME >= LOW || c.va / FRAME == c.pa / FRAME
  }

  /** After the first n calls: the tables stand for the flat map updated call by call, and the rest can be served. */
  ghost predicate Ready(vmm: Vmm, flat: map<nat, Mapping>, calls: seq<Call>, n: nat)
    reads vmm, vmm.pmm, vmm.pmm.bitmap, vmm.mem
  {
    && vmm.Valid() && vmm.Reachable() && n <= |calls|
    && PageMap(vmm.mem[..], vmm.Dir()) == Updated(flat, calls, n)
    && Served(Slots(vmm.mem[..], vmm.Dir()), vmm.pmm.View(), calls[n..])
  }

  /** Mapping a page links its slot and no other. */
  lemma SlotLinked(m: seq<word>, m': seq<word>, dir: nat, d: nat, p: nat, frame: nat)
    requires p < PAGES && d < ENTRIES && Mapped(m, m', dir, d, p, frame)
    ensures Slots(m', dir) == Slots(m, dir) + {d}
  {
    forall k: nat | k < ENTRIES
      ensures k in Slots(m', dir) <==> k in Slots(m, dir) + {d}
    {
      assert k != d ==> DirEntry(m', dir, k) == DirEntry(m, dir, k);
    }
  }

  /** The next call is map_page. */
  method MapNext(vmm: Vmm, va: word, pa: word, ghost flat: map<nat, Mapping>, ghost calls: seq<Call>, ghost n: nat)
    requires n < |calls| && calls[n] == Map(va, pa) && KeepsLow(calls[n]) && Ready(vmm, flat, calls, n)
    modifies vmm.mem, vmm.pmm, vmm.pmm.bitmap
    ensures Ready(vmm, flat, calls, n + 1)
  {
    ghost var m, v, d := vmm.mem[..], vmm.pmm.View(), va / DIRECTORY_SPAN;
    assert calls[n..][1..] == calls[n + 1..];
    Indices(va);
    assert Present(DirEntry(m, vmm.Dir(), d)) <==> d in Slots(m, vmm.Dir());
    var end := vmm.MapPage(va, pa);
    IdentityKept(m, vmm.mem[..], vmm.Dir(), va / FRAME, pa / FRAME);
    FlatUpdate(m, vmm.mem[..], vmm.Dir(), va / FRAME, pa / FRAME);
    SlotLinked(m, vmm.mem[..], vmm.Dir(), d, va / FRAME, pa / FRAME);
    assert d in Slots(m, vmm.Dir()) ==> Slots(m, vmm.Dir()) + {d} == Slots(m, vmm.Dir());
  }

  /** The next call is pmm_alloc_block. */
  method TakeNext(vmm: Vmm, ghost flat: map<nat, Mapping>, ghost calls: seq<Call>, ghost n: nat) returns (block: word)
    requires n < |calls| && calls[n] == Take && Ready(vmm, flat, calls, n)
    modifies vmm.pmm, vmm.pmm.bitmap
    ensures Ready(vmm, flat, calls, n + 1) && block == FrameAddress(old(vmm.pmm.View()))
  {
    assert calls[n..][1..] == calls[n + 1..];
    block := vmm.TakeFrame();
  }

  /**
   * Any sequence of map_page and pmm_alloc_block calls whose tables can be served, and which leaves the identity of the
   * first 4 MB alone, updates the flat page map call by call and keeps the tables intact throughout.
   */
  method RunCalls(vmm: Vmm, calls: seq<Call>)
    requires vmm.Valid() && vmm.Reachable()
    requires Served(Slots(vmm.mem[..], vmm.Dir()), vmm.pmm.View(), calls)
    requires forall i :: 0 <= i < |calls| ==> KeepsLow(calls[i])
    modifies vmm.mem, vmm.pmm, vmm.pmm.bitmap
    ensures vmm.Valid() && vmm.Reachable()
    ensures PageMap(vmm.mem[..], vmm.Dir()) == Updated(PageMap(old(vmm.mem[..]), vmm.Dir()), calls, |calls|)
  {
    ghost var flat := PageMap(vmm.mem[..], vmm.Dir());
    assert calls[0..] == calls;
    for i := 0 to |calls|
      invariant Ready(vmm, flat, calls, i)
    {
      match calls[i]
      case Map(va, pa) => MapNext(vmm, va, pa, flat, calls, i);
      case Take => var _ := TakeNext(vmm, flat, calls, i);
    }
  }
}
