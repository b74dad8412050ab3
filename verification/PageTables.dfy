/**
 * Two-level address translation over physical memory, as the processor performs it
 * (32-bit paging, section 4.3 of the Intel SDM, volume 3A). Physical memory is a
 * sequence of 32-bit words; frame f holds words 1024 f to 1024 f + 1023.
 */
module PageTables {
  import opened Words

  const ENTRIES := 1024
  const PAGES := 0x10_0000
  const FRAME := 4096
  const LOW := 1024       // pages and frames of the first 4 MB
  const EMPTY: word := 2  // not present, writable
  const USER_RW := 7      // present, writable, user

  datatype Mapping = Mapping(frame: nat, writable: bool, user: bool)

  predicate Present(e: word) { e % 2 == 1 }

  /** e | 7. */
  function WithFlags(e: word): word { e - e % 8 + USER_RW }

  /** e & ~0xFFF, as a frame number. */
  function FrameOf(e: word): nat { e / FRAME }

  /** Word i of frame f. */
  function Slot(f: nat, i: nat): nat { f * ENTRIES + i }

  predicate HasFrame(m: seq<word>, f: nat) { (f + 1) * ENTRIES <= |m| }

  function DirEntry(m: seq<word>, dir: nat, d: nat): word
    requires HasFrame(m, dir) && d < ENTRIES
  {
    m[Slot(dir, d)]
  }

  /** What the processor finds for page p when CR3 names frame dir. */
  function Walk(m: seq<word>, dir: nat, p: nat): Option<Mapping>
    requires HasFrame(m, dir) && p < PAGES
  {
    var de := DirEntry(m, dir, p / ENTRIES);
    if !Present(de) || !HasFrame(m, FrameOf(de)) then None
    else
      var te := m[Slot(FrameOf(de), p % ENTRIES)];
      if !Present(te) then None
      else Some(Mapping(FrameOf(te), de / 2 % 2 == 1 && te / 2 % 2 == 1, de / 4 % 2 == 1 && te / 4 % 2 == 1))
  }

  /** The flat page map a directory stands for. */
  ghost function PageMap(m: seq<word>, dir: nat): map<nat, Mapping>
    requires HasFrame(m, dir)
  {
    map p: nat | 0 <= p < PAGES && Walk(m, dir, p).Some? :: Walk(m, dir, p).value
  }

  /** Every table is a used frame of its own, different from the directory, linked with flags 7. */
  ghost predicate WellLinked(m: seq<word>, dir: nat, used: set<nat>)
  {
    && HasFrame(m, dir)
    && dir in used
    && (forall f :: f in used ==> HasFrame(m, f))
    && (forall d {:trigger DirEntry(m, dir, d)} :: 0 <= d < ENTRIES && Present(DirEntry(m, dir, d)) ==>
          IsTable(m, dir, d, used))
    && (forall d, d' {:trigger OwnTables(m, dir, d, d')} :: 0 <= d < ENTRIES && 0 <= d' < ENTRIES && d != d' ==> OwnTables(m, dir, d, d'))
  }

  /** Entries d and d' do not share a table. */
  ghost predicate OwnTables(m: seq<word>, dir: nat, d: nat, d': nat)
    requires HasFrame(m, dir) && d < ENTRIES && d' < ENTRIES
  {
    Present(DirEntry(m, dir, d)) && Present(DirEntry(m, dir, d')) ==> FrameOf(DirEntry(m, dir, d)) != FrameOf(DirEntry(m, dir, d'))
  }

  ghost predicate IsTable(m: seq<word>, dir: nat, d: nat, used: set<nat>)
    requires HasFrame(m, dir) && d < ENTRIES
  {
    var de := DirEntry(m, dir, d);
    FrameOf(de) in used && FrameOf(de) != dir && de % 8 == USER_RW
  }

  /** Allocating further frames keeps the structure. */
  lemma StillLinked(m: seq<word>, dir: nat, used: set<nat>, more: set<nat>)
    requires WellLinked(m, dir, used) && forall f :: f in more ==> HasFrame(m, f)
    ensures WellLinked(m, dir, used + more)
  {
    forall d | 0 <= d < ENTRIES && Present(DirEntry(m, dir, d))
      ensures IsTable(m, dir, d, used + more)
    {
      assert IsTable(m, dir, d, used);
    }
  }

  /** The directory and its tables lie in the first 4 MB. */
  ghost predicate LowTables(m: seq<word>, dir: nat)
  {
    && HasFrame(m, dir)
    && dir < LOW
    && forall d {:trigger DirEntry(m, dir, d)} :: 0 <= d < ENTRIES && Present(DirEntry(m, dir, d)) ==> FrameOf(DirEntry(m, dir, d)) < LOW
  }

  /** The first 4 MB are mapped to themselves. */
  ghost predicate LowIdentity(m: seq<word>, dir: nat)
  {
    HasFrame(m, dir) && forall p {:trigger Walk(m, dir, p)} :: 0 <= p < LOW ==> Walk(m, dir, p) == Some(Mapping(p, true, true))
  }

  /** A walk reads two words. */
  lemma WalkSame(m: seq<word>, m': seq<word>, dir: nat, p: nat)
    requires |m| == |m'| && HasFrame(m, dir) && p < PAGES
    requires var de := DirEntry(m, dir, p / ENTRIES);
      && DirEntry(m', dir, p / ENTRIES) == de
      && (Present(de) && HasFrame(m, FrameOf(de)) ==> m'[Slot(FrameOf(de), p % ENTRIES)] == m[Slot(FrameOf(de), p % ENTRIES)])
    ensures Walk(m', dir, p) == Walk(m, dir, p)
  {
  }

  // ----- the three kinds of store map_page makes -----

  /** Frame t filled with empty entries up to word n. */
  ghost predicate Cleared(m: seq<word>, m': seq<word>, t: nat, n: nat)
    requires HasFrame(m, t) && n <= ENTRIES
  {
    && |m'| == |m|
    && forall k :: 0 <= k < |m| ==> m'[k] == if Slot(t, 0) <= k < Slot(t, n) then EMPTY else m[k]
  }

  /** Frame g is neither the directory nor a table linked in it. */
  ghost predicate DataFrame(m: seq<word>, dir: nat, g: nat)
  {
    && HasFrame(m, dir) && HasFrame(m, g) && g != dir
    && forall d {:trigger DirEntry(m, dir, d)} :: 0 <= d < ENTRIES && Present(DirEntry(m, dir, d)) ==> FrameOf(DirEntry(m, dir, d)) != g
  }

  lemma UnusedData(m: seq<word>, dir: nat, used: set<nat>, t: nat)
    requires WellLinked(m, dir, used) && HasFrame(m, t) && t !in used
    ensures DataFrame(m, dir, t)
  {
    forall d | 0 <= d < ENTRIES && Present(DirEntry(m, dir, d))
      ensures FrameOf(DirEntry(m, dir, d)) != t
    {
      assert IsTable(m, dir, d, used);
    }
  }

  /** Filling a frame that is neither the directory nor a table changes no translation. */
  lemma ClearedSame(m: seq<word>, m': seq<word>, dir: nat, used: set<nat>, t: nat, n: nat)
    requires WellLinked(m, dir, used) && DataFrame(m, dir, t) && n <= ENTRIES
    requires Cleared(m, m', t, n)
    ensures WellLinked(m', dir, used)
    ensures forall d :: 0 <= d < ENTRIES ==> DirEntry(m', dir, d) == DirEntry(m, dir, d)
    ensures forall p :: 0 <= p < PAGES ==> Walk(m', dir, p) == Walk(m, dir, p)
  {
    forall d | 0 <= d < ENTRIES
      ensures DirEntry(m', dir, d) == DirEntry(m, dir, d)
    {
      SlotsApart(dir, d, t, n);
    }
    forall p | 0 <= p < PAGES
      ensures Walk(m', dir, p) == Walk(m, dir, p)
    {
      var de := DirEntry(m, dir, p / ENTRIES);
      if Present(de) {
        assert IsTable(m, dir, p / ENTRIES, used);
        SlotsApart(FrameOf(de), p % ENTRIES, t, n);
      }
      WalkSame(m, m', dir, p);
    }
    SameDirectory(m, m', dir, used);
  }

  lemma SameOwnTables(m: seq<word>, m': seq<word>, dir: nat, used: set<nat>)
    requires WellLinked(m, dir, used) && |m'| == |m|
    requires forall d :: 0 <= d < ENTRIES ==> DirEntry(m', dir, d) == DirEntry(m, dir, d)
    ensures forall d, d' {:trigger OwnTables(m', dir, d, d')} ::
              0 <= d < ENTRIES && 0 <= d' < ENTRIES && d != d' ==> OwnTables(m', dir, d, d')
  {
    forall d, d' | 0 <= d < ENTRIES && 0 <= d' < ENTRIES && d != d'
      ensures OwnTables(m', dir, d, d')
    {
      assert OwnTables(m, dir, d, d');
    }
  }

  lemma SlotsApart(f: nat, i: nat, t: nat, n: nat)
    requires f != t && i < ENTRIES && n <= ENTRIES
    ensures Slot(f, i) < Slot(t, 0) || Slot(t, n) <= Slot(f, i)
  {
  }

  /** Linking frame t into an absent slot keeps the table structure, whatever t holds. */
  lemma LinkedAnyway(m: seq<word>, m': seq<word>, dir: nat, used: set<nat>, d: nat, t: nat)
    requires WellLinked(m, dir, used) && HasFrame(m, t) && t !in used && d < ENTRIES
    requires !Present(DirEntry(m, dir, d)) && t * FRAME + USER_RW < WORD_LIMIT
    requires m' == m[Slot(dir, d) := t * FRAME + USER_RW]
    ensures WellLinked(m', dir, used + {t})
    ensures forall p :: 0 <= p < PAGES && p / ENTRIES != d ==> Walk(m', dir, p) == Walk(m, dir, p)
    ensures forall k :: 0 <= k < ENTRIES ==> DirEntry(m', dir, k) == if k == d then t * FRAME + USER_RW else DirEntry(m, dir, k)
  {
    EntryBits(t);
    forall p | 0 <= p < PAGES && p / ENTRIES != d
      ensures Walk(m', dir, p) == Walk(m, dir, p)
    {
      var de := DirEntry(m, dir, p / ENTRIES);
      if Present(de) {
        assert IsTable(m, dir, p / ENTRIES, used);
        SlotsApart(FrameOf(de), p % ENTRIES, dir, ENTRIES);
      }
      WalkSame(m, m', dir, p);
    }
    forall k | 0 <= k < ENTRIES && Present(DirEntry(m', dir, k))
      ensures IsTable(m', dir, k, used + {t})
    {
      if k != d {
        assert IsTable(m, dir, k, used);
      }
    }
    forall k, k' | 0 <= k < ENTRIES && 0 <= k' < ENTRIES && k != k'
      ensures OwnTables(m', dir, k, k')
    {
      assert OwnTables(m, dir, k, k');
      assert k != d && Present(DirEntry(m, dir, k)) ==> IsTable(m, dir, k, used);
      assert k' != d && Present(DirEntry(m, dir, k')) ==> IsTable(m, dir, k', used);
    }
  }

  /** Linking an empty table into an absent directory slot maps nothing new. */
  lemma LinkedSame(m: seq<word>, m': seq<word>, dir: nat, used: set<nat>, d: nat, t: nat)
    requires WellLinked(m, dir, used) && HasFrame(m, t) && t !in used && d < ENTRIES
    requires !Present(DirEntry(m, dir, d)) && t * FRAME + USER_RW < WORD_LIMIT
    requires forall i :: 0 <= i < ENTRIES ==> m[Slot(t, i)] == EMPTY
    requires m' == m[Slot(dir, d) := t * FRAME + USER_RW]
    ensures WellLinked(m', dir, used + {t})
    ensures forall k :: 0 <= k < ENTRIES ==> DirEntry(m', dir, k) == if k == d then t * FRAME + USER_RW else DirEntry(m, dir, k)
    ensures forall p :: 0 <= p < PAGES ==> Walk(m', dir, p) == Walk(m, dir, p)
  {
    LinkedAnyway(m, m', dir, used, d, t);
    EntryBits(t);
    forall p | 0 <= p < PAGES && p / ENTRIES == d
      ensures Walk(m', dir, p) == Walk(m, dir, p)
    {
      SlotsApart(t, p % ENTRIES, dir, ENTRIES);
      assert m'[Slot(t, p % ENTRIES)] == EMPTY;
    }
  }

  /** The entries of different pages are different words. */
  lemma OtherPage(m: seq<word>, dir: nat, used: set<nat>, p: nat, q: nat)
    requires WellLinked(m, dir, used) && p < PAGES && q < PAGES && p != q
    requires Present(DirEntry(m, dir, p / ENTRIES)) && Present(DirEntry(m, dir, q / ENTRIES))
    ensures Slot(FrameOf(DirEntry(m, dir, q / ENTRIES)), q % ENTRIES) != Slot(FrameOf(DirEntry(m, dir, p / ENTRIES)), p % ENTRIES)
  {
    if q / ENTRIES != p / ENTRIES {
      assert OwnTables(m, dir, q / ENTRIES, p / ENTRIES);
    }
  }

  /** The directory is untouched by a write into a table. */
  lemma EntryKeepsDirectory(m: seq<word>, m': seq<word>, dir: nat, used: set<nat>, p: nat, w: word)
    requires WellLinked(m, dir, used) && p < PAGES && Present(DirEntry(m, dir, p / ENTRIES))
    requires m' == m[Slot(FrameOf(DirEntry(m, dir, p / ENTRIES)), p % ENTRIES) := w]
    ensures forall k :: 0 <= k < ENTRIES ==> DirEntry(m', dir, k) == DirEntry(m, dir, k)
  {
    assert IsTable(m, dir, p / ENTRIES, used);
    forall k | 0 <= k < ENTRIES
      ensures DirEntry(m', dir, k) == DirEntry(m, dir, k)
    {
      SlotsApart(dir, k, FrameOf(DirEntry(m, dir, p / ENTRIES)), ENTRIES);
    }
  }

  /** The translation of any other page is untouched. */
  lemma EntryKeepsWalk(m: seq<word>, m': seq<word>, dir: nat, used: set<nat>, p: nat, w: word, q: nat)
    requires WellLinked(m, dir, used) && p < PAGES && Present(DirEntry(m, dir, p / ENTRIES)) && q < PAGES && q != p
    requires m' == m[Slot(FrameOf(DirEntry(m, dir, p / ENTRIES)), p % ENTRIES) := w]
    requires DirEntry(m', dir, q / ENTRIES) == DirEntry(m, dir, q / ENTRIES)
    ensures Walk(m', dir, q) == Walk(m, dir, q)
  {
    if Present(DirEntry(m, dir, q / ENTRIES)) {
      OtherPage(m, dir, used, p, q);
    }
    WalkSame(m, m', dir, q);
  }

  /** The table structure depends on the directory only. */
  lemma SameDirectory(m: seq<word>, m': seq<word>, dir: nat, used: set<nat>)
    requires WellLinked(m, dir, used) && |m'| == |m|
    requires forall k :: 0 <= k < ENTRIES ==> DirEntry(m', dir, k) == DirEntry(m, dir, k)
    ensures WellLinked(m', dir, used)
  {
    forall k | 0 <= k < ENTRIES && Present(DirEntry(m', dir, k))
      ensures IsTable(m', dir, k, used)
    {
      assert IsTable(m, dir, k, used);
    }
    SameOwnTables(m, m', dir, used);
  }

  lemma EntryWalk(m: seq<word>, m': seq<word>, dir: nat, used: set<nat>, p: nat, pa: word)
    requires WellLinked(m, dir, used) && p < PAGES && Present(DirEntry(m, dir, p / ENTRIES))
    requires m' == m[Slot(FrameOf(DirEntry(m, dir, p / ENTRIES)), p % ENTRIES) := WithFlags(pa)]
    requires DirEntry(m', dir, p / ENTRIES) == DirEntry(m, dir, p / ENTRIES)
    ensures Walk(m', dir, p) == Some(Mapping(FrameOf(pa), true, true))
  {
    assert IsTable(m, dir, p / ENTRIES, used);
    FlaggedBits(pa);
    LowBits(DirEntry(m, dir, p / ENTRIES));
  }

  /** An entry with flags 7 is present, writable and user. */
  lemma LowBits(e: word)
    requires e % 8 == USER_RW
    ensures e % 2 == 1 && e / 2 % 2 == 1 && e / 4 % 2 == 1
  {
    assert e == 8 * (e / 8) + 7;
    LowSeven(e / 8);
  }

  /** Writing entry `pa | 7` into the table of page p changes the translation of p and of nothing else. */
  lemma EntryMaps(m: seq<word>, m': seq<word>, dir: nat, used: set<nat>, p: nat, pa: word)
    requires WellLinked(m, dir, used) && p < PAGES && Present(DirEntry(m, dir, p / ENTRIES))
    requires m' == m[Slot(FrameOf(DirEntry(m, dir, p / ENTRIES)), p % ENTRIES) := WithFlags(pa)]
    ensures WellLinked(m', dir, used)
    ensures forall k :: 0 <= k < ENTRIES ==> DirEntry(m', dir, k) == DirEntry(m, dir, k)
    ensures Walk(m', dir, p) == Some(Mapping(FrameOf(pa), true, true))
    ensures forall q :: 0 <= q < PAGES && q != p ==> Walk(m', dir, q) == Walk(m, dir, q)
  {
    EntryKeepsDirectory(m, m', dir, used, p, WithFlags(pa));
    SameDirectory(m, m', dir, used);
    EntryWalk(m, m', dir, used, p, pa);
    forall q | 0 <= q < PAGES && q != p
      ensures Walk(m', dir, q) == Walk(m, dir, q)
    {
      EntryKeepsWalk(m, m', dir, used, p, WithFlags(pa), q);
    }
  }

  // ----- whole effects -----

  /** All directory entries but entry d are the same. */
  ghost predicate OtherSlots(m: seq<word>, m': seq<word>, dir: nat, d: nat)
  {
    HasFrame(m, dir) && |m'| == |m| && forall k {:trigger DirEntry(m', dir, k)} :: 0 <= k < ENTRIES && k != d ==> DirEntry(m', dir, k) == DirEntry(m, dir, k)
  }

  ghost predicate SameWalks(m: seq<word>, m': seq<word>, dir: nat)
  {
    HasFrame(m, dir) && |m'| == |m| && forall p {:trigger Walk(m', dir, p)} :: 0 <= p < PAGES ==> Walk(m', dir, p) == Walk(m, dir, p)
  }

  /** Page p translates to the given frame with all rights, every other page as before. */
  ghost predicate MapsOnly(m: seq<word>, m': seq<word>, dir: nat, p: nat, frame: nat)
    requires p < PAGES
  {
    && HasFrame(m, dir) && |m'| == |m|
    && Walk(m', dir, p) == Some(Mapping(frame, true, true))
    && forall q {:trigger Walk(m', dir, q)} :: 0 <= q < PAGES && q != p ==> Walk(m', dir, q) == Walk(m, dir, q)
  }

  /** map_page refines an update of the flat map. */
  lemma FlatUpdate(m: seq<word>, m': seq<word>, dir: nat, p: nat, frame: nat)
    requires p < PAGES && MapsOnly(m, m', dir, p, frame)
    ensures PageMap(m', dir) == PageMap(m, dir)[p := Mapping(frame, true, true)]
  {
  }

  lemma MapsAfter(m: seq<word>, m1: seq<word>, m': seq<word>, dir: nat, p: nat, frame: nat)
    requires p < PAGES && SameWalks(m, m1, dir) && MapsOnly(m1, m', dir, p, frame)
    ensures MapsOnly(m, m', dir, p, frame)
  {
    forall q | 0 <= q < PAGES && q != p
      ensures Walk(m', dir, q) == Walk(m, dir, q)
    {
      assert Walk(m1, dir, q) == Walk(m, dir, q);
    }
  }

  /** Mapping page p keeps the identity of the first 4 MB exactly when p lies above it or is mapped to itself. */
  lemma IdentityKept(m: seq<word>, m': seq<word>, dir: nat, p: nat, frame: nat)
    requires p < PAGES && LowIdentity(m, dir) && MapsOnly(m, m', dir, p, frame)
    ensures LowIdentity(m', dir) <==> p >= LOW || frame == p
  {
    if p >= LOW || frame == p {
      forall q | 0 <= q < LOW
        ensures Walk(m', dir, q) == Some(Mapping(q, true, true))
      {
        assert q != p ==> Walk(m', dir, q) == Walk(m, dir, q);
      }
    } else {
      assert Walk(m', dir, p) != Some(Mapping(p, true, true));
    }
  }

  lemma IdentitySame(m: seq<word>, m': seq<word>, dir: nat)
    requires SameWalks(m, m', dir) && LowIdentity(m, dir)
    ensures LowIdentity(m', dir)
  {
    forall p | 0 <= p < LOW
      ensures Walk(m', dir, p) == Some(Mapping(p, true, true))
    {
      assert Walk(m, dir, p) == Walk(m', dir, p);
    }
  }

  /** A new, empty table linked into an absent slot: structure kept, no translation changed. */
  lemma TableAdded(m: seq<word>, cleared: seq<word>, m': seq<word>, dir: nat, used: set<nat>, d: nat, t: nat)
    requires WellLinked(m, dir, used) && HasFrame(m, t) && t !in used && t < LOW
    requires d < ENTRIES && !Present(DirEntry(m, dir, d))
    requires Cleared(m, cleared, t, ENTRIES) && m' == cleared[Slot(dir, d) := t * FRAME + USER_RW]
    ensures WellLinked(m', dir, used + {t}) && (LowTables(m, dir) ==> LowTables(m', dir))
    ensures SameWalks(m, m', dir) && (LowIdentity(m, dir) ==> LowIdentity(m', dir))
    ensures OtherSlots(m, m', dir, d) && DirEntry(m', dir, d) == t * FRAME + USER_RW
  {
    UnusedData(m, dir, used, t);
    ClearedSame(m, cleared, dir, used, t, ENTRIES);
    LinkedSame(cleared, m', dir, used, d, t);
    EntryBits(t);
    forall p | 0 <= p < PAGES
      ensures Walk(m', dir, p) == Walk(m, dir, p)
    {
      assert Walk(cleared, dir, p) == Walk(m, dir, p);
    }
    if LowIdentity(m, dir) {
      IdentitySame(m, m', dir);
    }
  }

  /** Writing one table entry maps one page. */
  lemma PageMapped(m: seq<word>, m': seq<word>, dir: nat, used: set<nat>, p: nat, pa: word)
    requires WellLinked(m, dir, used) && p < PAGES && Present(DirEntry(m, dir, p / ENTRIES))
    requires m' == m[Slot(FrameOf(DirEntry(m, dir, p / ENTRIES)), p % ENTRIES) := WithFlags(pa)]
    ensures WellLinked(m', dir, used) && (LowTables(m, dir) ==> LowTables(m', dir))
    ensures MapsOnly(m, m', dir, p, FrameOf(pa))
    ensures forall k :: 0 <= k < ENTRIES ==> DirEntry(m', dir, k) == DirEntry(m, dir, k)
  {
    EntryMaps(m, m', dir, used, p, pa);
  }

  /** What map_page leaves when it has mapped page p of directory entry d, into a table that is there or a new one. */
  ghost predicate Mapped(m: seq<word>, m': seq<word>, dir: nat, d: nat, p: nat, frame: nat)
    requires p < PAGES && d < ENTRIES
  {
    MapsOnly(m, m', dir, p, frame) && OtherSlots(m, m', dir, d) && Present(DirEntry(m', dir, d)) && (LowTables(m, dir) ==> LowTables(m', dir))
  }

  /**
   * What map_page leaves when the new table's frame t is seen through a page that shows frame g: g is filled
   * and takes the entry, t is linked as it is.
   */
  ghost predicate Misplaced(m: seq<word>, m': seq<word>, dir: nat, d: nat, i: nat, g: nat, t: word, e: word)
    requires HasFrame(m, dir) && HasFrame(m, g) && d < ENTRIES && i < ENTRIES
  {
    && |m'| == |m|
    && forall k {:trigger m'[k]} :: 0 <= k < |m| ==>
         m'[k] == if k == Slot(g, i) then e else if k == Slot(dir, d) then WithFlags(t)
                  else if Slot(g, 0) <= k < Slot(g, ENTRIES) then EMPTY else m[k]
  }

  // ----- whole runs of map_page -----

  /** map_page or pmm_alloc_block. */
  datatype Call = Map(va: word, pa: word) | Take

  /** The call maps page p. */
  predicate MapsPage(c: Call, p: nat)
  {
    c.Map? && c.va / FRAME == p
  }

  /** The flat map after the first n calls. */
  function Updated(flat: map<nat, Mapping>, calls: seq<Call>, n: nat): map<nat, Mapping>
    requires n <= |calls|
  {
    if n == 0 then flat
    else
      match calls[n - 1]
      case Map(va, pa) => Updated(flat, calls, n - 1)[va / FRAME := Mapping(pa / FRAME, true, true)]
      case Take => Updated(flat, calls, n - 1)
  }

  /** In it a page has what its last call said, or what it had at first when there was none. */
  lemma {:induction false} LastRequestWins(flat: map<nat, Mapping>, calls: seq<Call>, n: nat, p: nat, j: nat)
    requires j <= n <= |calls| && forall i :: j <= i < n ==> !MapsPage(calls[i], p)
    requires j > 0 ==> MapsPage(calls[j - 1], p)
    ensures j > 0 ==> p in Updated(flat, calls, n) && Updated(flat, calls, n)[p] == Mapping(calls[j - 1].pa / FRAME, true, true)
    ensures j == 0 ==> (p in Updated(flat, calls, n) <==> p in flat) && (p in flat ==> Updated(flat, calls, n)[p] == flat[p])
  {
    if j < n {
      LastRequestWins(flat, calls, n - 1, p, j);
    }
  }

  /**
   * Mapping page p onto the frame of the same number, as create_task does with the page of the user stack,
   * changes no translation exactly when p was mapped like that already.
   */
  lemma RemapKeeps(m: seq<word>, m': seq<word>, dir: nat, p: nat)
    requires p < PAGES && MapsOnly(m, m', dir, p, p)
    ensures SameWalks(m, m', dir) <==> Walk(m, dir, p) == Some(Mapping(p, true, true))
  {
    if Walk(m, dir, p) == Some(Mapping(p, true, true)) {
      forall q | 0 <= q < PAGES
        ensures Walk(m', dir, q) == Walk(m, dir, q)
      {
      }
    } else {
      assert Walk(m', dir, p) != Walk(m, dir, p);
    }
  }

  // ----- paging_init -----

  /** Table t identity-maps the first 4 MB up to entry n. */
  ghost predicate IdentityTable(m: seq<word>, t: nat, n: nat)
    requires HasFrame(m, t) && n <= ENTRIES
  {
    forall i :: 0 <= i < n ==> m[Slot(t, i)] == i * FRAME + USER_RW
  }

  /** Entries from..n of frame f are empty. */
  ghost predicate EmptyEntries(m: seq<word>, f: nat, from: nat, n: nat)
    requires HasFrame(m, f) && n <= ENTRIES
  {
    forall i :: from <= i < n ==> m[Slot(f, i)] == EMPTY
  }

  /** A directory whose only entry links an identity table maps the first 4 MB to themselves and nothing else. */
  lemma InitialWalks(m: seq<word>, dir: nat, t: nat, used: set<nat>)
    requires HasFrame(m, dir) && HasFrame(m, t) && t != dir && t * FRAME + USER_RW < WORD_LIMIT
    requires dir in used && t in used && forall f :: f in used ==> HasFrame(m, f)
    requires DirEntry(m, dir, 0) == t * FRAME + USER_RW && EmptyEntries(m, dir, 1, ENTRIES)
    requires IdentityTable(m, t, ENTRIES)
    ensures WellLinked(m, dir, used) && LowIdentity(m, dir)
    ensures LowTables(m, dir) <==> dir < LOW && t < LOW
    ensures forall p :: LOW <= p < PAGES ==> Walk(m, dir, p) == None
  {
    EntryBits(t);
    forall d | 0 <= d < ENTRIES
      ensures DirEntry(m, dir, d) == if d == 0 then t * FRAME + USER_RW else EMPTY
    {
      assert d > 0 ==> m[Slot(dir, d)] == EMPTY;
    }
    assert IsTable(m, dir, 0, used);
    forall p | 0 <= p < LOW
      ensures Walk(m, dir, p) == Some(Mapping(p, true, true))
    {
      IdentityWalk(m, dir, t, p);
    }
  }

  lemma IdentityWalk(m: seq<word>, dir: nat, t: nat, p: nat)
    requires HasFrame(m, dir) && HasFrame(m, t) && p < LOW && t * FRAME + USER_RW < WORD_LIMIT
    requires DirEntry(m, dir, 0) == t * FRAME + USER_RW && IdentityTable(m, t, ENTRIES)
    ensures Walk(m, dir, p) == Some(Mapping(p, true, true))
  {
    assert p / ENTRIES == 0 && p % ENTRIES == p;
    assert m[Slot(t, p)] == p * FRAME + USER_RW;
    EntryBits(p);
    EntryBits(t);
  }

  /** Frame number and flag bits of an entry f * 4096 + 7. */
  lemma EntryBits(f: nat)
    requires f * FRAME + USER_RW < WORD_LIMIT
    ensures var e: word := f * FRAME + USER_RW;
      Present(e) && e % 8 == USER_RW && e / 2 % 2 == 1 && e / 4 % 2 == 1 && FrameOf(e) == f
  {
    assert f * FRAME + USER_RW == 8 * (512 * f) + 7;
    LowSeven(512 * f);
  }

  lemma LowSeven(g: nat)
    ensures var e := 8 * g + 7; e % 8 == 7 && e % 2 == 1 && e / 2 % 2 == 1 && e / 4 % 2 == 1
  {
    assert (8 * g + 7) / 2 == 2 * (2 * g + 1) + 1;
    assert (8 * g + 7) / 4 == 2 * g + 1;
  }

  /** The same for x | 7. */
  lemma FlaggedBits(x: word)
    ensures var e := WithFlags(x);
      Present(e) && e % 8 == USER_RW && e / 2 % 2 == 1 && e / 4 % 2 == 1 && FrameOf(e) == FrameOf(x)
  {
    assert WithFlags(x) == 8 * (x / 8) + 7;
    LowSeven(x / 8);
    FrameKept(x);
  }

  lemma FrameKept(x: word)
    ensures WithFlags(x) / 4096 == x / 4096
  {
    var q, r := x / 4096, x % 4096;
    assert x % 8 == r % 8;
    assert WithFlags(x) == 4096 * q + (r - r % 8 + 7);
    assert r - r % 8 + 7 < 4096;
  }

  /**
   * kernel_main later sets flags 7 on every directory entry (src/kernel.c:139-141). An empty
   * entry then names frame 0 as a table: the translation of page p survives exactly when its
   * table was present or the word of frame 0 read in its place is not.
   */
  lemma DirectoryOpened(m: seq<word>, m': seq<word>, dir: nat, used: set<nat>, p: nat)
    requires WellLinked(m, dir, used) && dir != 0 && p < PAGES && HasFrame(m, 0)
    requires !Present(DirEntry(m, dir, p / ENTRIES)) ==> DirEntry(m, dir, p / ENTRIES) == EMPTY
    requires |m'| == |m|
    requires forall k :: 0 <= k < |m| ==> m'[k] == if Slot(dir, 0) <= k < Slot(dir, ENTRIES) then WithFlags(m[k]) else m[k]
    ensures Walk(m', dir, p) == Walk(m, dir, p)
        <==> Present(DirEntry(m, dir, p / ENTRIES)) || !Present(m[Slot(0, p % ENTRIES)])
  {
    var de := DirEntry(m, dir, p / ENTRIES);
    assert DirEntry(m', dir, p / ENTRIES) == WithFlags(de);
    if Present(de) {
      assert IsTable(m, dir, p / ENTRIES, used);
      SlotsApart(FrameOf(de), p % ENTRIES, dir, ENTRIES);
      WalkSame(m, m', dir, p);
    } else {
      SlotsApart(0, p % ENTRIES, dir, ENTRIES);
    }
  }

  /** Frame 0 starting with a present-looking word, a fresh directory in frame 1 and its identity table in frame 2. */
  function ThreeFrames(i: nat): word
    requires i < 3072
  {
    if i == 0 then 1 else if i == 1024 then 2 * FRAME + USER_RW else if 1024 < i < 2048 then EMPTY
    else if 2048 <= i then (i - 2048) * FRAME + USER_RW else 0
  }

  /** There page 1024 was unmapped and, once the directory is opened, translates to frame 0. */
  lemma OpenedExample()
    ensures var m := seq(3072, i requires 0 <= i < 3072 => ThreeFrames(i));
      var m' := seq(3072, i requires 0 <= i < 3072 => if 1024 <= i < 2048 then WithFlags(ThreeFrames(i)) else ThreeFrames(i));
      && WellLinked(m, 1, {1, 2}) && LowIdentity(m, 1)
      && Walk(m, 1, 1024) == None
      && Walk(m', 1, 1024).Some? && Walk(m', 1, 1024).value.frame == 0
  {
    var m: seq<word> := seq(3072, i requires 0 <= i < 3072 => ThreeFrames(i));
    InitialWalks(m, 1, 2, {1, 2});
    var m': seq<word> := seq(3072, i requires 0 <= i < 3072 => if 1024 <= i < 2048 then WithFlags(ThreeFrames(i)) else ThreeFrames(i));
    assert DirEntry(m', 1, 1) == 7;
    assert m'[0] == 1;
  }
}
