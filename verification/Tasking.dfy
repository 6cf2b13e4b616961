/** The first fork after boot: the kernel's stack for tasks, and the copy of its directory. */
module Tasking {
  import opened Memory
  import opened BinIndex
  import opened Sets
  import opened Pmm
  import opened Paging
  import opened HeapPages
  import opened Vmm
  import opened Spaces
  import opened Boot
  import opened Fork
  import HeapMemory
  import HeapSpec

  // --------------------------------------------------------- allocate_stack

  /** Pages that `sz` bytes from `start` on take, counted in steps of a page. */
  function PageCount(sz: word): nat { (sz + PG_SZ - 1) / PG_SZ }

  /** Page v has one of the `sz` bytes from `start` on. */
  predicate HasBytes(start: word, sz: word, v: nat) { v * PG_SZ < start + sz && start < (v + 1) * PG_SZ && sz > 0 }

  /** The pages so counted are pages that the bytes lie in, and they are all of them exactly
      when steps of a page from `start` reach the page of the last byte; from a page boundary
      they always do. */
  lemma StackCovers(start: word, sz: word)
    ensures forall v: nat :: start / PG_SZ <= v < start / PG_SZ + PageCount(sz) ==> HasBytes(start, sz, v)
    ensures (forall v: nat :: HasBytes(start, sz, v) ==> start / PG_SZ <= v < start / PG_SZ + PageCount(sz)) <==>
      sz == 0 || start % PG_SZ + (sz - 1) % PG_SZ < PG_SZ
  {
    if sz > 0 {
      var q, n := start / PG_SZ, (sz - 1) / PG_SZ;
      var last := (start + sz - 1) / PG_SZ;
      assert PageCount(sz) == n + 1;
      assert last == if start % PG_SZ + (sz - 1) % PG_SZ < PG_SZ then q + n else q + n + 1;
      assert HasBytes(start, sz, last);
    }
  }

  /** The indices of the tables of `cnt` pages from page number b on. */
  function FirstTable(b: nat): nat { b / ENTRIES }

  function EndTable(b: nat, cnt: nat): nat { if cnt == 0 then b / ENTRIES else (b + cnt - 1) / ENTRIES + 1 }

  /** The tables that the heap must provide for a range of pages. */
  ghost function TablesFor(dir: PageDir, b: nat, cnt: nat): set<nat>
    requires b + cnt <= PAGES
  {
    Absent(dir, FirstTable(b), EndTable(b, cnt))
  }

  /** Maps pages that are clear to the lowest free frames, in order. In the user half this
      keeps all address spaces apart and what the processor walks right. */
  method AllocateStack(vm: VirtualMemory, start: word, sz: word, d: word) returns (r: word)
    requires vm.Valid() && vm.heapReady && d in vm.dirs && start + sz + PG_SZ <= SPACE
    requires forall v :: start / PG_SZ <= v < start / PG_SZ + PageCount(sz) && v < PAGES ==>
      FrameOf(vm.dirs[d], vm.tabs, v) == 0
    requires start / PG_SZ + PageCount(sz) <= PAGES
    requires vm.Room() >= |TablesFor(vm.dirs[d], start / PG_SZ, PageCount(sz))|
    modifies vm`allocPtr, vm`dirs, vm`tabs, vm.heap, vm.frames.frames.bits
    ensures vm.Valid() && r == start && vm.dirs.Keys == old(vm.dirs).Keys
    ensures forall e :: e in vm.dirs && e != d ==> vm.dirs[e] == old(vm.dirs)[e]
    ensures TablesKept(old(vm.dirs)[d], vm.dirs[d], TablesFor(old(vm.dirs)[d], start / PG_SZ, PageCount(sz)))
    ensures vm.heap.heap ==
      PagedTimes(old(vm.heap.heap), TAB_SZ, |TablesFor(old(vm.dirs)[d], start / PG_SZ, PageCount(sz))|)
    ensures var b, cnt, n := start / PG_SZ, PageCount(sz), vm.frames.Count();
      && SameBut(old(vm.dirs)[d], old(vm.tabs), vm.dirs[d], vm.tabs, b, b + cnt)
      && RangeMapped(vm.dirs[d], vm.tabs, b, cnt, cnt, old(vm.Taken()), n)
      && vm.Taken() == TakenAfter(old(vm.Taken()), n, cnt)
      && TablesThere(vm.dirs[d], b, cnt)
      && (b + cnt <= USER_PAGES && SpacesApart(old(vm.dirs), old(vm.tabs), old(vm.Taken())) ==>
            && SpacesApart(vm.dirs, vm.tabs, vm.Taken())
            && (Walkable(old(vm.dirs), old(vm.tabs), vm.kernDir, 0) ==> Walkable(vm.dirs, vm.tabs, vm.kernDir, 0)))
      && (0 in old(vm.Taken()) && Sound(old(vm.tabs)) ==>
            (Sound(vm.tabs) <==> cnt <= |FreeFrames(old(vm.Taken()), n)|))
  {
    hide Sound, FreeFrames;
    hide Stacked, SpacesApart, TablesFor, RangeMapped, SameBut, TakenAfter, EntryOf, FrameOf, DirOk, Get;
    hide HeapMemory.Rep, Lives, VirtualMemory.Valid, Rooms, TablesKept, PagedTimes, PageCount, Walkable, TablesThere;
    ghost var b, cnt := start / PG_SZ, PageCount(sz);
    ghost var s0 := SideOf(vm);
    StackNone(vm, s0, d, b, cnt);
    var i: word := start;
    ghost var k, made: nat := 0, 0;
    while i < start + sz
      invariant i == start + k * PG_SZ && k <= cnt && Stacked(vm, s0, d, b, cnt, k, made)
      decreases start + sz - i
    {
      StackPage(start, sz, i, k);
      made := MapStackPage(vm, i, d, s0, b, cnt, k, made);
      i := i + PG_SZ;
      k := k + 1;
    }
    StackDone(start, sz, i, k);
    StackAll(vm, s0, d, b, cnt, made);
    if 0 in s0.taken { StackSound(vm.dirs[d], vm.tabs, b, cnt, s0.taken, vm.frames.Count()) by { CountFits(vm); } }
    return start;
  }

  /** The first k of `cnt` pages are mapped, and `made` tables were provided for them. */
  ghost predicate Stacked(vm: VirtualMemory, s0: Side, d: word, b: nat, cnt: nat, k: nat, made: nat)
    requires b + cnt <= PAGES && d in s0.dirs
    reads vm, vm.heap, vm.frames, vm.frames.frames, vm.frames.frames.bits
  {
    && vm.Valid() && vm.heapReady && vm.dirs.Keys == s0.dirs.Keys && k <= cnt
    && (forall e :: e in vm.dirs && e != d ==> vm.dirs[e] == s0.dirs[e])
    && SameBut(s0.dirs[d], s0.tabs, vm.dirs[d], vm.tabs, b, b + k)
    && RangeMapped(vm.dirs[d], vm.tabs, b, k, cnt, s0.taken, vm.frames.Count())
    && vm.Taken() == TakenAfter(s0.taken, vm.frames.Count(), k)
    && made + |TablesFor(vm.dirs[d], b, cnt)| == |TablesFor(s0.dirs[d], b, cnt)|
    && vm.heap.heap == PagedTimes(s0.heap, TAB_SZ, made) && vm.Room() >= |TablesFor(vm.dirs[d], b, cnt)|
    && TablesKept(s0.dirs[d], vm.dirs[d], TablesFor(s0.dirs[d], b, cnt)) && TablesThere(vm.dirs[d], b, k)
    && (b + cnt <= USER_PAGES && SpacesApart(s0.dirs, s0.tabs, s0.taken) ==>
          && SpacesApart(vm.dirs, vm.tabs, vm.Taken())
          && (Walkable(s0.dirs, s0.tabs, vm.kernDir, 0) ==> Walkable(vm.dirs, vm.tabs, vm.kernDir, 0)))
    && (0 in s0.taken && Sound(s0.tabs) && k <= |FreeFrames(s0.taken, vm.frames.Count())| ==> Sound(vm.tabs))
  }

  /** A page for which there was no frame is present without one. */
  lemma StackSound(dir: PageDir, tabs: Tabs, b: nat, cnt: nat, taken: set<nat>, n: nat)
    requires b + cnt <= PAGES && RangeMapped(dir, tabs, b, cnt, cnt, taken, n) && n <= FRAME_CNT && 0 in taken
    ensures Sound(tabs) ==> cnt <= |FreeFrames(taken, n)|
  {
    hide EntryOf, RangeMapped, FreeFrames, Sound, Fine;
    if Sound(tabs) && cnt > 0 {
      RangeFine(dir, tabs, b, cnt, cnt, taken, n, b + cnt - 1);
      SoundPage(dir, tabs, b + cnt - 1);
    }
  }

  ghost predicate TablesKept(dir: PageDir, dir': PageDir, but: set<nat>) {
    forall j :: 0 <= j < ENTRIES && j !in but ==> dir'.tables[j] == dir.tables[j]
  }

  ghost predicate TablesThere(dir: PageDir, b: nat, k: nat) {
    forall j :: FirstTable(b) <= j < EndTable(b, k) && j < ENTRIES ==> dir.tables[j] != 0
  }

  lemma NoDirZero(vm: VirtualMemory)
    requires vm.Valid()
    ensures 0 !in vm.dirs && (vm.heapReady ==> vm.currentDir in vm.dirs)
  {
    hide DirOk, VirtualMemory.Supplied, RegionsApart;
  }

  lemma StackNone(vm: VirtualMemory, s0: Side, d: word, b: nat, cnt: nat)
    requires vm.Valid() && vm.heapReady && d in vm.dirs && b + cnt <= PAGES
    requires s0 == SideOf(vm)
    requires (forall v :: b <= v < b + cnt ==> FrameOf(vm.dirs[d], vm.tabs, v) == 0)
    requires vm.Room() >= |TablesFor(vm.dirs[d], b, cnt)|
    ensures Stacked(vm, s0, d, b, cnt, 0, 0)
  {
    hide SpacesApart, TablesFor, RangeMapped, SameBut, TakenAfter, EntryOf, FrameOf, VirtualMemory.Valid, Rooms;
    hide Walkable, Sound, FreeFrames;
    RangeStart(vm.dirs[d], vm.tabs, b, cnt, s0.taken, vm.frames.Count());
  }

  lemma StackAll(vm: VirtualMemory, s0: Side, d: word, b: nat, cnt: nat, made: nat)
    requires b + cnt <= PAGES && d in s0.dirs && Stacked(vm, s0, d, b, cnt, cnt, made)
    ensures vm.Valid() && vm.heapReady && vm.dirs.Keys == s0.dirs.Keys && made == |TablesFor(s0.dirs[d], b, cnt)|
    ensures vm.heap.heap == PagedTimes(s0.heap, TAB_SZ, made)
    ensures TablesKept(s0.dirs[d], vm.dirs[d], TablesFor(s0.dirs[d], b, cnt))
    ensures (forall e :: e in vm.dirs && e != d ==> vm.dirs[e] == s0.dirs[e])
    ensures SameBut(s0.dirs[d], s0.tabs, vm.dirs[d], vm.tabs, b, b + cnt)
    ensures RangeMapped(vm.dirs[d], vm.tabs, b, cnt, cnt, s0.taken, vm.frames.Count())
    ensures vm.Taken() == TakenAfter(s0.taken, vm.frames.Count(), cnt)
    ensures TablesThere(vm.dirs[d], b, cnt)
    ensures b + cnt <= USER_PAGES && SpacesApart(s0.dirs, s0.tabs, s0.taken) ==>
      && SpacesApart(vm.dirs, vm.tabs, vm.Taken())
      && (Walkable(s0.dirs, s0.tabs, vm.kernDir, 0) ==> Walkable(vm.dirs, vm.tabs, vm.kernDir, 0))
    ensures 0 in s0.taken && Sound(s0.tabs) && cnt <= |FreeFrames(s0.taken, vm.frames.Count())| ==> Sound(vm.tabs)
  {
    hide SpacesApart, TablesFor, RangeMapped, SameBut, TakenAfter, VirtualMemory.Valid, TablesKept, Walkable, Sound;
    hide FreeFrames;
    AbsentNone(vm.dirs[d], b, cnt);
  }

  /** One page of the stack. */
  method MapStackPage(vm: VirtualMemory, i: word, d: word, ghost s0: Side, ghost b: nat, ghost cnt: nat,
                      ghost k: nat, ghost made: nat)
    returns (ghost made': nat)
    requires b + cnt <= PAGES && d in s0.dirs && k < cnt && i / PG_SZ == b + k && Stacked(vm, s0, d, b, cnt, k, made)
    modifies vm`allocPtr, vm`dirs, vm`tabs, vm.heap, vm.frames.frames.bits
    ensures Stacked(vm, s0, d, b, cnt, k + 1, made')
  {
    hide MapPte, DirOk, Get, EntryOf, FrameOf, TakenAfter, SameBut, RangeMapped, SpacesApart, HeapMemory.Rep, Lives;
    hide Rooms, Walkable, Physical, WithTable, Sound, Fine, FreeFrames;
    hide TablesFor, Paged, Sees, Changed, SameTables, VirtualMemory.Valid, TablesKept, TablesThere, AllOk;
    ghost var dirs, tabs, taken, n := vm.dirs, vm.tabs, vm.Taken(), vm.frames.Count();
    IndexSplit(i, 0, 0);
    AbsentHas(dirs[d], b, cnt, k);
    ValidDirs(vm);
    CountFits(vm);
    NoDirZero(vm);
    ClearNext(dirs[d], tabs, b, k, cnt, s0.taken, n);
    var page := vm.MapAt(i, true, true, 0, d);
    made' := if dirs[d].tables[PdIdx(i)] == 0 then made + 1 else made;
    AbsentLess(dirs[d], vm.dirs[d], b, cnt, k);
    TablesStep(s0.dirs[d], dirs[d], vm.dirs[d], b, cnt, k);
    RangeStep(s0.dirs[d], s0.tabs, dirs[d], tabs, vm.dirs[d], vm.tabs, b, k, cnt, s0.taken, n);
    if 0 in s0.taken { RangeFine(vm.dirs[d], vm.tabs, b, k + 1, cnt, s0.taken, n, b + k); }
    if b + cnt <= USER_PAGES && SpacesApart(dirs, tabs, taken) {
      MapKeepsApart(dirs, tabs, taken, vm.dirs, vm.tabs, n, d, b + k, page.tab);
      if Walkable(dirs, tabs, vm.kernDir, 0) {
        UserPageWalk(dirs, tabs, vm.dirs, vm.tabs, vm.kernDir, vm.currentDir, d, b + k, page.tab);
      }
    }
  }

  /** Only one user page has another frame, so the processor's view stays right. */
  lemma UserPageWalk(dirs: Dirs, tabs: Tabs, dirs': Dirs, tabs': Tabs, k: word, cur: word, d: word, v: nat, t: word)
    requires Walkable(dirs, tabs, k, 0) && cur in dirs && cur != 0
    requires d in dirs && v < USER_PAGES && dirs'.Keys == dirs.Keys
    requires TableMade(dirs, tabs, dirs', cur, d, v / ENTRIES, t)
    requires forall e, u :: e in dirs && 0 <= u < PAGES && (e != d || u != v) ==>
      FrameOf(dirs'[e], tabs', u) == FrameOf(dirs[e], tabs, u)
    ensures Walkable(dirs', tabs', k, 0)
  {
    hide Walkable, FrameOf, TableMade;
    assert k in dirs by { WalkKern(dirs, tabs, k); }
    TableWalk(dirs, tabs, dirs', tabs', k, 0, cur, d, v / ENTRIES, t);
  }

  lemma WalkKern(dirs: Dirs, tabs: Tabs, k: word)
    requires Walkable(dirs, tabs, k, 0)
    ensures k in dirs
  {
  }

  lemma TablesStep(dir0: PageDir, dir: PageDir, dir': PageDir, b: nat, cnt: nat, k: nat)
    requires b + cnt <= PAGES && k < cnt && (b + k) / ENTRIES < ENTRIES && TableAt(dir, dir', (b + k) / ENTRIES)
    requires TablesKept(dir0, dir, TablesFor(dir0, b, cnt)) && TablesThere(dir, b, k)
    requires dir.tables[(b + k) / ENTRIES] != 0 ==> dir'.tables == dir.tables
    ensures TablesKept(dir0, dir', TablesFor(dir0, b, cnt)) && TablesThere(dir', b, k + 1)
  {
    assert FirstTable(b) <= (b + k) / ENTRIES < EndTable(b, cnt);
    assert EndTable(b, k + 1) == (b + k) / ENTRIES + 1 && EndTable(b, k) >= (b + k) / ENTRIES;
  }

  lemma StackPage(start: word, sz: word, i: word, k: nat)
    requires i == start + k * PG_SZ && i < start + sz
    ensures i / PG_SZ == start / PG_SZ + k && k < PageCount(sz)
  {
  }

  lemma StackDone(start: word, sz: word, i: word, k: nat)
    requires i == start + k * PG_SZ && i >= start + sz && k <= PageCount(sz)
    ensures k == PageCount(sz)
  {
  }

  /** A table that page number b + k lacks is one to be provided. */
  lemma AbsentHas(dir: PageDir, b: nat, cnt: nat, k: nat)
    requires b + cnt <= PAGES && k < cnt
    ensures var i := (b + k) / ENTRIES;
      i < ENTRIES && (dir.tables[i] == 0 ==> i in TablesFor(dir, b, cnt) && |TablesFor(dir, b, cnt)| > 0)
  {
    assert FirstTable(b) <= (b + k) / ENTRIES < EndTable(b, cnt);
    assert dir.tables[(b + k) / ENTRIES] == 0 ==> (b + k) / ENTRIES in TablesFor(dir, b, cnt);
  }

  lemma TableIn(b: nat, cnt: nat, k: nat)
    requires k < cnt
    ensures FirstTable(b) <= (b + k) / ENTRIES < EndTable(b, cnt)
  {
  }

  lemma AbsentStep(dir: PageDir, dir': PageDir, lo: nat, hi: nat, i: nat)
    requires lo <= i < hi <= ENTRIES && TableAt(dir, dir', i)
    ensures |Absent(dir', lo, hi)| == |Absent(dir, lo, hi)| - (if dir.tables[i] == 0 then 1 else 0)
  {
    var s, s' := Absent(dir, lo, hi), Absent(dir', lo, hi);
    forall j: nat
      ensures j in s' <==> j in s && j != i
    {
      assert lo <= j < hi && j != i ==> dir'.tables[j] == dir.tables[j];
    }
    assert s' == s - {i};
    assert i in s <==> dir.tables[i] == 0;
  }

  lemma AbsentLess(dir: PageDir, dir': PageDir, b: nat, cnt: nat, k: nat)
    requires b + cnt <= PAGES && k < cnt && (b + k) / ENTRIES < ENTRIES
    requires TableAt(dir, dir', (b + k) / ENTRIES)
    ensures |TablesFor(dir', b, cnt)| ==
      |TablesFor(dir, b, cnt)| - (if dir.tables[(b + k) / ENTRIES] == 0 then 1 else 0)
  {
    hide Absent, TableAt;
    TableIn(b, cnt, k);
    AbsentStep(dir, dir', FirstTable(b), EndTable(b, cnt), (b + k) / ENTRIES);
  }

  lemma AbsentNone(dir: PageDir, b: nat, cnt: nat)
    requires b + cnt <= PAGES
    requires TablesThere(dir, b, cnt)
    ensures TablesFor(dir, b, cnt) == {}
  {
  }

  lemma ClearNext(dir: PageDir, tabs: Tabs, b: nat, k: nat, cnt: nat, taken: set<nat>, n: nat)
    requires b + cnt <= PAGES && k < cnt && RangeMapped(dir, tabs, b, k, cnt, taken, n)
    ensures FrameOf(dir, tabs, b + k) == 0 && EntryOf(dir, tabs, b + k).addr == 0
  {
    hide Gets;
  }

  // ------------------------------------------------------------ tasking_init

  const STACK_SZ: word := 0x4000
  const STACK_BOTTOM: word := 0xBFFF_C000
  const STACK_PG: nat := 0xB_FFFC
  const STACK_PAGES: nat := 4
  const STACK_IDX: nat := 767

  /** Frames that boot, the stack and two copies of it take at most, beside frame 0, when
      the kernel ends at `end`: the linear map, the heap, and the stack three times. */
  function FramesToFork(end: word): int { (end - KERN_OFFSET) / PG_SZ + 0x87 + HEAP_PAGES + 3 * STACK_PAGES }

  /** The numbers below m. */
  ghost function UpTo(m: nat): (s: set<nat>)
    ensures |s| == m && forall f: nat :: f in s <==> f < m
  {
    if m == 0 then {} else UpTo(m - 1) + {m - 1}
  }

  lemma FreeLinear(taken: set<nat>, k: nat, f0: nat, n: nat)
    requires k >= KERN_PG
    ensures |FreeFrames(taken, n)| <= |FreeFrames(LinearTaken(taken, k, f0), n)| + 1 + k - KERN_PG
  {
    var all := FreeFrames(LinearTaken(taken, k, f0), n) + ({f0} + UpTo(k - KERN_PG));
    SubsetSize(FreeFrames(taken, n), all);
  }

  /** Page tables that a fork takes when only the stack is mapped. */
  function StackTables(dir: PageDir): nat { if dir.tables[WINDOW_IDX] == 0 then 2 else 1 }

  /** The kernel heap serves the stack's table and two forks: a directory and two tables,
      then a directory and a table. */
  lemma HeapServes(h: HeapSpec.Heap, h1: HeapSpec.Heap, h2: HeapSpec.Heap)
    requires h == HeapSpec.Init(KHEAP_START, KHEAP_END)
    requires h1 == PagedTimes(h, TAB_SZ, 1) && h2 == PagedTimes(Paged(h1, DIR_SZ), TAB_SZ, 2)
    ensures Rooms(h, TAB_SZ) == 127
    ensures CanPage(h1, DIR_SZ) && Rooms(Paged(h1, DIR_SZ), TAB_SZ) == 125
    ensures CanPage(h2, DIR_SZ) && Rooms(Paged(h2, DIR_SZ), TAB_SZ) == 121
  {
    hide Paged, CanPage, EndsAt, Rooms;
    InitEnds(KHEAP_START, KHEAP_END);
    RoomsExact(h, KHEAP_START, 0xF_FFEC, TAB_SZ);
    TimesFew(h);
    PagedEnds(h, KHEAP_START, 0xF_FFEC, TAB_SZ);
    PagedEnds(h1, 0xD000_200C, 0xF_DFE0, DIR_SZ);
    var d1 := Paged(h1, DIR_SZ);
    RoomsExact(d1, 0xD000_5010, 0xF_AFDC, TAB_SZ);
    PagedEnds(d1, 0xD000_5010, 0xF_AFDC, TAB_SZ);
    PagedEnds(Paged(d1, TAB_SZ), 0xD000_700C, 0xF_8FE0, TAB_SZ);
    TimesFew(d1);
    assert h2 == Paged(PagedTimes(d1, TAB_SZ, 1), TAB_SZ);
    PagedEnds(h2, 0xD000_900C, 0xF_6FE0, DIR_SZ);
    RoomsExact(Paged(h2, DIR_SZ), 0xD000_C010, 0xF_3FDC, TAB_SZ);
  }

  /** After boot there is one address space, without user pages. */
  lemma BootedApart(dirs: Dirs, tabs: Tabs, d: word, end: word, f0: nat, taken0: set<nat>, n: nat)
    requires dirs.Keys == {d} && DirOk(dirs[d], tabs) && n <= FRAME_CNT
    requires 0 in taken0 && f0 == FirstFrame(taken0, n) && KERN_OFFSET < end < KHEAP_START - 0x10_0000
    requires Booted(dirs[d], tabs, end, f0, taken0, n)
    ensures SpacesApart(dirs, tabs, TakenAfter(LinearTaken(taken0, LinearEnd(end), f0), n, HEAP_PAGES))
    ensures dirs[d].tables[WINDOW_IDX] == 0
    ensures forall i :: 0 <= i < KERN_IDX ==> dirs[d].tables[i] == 0
    ensures forall v :: 0 <= v < USER_PAGES ==> FrameOf(dirs[d], tabs, v) == 0
  {
    hide EntryOf, RangeMapped, FrameOf, TakenAfter, Get;
    var linear := LinearTaken(taken0, LinearEnd(end), f0);
    assert PairApart(dirs[d], dirs[d], true);
    AfterKeeps(linear, n, HEAP_PAGES, 0);
    forall v | 0 <= v < PAGES && FrameOf(dirs[d], tabs, v) != 0
      ensures FrameOf(dirs[d], tabs, v) in TakenAfter(linear, n, HEAP_PAGES)
    {
      if HEAP_PG <= v < HEAP_PG + HEAP_PAGES {
        RangeTaken(dirs[d], tabs, HEAP_PG, HEAP_PAGES, linear, n, v);
      } else {
        assert FrameOf(dirs[d], tabs, v) in linear;
        AfterKeeps(linear, n, HEAP_PAGES, FrameOf(dirs[d], tabs, v));
      }
    }
  }

  lemma TablesForStack(dir: PageDir)
    requires dir.tables[STACK_IDX] == 0
    ensures STACK_BOTTOM / PG_SZ == STACK_PG && PageCount(STACK_SZ) == STACK_PAGES
    ensures TablesFor(dir, STACK_PG, STACK_PAGES) == {STACK_IDX} && |{STACK_IDX}| == 1
  {
    assert TablesFor(dir, STACK_PG, STACK_PAGES) == {STACK_IDX};
  }

  /** The stack's pages, and no other user pages, are mapped in directory d. */
  ghost predicate OnlyStack(dir: PageDir, tabs: Tabs) {
    forall v :: 0 <= v < USER_PAGES ==> (FrameOf(dir, tabs, v) != 0 <==> STACK_PG <= v < STACK_PG + STACK_PAGES)
  }

  /** With only the stack mapped, a fork copies four pages through one table. */
  lemma StackNeeds(s: State)
    requires OnlyStack(s.dir, s.tabs)
    ensures |Rest(s, 0)| == STACK_PAGES && Total(s) == StackTables(s.dir)
  {
    hide FrameOf;
    assert forall v :: 0 <= v < USER_PAGES ==> (Source(s, v) != 0 <==> STACK_PG <= v < STACK_PG + STACK_PAGES);
    assert Rest(s, 0) == {STACK_PG, STACK_PG + 1, STACK_PG + 2, STACK_PG + 3};
    PageHas(s, STACK_PG);
    forall j | j in Missing(s, ZeroDir(0), 0)
      ensures j == STACK_IDX
    {
      var v :| 0 <= v < USER_PAGES && v / ENTRIES == j && Source(s, v) != 0;
    }
    assert Missing(s, ZeroDir(0), 0) == {STACK_IDX};
  }

  /** What boot needs to get as far as the second fork. */
  ghost predicate MayBoot(vm: VirtualMemory)
    reads vm, vm.heap, vm.frames, vm.frames.frames, vm.frames.frames.bits
  {
    && vm.Valid() && !vm.heapReady && vm.dirs == map[] && vm.tabs == map[] && Complete(vm.ram)
    && vm.allocPtr <= 0xCFE0_0000 && vm.allocPtr + 0x9_0000 - KERN_OFFSET <= vm.frames.Count() * PG_SZ
    && vm.heap.ram[KHEAP_END] == 0 && vm.heap.heads == seq(BIN_CNT, _ => 0)
    && FramesToFork(vm.allocPtr) <= |FreeFrames(vm.Taken() + {0}, vm.frames.Count())|
  }

  /** The kernel runs with paging and all address spaces are as they should be. */
  ghost predicate Running(vm: VirtualMemory)
    reads vm, vm.heap, vm.frames, vm.frames.frames, vm.frames.frames.bits
  {
    && vm.Valid() && vm.heapReady && vm.currentDir in vm.dirs && vm.kernDir in vm.dirs && Complete(vm.ram)
    && SpacesApart(vm.dirs, vm.tabs, vm.Taken()) && Walkable(vm.dirs, vm.tabs, vm.kernDir, 0) && Sound(vm.tabs)
  }

  /** Then the current directory may be copied as soon as frames and tables are enough. */
  lemma RunningForks(vm: VirtualMemory)
    requires Running(vm) && CanPage(vm.heap.heap, DIR_SZ)
    requires |Rest(Now(vm, vm.currentDir, vm.currentDir), 0)| <= |FreeFrames(vm.Taken(), vm.frames.Count())|
    requires Rooms(Paged(vm.heap.heap, DIR_SZ), TAB_SZ) >= Total(Now(vm, vm.currentDir, vm.currentDir))
    ensures MayFork(vm, vm.currentDir)
  {
    hide VirtualMemory.Valid, FreeFrames, Rooms, Paged, CanPage, Complete, FrameOf, TablesApart, Total, Rest, Walkable;
    hide Sound;
    OwnSources(Now(vm, vm.currentDir, vm.currentDir), vm.currentDir);
  }

  lemma OwnSources(s: State, d: word)
    requires UsersOwn(s.dirs, s.tabs, s.taken) && d in s.dirs && s.dir == s.dirs[d]
    ensures SourcesOwn(s)
  {
    hide FrameOf;
    forall v | 0 <= v < USER_PAGES && Source(s, v) != 0
      ensures Source(s, v) in s.taken && !BacksKernel(s, Source(s, v))
    {
      assert Source(s, v) == FrameOf(s.dirs[d], s.tabs, v);
    }
  }

  /** Boots and maps the stack. */
  method BootStack(vm: VirtualMemory)
    requires MayBoot(vm)
    modifies vm`allocPtr, vm`heapReady, vm`dirs, vm`tabs, vm`kernDir, vm`currentDir, vm.heap, vm.frames.frames.bits
    ensures vm.dirs.Keys == {vm.kernDir} && vm.currentDir == vm.kernDir
    ensures OnlyStack(vm.dirs[vm.kernDir], vm.tabs) && vm.dirs[vm.kernDir].tables[WINDOW_IDX] == 0
    ensures Running(vm)
    ensures vm.heap.heap == PagedTimes(HeapSpec.Init(KHEAP_START, KHEAP_END), TAB_SZ, 1)
    ensures 2 * STACK_PAGES <= |FreeFrames(vm.Taken(), vm.frames.Count())|
  {
    hide EntryOf, FrameOf, DirOk, Get, Gets, TakenAfter, RangeMapped, Booted, SpacesApart, FreeFrames, LinearTaken;
    hide FirstFrame, HeapMemory.Rep, Lives, Rooms, Paged, PagedTimes, TablesFor, SameBut, OnlyStack, Walkable, CanPage;
    hide Sound;
    ghost var taken0, n := vm.Taken() + {0}, vm.frames.Count();
    CountFits(vm);
    var end := VmmInit(vm);
    ghost var d, f0, dirs, tabs, taken := vm.kernDir, FirstFrame(taken0, n), vm.dirs, vm.tabs, vm.Taken();
    BootedFrames(taken0, n, end, f0, taken);
    ValidDirs(vm);
    BootedApart(dirs, tabs, d, end, f0, taken0, n);
    TablesForStack(dirs[d]);
    ghost var h1 := PagedTimes(vm.heap.heap, TAB_SZ, 1);
    HeapServes(vm.heap.heap, h1, PagedTimes(Paged(h1, DIR_SZ), TAB_SZ, 2));
    var stack := AllocateStack(vm, STACK_BOTTOM, STACK_SZ, vm.kernDir);
    StackMapped(dirs[d], tabs, vm.dirs[d], vm.tabs, taken, n);
    FreeAfter(taken, n, STACK_PAGES);
  }

  /** Enough frames are left after boot. */
  lemma BootedFrames(taken0: set<nat>, n: nat, end: word, f0: nat, taken: set<nat>)
    requires n <= FRAME_CNT && KERN_OFFSET < end && 0 in taken0
    requires taken == TakenAfter(LinearTaken(taken0, LinearEnd(end), f0), n, HEAP_PAGES)
    requires (end - KERN_OFFSET) / PG_SZ + 3 + HEAP_PAGES + 3 * STACK_PAGES <= |FreeFrames(taken0, n)|
    ensures 0 in taken && 3 * STACK_PAGES <= |FreeFrames(taken, n)|
    ensures HEAP_PAGES <= |FreeFrames(LinearTaken(taken0, LinearEnd(end), f0), n)|
  {
    hide FreeFrames, TakenAfter;
    var linear := LinearTaken(taken0, LinearEnd(end), f0);
    FreeLinear(taken0, LinearEnd(end), f0, n);
    FreeAfter(linear, n, HEAP_PAGES);
  }

  lemma StackMapped(dir: PageDir, tabs: Tabs, dir': PageDir, tabs': Tabs, taken: set<nat>, n: nat)
    requires SameBut(dir, tabs, dir', tabs', STACK_PG, STACK_PG + STACK_PAGES) && n <= FRAME_CNT && 0 in taken
    requires RangeMapped(dir', tabs', STACK_PG, STACK_PAGES, STACK_PAGES, taken, n)
    requires STACK_PAGES <= |FreeFrames(taken, n)|
    requires forall v :: 0 <= v < USER_PAGES ==> FrameOf(dir, tabs, v) == 0
    ensures OnlyStack(dir', tabs')
  {
    hide EntryOf, RangeMapped, FreeFrames;
    forall v | 0 <= v < USER_PAGES
      ensures FrameOf(dir', tabs', v) != 0 <==> STACK_PG <= v < STACK_PG + STACK_PAGES
    {
      if STACK_PG <= v < STACK_PG + STACK_PAGES {
        RangeOwns(dir', tabs', STACK_PG, STACK_PAGES, taken, n, v, v);
      } else {
        assert FrameOf(dir', tabs', v) == FrameOf(dir, tabs, v);
      }
    }
  }

  /** The two directories show the same stack. */
  ghost predicate SameStack(dirs: Dirs, tabs: Tabs, ram: Contents, d: word, e: word) {
    && d in dirs && e in dirs && Complete(ram)
    && forall v :: STACK_PG <= v < STACK_PG + STACK_PAGES ==>
      ram[FrameOf(dirs[d], tabs, v)] == ram[FrameOf(dirs[e], tabs, v)]
  }

  /** Directory `copy` is new, has the stack of `cur` and the kernel's tables, and took four
      frames, a directory and the tables that were missing. */
  ghost predicate StackForked(a: Side, b: Side, ram: Contents, n: nat, cur: word, copy: word, k: word) {
    && cur in a.dirs && copy !in a.dirs && b.dirs.Keys == a.dirs.Keys + {copy} && k in b.dirs
    && (forall e :: e in a.dirs && OnlyStack(a.dirs[e], a.tabs) ==> OnlyStack(b.dirs[e], b.tabs))
    && OnlyStack(b.dirs[copy], b.tabs) && KernelShared(b.dirs[copy], b.dirs[k])
    && SameStack(b.dirs, b.tabs, ram, copy, cur)
    && b.heap == PagedTimes(Paged(a.heap, DIR_SZ), TAB_SZ, StackTables(a.dirs[cur]))
    && |FreeFrames(b.taken, n)| == |FreeFrames(a.taken, n)| - STACK_PAGES
  }

  /** Forks a process that has only its stack: the two directories share the kernel's tables
      and nothing in the user half, where both see the stack, each in frames of its own. */
  method ForkStack(vm: VirtualMemory) returns (copy: word)
    requires vm.currentDir in vm.dirs && OnlyStack(vm.dirs[vm.currentDir], vm.tabs)
    requires STACK_PAGES <= |FreeFrames(vm.Taken(), vm.frames.Count())| && CanPage(vm.heap.heap, DIR_SZ)
    requires Rooms(Paged(vm.heap.heap, DIR_SZ), TAB_SZ) >= StackTables(vm.dirs[vm.currentDir])
    requires Running(vm)
    modifies vm`allocPtr, vm`dirs, vm`tabs, vm`ram, vm.heap, vm.frames.frames.bits
    ensures Running(vm)
    ensures StackForked(old(SideOf(vm)), SideOf(vm), vm.ram, vm.frames.Count(), vm.currentDir, copy, vm.kernDir)
  {
    hide EntryOf, FrameOf, SpacesApart, FreeFrames, Undisturbed, Forked, Rest, Total, MayFork, OnlyStack, Walkable;
    hide VirtualMemory.Valid, Rooms, CanPage, Paged, PagedTimes, Complete, KernelShared, SourcesOwn, BacksKernel;
    hide Sound;
    ghost var s0 := Now(vm, vm.currentDir, vm.currentDir);
    StackNeeds(s0);
    RunningForks(vm);
    ForkSources(vm, vm.currentDir);
    copy := CopyPgDir(vm, vm.currentDir);
    ghost var s := Now(vm, vm.currentDir, copy);
    StackCopied(s0, s, s.dirs[vm.kernDir]);
    forall e | e in s0.dirs && OnlyStack(s0.dirs[e], s0.tabs)
      ensures OnlyStack(vm.dirs[e], vm.tabs)
    {
      StackStays(s0, s, vm.currentDir, copy, e);
    }
  }

  lemma ForkSources(vm: VirtualMemory, dir: word)
    requires MayFork(vm, dir)
    ensures dir in vm.dirs && SourcesOwn(Now(vm, dir, dir))
  {
    hide VirtualMemory.Valid, SourcesOwn, Walkable, TablesApart, Total, Rest, FreeFrames, FrameOf;
  }

  lemma StackStays(s0: State, s: State, dir: word, copy: word, e: word)
    requires Undisturbed(s0.dirs, s0.tabs, s.dirs, s.tabs, dir, copy) && e in s0.dirs && e != copy
    requires OnlyStack(s0.dirs[e], s0.tabs)
    ensures e in s.dirs && OnlyStack(s.dirs[e], s.tabs)
  {
    hide Kept, FrameOf, SameTables;
    assert SameSpace(s0.dirs[e], s0.tabs, s.dirs[e], s.tabs);
    forall v | 0 <= v < USER_PAGES
      ensures FrameOf(s.dirs[e], s.tabs, v) == FrameOf(s0.dirs[e], s0.tabs, v)
    {
      KeptAt(s0.dirs[e], s0.tabs, s.dirs[e], s.tabs, WINDOW_PG, v);
    }
  }

  lemma StackCopied(s0: State, s: State, kern: PageDir)
    requires Forked(s0, s, kern) && OnlyStack(s0.dir, s0.tabs) && SourcesOwn(s0)
    ensures Complete(s.ram) && OnlyStack(s.copy, s.tabs) && KernelShared(s.copy, kern)
    ensures forall v :: STACK_PG <= v < STACK_PG + STACK_PAGES ==>
      s.ram[FrameOf(s.copy, s.tabs, v)] == s.ram[FrameOf(s.dir, s.tabs, v)]
  {
    hide EntryOf, KernelShared, BacksKernel;
    forall v | 0 <= v < USER_PAGES
      ensures FrameOf(s.dir, s.tabs, v) == FrameOf(s0.dir, s0.tabs, v)
      ensures FrameOf(s0.dir, s0.tabs, v) != 0 <==> FrameOf(s.copy, s.tabs, v) != 0
      ensures FrameOf(s0.dir, s0.tabs, v) != 0 ==> s.ram[FrameOf(s.copy, s.tabs, v)] == s.ram[FrameOf(s.dir, s.tabs, v)]
    {
      assert EntryOf(s.dir, s.tabs, v) == EntryOf(s0.dir, s0.tabs, v);
      if Source(s0, v) != 0 { assert PageCopied(s0, s, v); }
    }
  }

  method SwitchTask(vm: VirtualMemory, d: word)
    requires d in vm.dirs && Running(vm)
    modifies vm`currentDir
    ensures Running(vm) && vm.currentDir == d
  {
    hide SpacesApart, Walkable, VirtualMemory.Valid, Complete, Sound;
    vm.SwitchTo(d);
  }

  /** Boot, the first stack, the copy of the kernel directory and the switch to it; and from
      there a second fork, as the kernel makes it right after setting up tasks. */
  method FirstForks(vm: VirtualMemory) returns (init: word, child: word)
    requires MayBoot(vm)
    modifies vm`allocPtr, vm`heapReady, vm`dirs, vm`tabs, vm`kernDir, vm`currentDir, vm`ram
    modifies vm.heap, vm.frames.frames.bits
    ensures Running(vm) && vm.currentDir == init && vm.kernDir != init && vm.kernDir != child && init != child
    ensures vm.dirs.Keys == {vm.kernDir, init, child} && forall d :: d in vm.dirs ==> OnlyStack(vm.dirs[d], vm.tabs)
    ensures SameStack(vm.dirs, vm.tabs, vm.ram, child, init)
  {
    hide FreeFrames, OnlyStack, Rooms, CanPage, Paged, PagedTimes, Running, StackForked, MayBoot, SameStack;
    hide VirtualMemory.Valid, Get, EntryOf, FrameOf;
    BootStack(vm);
    ghost var h := HeapSpec.Init(KHEAP_START, KHEAP_END);
    ghost var h1 := PagedTimes(h, TAB_SZ, 1);
    HeapServes(h, h1, PagedTimes(Paged(h1, DIR_SZ), TAB_SZ, 2));
    ghost var a := SideOf(vm);
    init := ForkStack(vm);
    ghost var b := SideOf(vm);
    StackForkedOnce(a, b, vm.ram, vm.frames.Count(), vm.kernDir, init, vm.kernDir);
    SwitchTask(vm, init);
    child := ForkStack(vm);
    StackForkedOnce(b, SideOf(vm), vm.ram, vm.frames.Count(), init, child, vm.kernDir);
  }

  lemma StackForkedOnce(a: Side, b: Side, ram: Contents, n: nat, cur: word, copy: word, k: word)
    requires StackForked(a, b, ram, n, cur, copy, k)
    ensures cur in a.dirs && copy !in a.dirs && b.dirs.Keys == a.dirs.Keys + {copy}
    ensures SameStack(b.dirs, b.tabs, ram, copy, cur)
    ensures (forall d :: d in a.dirs ==> OnlyStack(a.dirs[d], a.tabs)) ==>
      forall d :: d in b.dirs ==> OnlyStack(b.dirs[d], b.tabs)
    ensures b.heap == PagedTimes(Paged(a.heap, DIR_SZ), TAB_SZ, StackTables(a.dirs[cur]))
    ensures |FreeFrames(b.taken, n)| == |FreeFrames(a.taken, n)| - STACK_PAGES
  {
    hide FreeFrames, OnlyStack, Paged, PagedTimes, SameStack, KernelShared;
  }
}
