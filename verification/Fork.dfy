/** Copying an address space for a new process: the user half page by page into new
    frames, the kernel half by sharing its tables. */
module Fork {
  import opened Memory
  import opened Sets
  import opened Pmm
  import opened Paging
  import opened Vmm
  import opened HeapPages
  import opened Spaces
  import HeapMemory
  import HeapSpec

  /** What matters of the machine: all directories, the one copied from, the copy, tables,
      frame contents, taken frames and the kernel heap. */
  datatype State = State(dirs: Dirs, dir: PageDir, copy: PageDir, tabs: Tabs, ram: Contents, taken: set<nat>,
                         heap: HeapSpec.Heap)

  /** Page v of the original in the state the copy started from. */
  ghost function Source(s: State, v: nat): Frame
    requires v < PAGES
  {
    FrameOf(s.dir, s.tabs, v)
  }

  ghost function Target(s: State, v: nat): Frame
    requires v < PAGES
  {
    FrameOf(s.copy, s.tabs, v)
  }

  /** Frame f is behind a page of some directory's kernel half: tables, directories and the
      heap lie in such frames, so their contents change as these are written. */
  ghost predicate BacksKernel(s: State, f: Frame) {
    exists d, v :: d in s.dirs && USER_PAGES <= v < PAGES && FrameOf(s.dirs[d], s.tabs, v) == f
  }

  /** The original's user frames are taken and behind no page of the kernel half. */
  ghost predicate SourcesOwn(s: State) {
    forall v :: 0 <= v < USER_PAGES && Source(s, v) != 0 ==> Source(s, v) in s.taken && !BacksKernel(s, Source(s, v))
  }

  /** The pages below k are copied, nothing else has changed for the original. */
  ghost predicate Copied(s0: State, s: State, k: nat) {
    && Complete(s0.ram) && Complete(s.ram)
    && Source(s, WINDOW_PG) == 0
    && (forall v :: 0 <= v < USER_PAGES ==> EntryOf(s.dir, s.tabs, v) == EntryOf(s0.dir, s0.tabs, v))
    && (forall v :: 0 <= v < PAGES && !(v < k && v < USER_PAGES && Source(s0, v) != 0) ==>
          Target(s, v) == 0 && Vacant(EntryOf(s.copy, s.tabs, v)))
    && (forall v :: 0 <= v < k && v < USER_PAGES && Source(s0, v) != 0 ==> PageCopied(s0, s, v))
    && (forall u, v :: 0 <= u < v < k && v < USER_PAGES && Source(s0, u) != 0 && Source(s0, v) != 0 ==>
      Target(s, u) != Target(s, v))
    && (forall f: Frame :: f in s0.taken ==> f in s.taken && (!BacksKernel(s0, f) ==> s.ram[f] == s0.ram[f]))
  }

  /** Page v of the copy is shown and has the original's contents in a frame of its own. */
  ghost predicate PageCopied(s0: State, s: State, v: nat)
    requires v < PAGES && Complete(s0.ram) && Complete(s.ram)
  {
    && Target(s, v) != 0 && Target(s, v) !in s0.taken && Target(s, v) in s.taken
    && s.ram[Target(s, v)] == s0.ram[Source(s0, v)] && Shown(EntryOf(s.copy, s.tabs, v))
  }

  /** The mapped user pages from page number k on. */
  ghost function Rest(s0: State, k: nat): set<nat> {
    set v: nat | k <= v < USER_PAGES && Source(s0, v) != 0
  }

  /** Some page of table i of the original is mapped. */
  ghost predicate HasPages(s0: State, i: nat) {
    exists v :: 0 <= v < USER_PAGES && v / ENTRIES == i && Source(s0, v) != 0
  }

  /** The tables from index i on that the copy still needs. */
  ghost function Missing(s0: State, copy: PageDir, i: nat): set<nat> {
    set j: nat | i <= j < KERN_IDX && copy.tables[j] == 0 && HasPages(s0, j)
  }

  ghost function Now(vm: VirtualMemory, dir: word, copy: word): State
    requires dir in vm.dirs && copy in vm.dirs
    reads vm, vm.heap, vm.frames, vm.frames.frames, vm.frames.frames.bits
  {
    State(vm.dirs, vm.dirs[dir], vm.dirs[copy], vm.tabs, vm.ram, vm.Taken(), vm.heap.heap)
  }

  // ------------------------------------------- what the copy leaves as it was

  /** Every page keeps its entry, except that the window's may change where it has no frame
      before or after. */
  ghost predicate SameSpace(dir: PageDir, tabs: Tabs, dir': PageDir, tabs': Tabs) {
    Kept(dir, tabs, dir', tabs', WINDOW_PG) && FrameOf(dir', tabs', WINDOW_PG) == FrameOf(dir, tabs, WINDOW_PG)
  }

  /** All directories but the copy are still there, only `dir` may have got a table for the
      window, and in each of them every page is what it was. */
  ghost predicate Undisturbed(dirs: Dirs, tabs: Tabs, dirs': Dirs, tabs': Tabs, dir: word, copy: word) {
    && dir in dirs && dirs.Keys <= dirs'.Keys
    && (forall e :: e in dirs && e != copy && e != dir ==> dirs'[e] == dirs[e])
    && SameTables(dirs[dir], dirs'[dir], WINDOW_IDX)
    && (forall e :: e in dirs && e != copy ==> SameSpace(dirs[e], tabs, dirs'[e], tabs'))
  }

  lemma UndisturbedTrans(d0: Dirs, t0: Tabs, d1: Dirs, t1: Tabs, d2: Dirs, t2: Tabs, dir: word, copy: word)
    requires Undisturbed(d0, t0, d1, t1, dir, copy) && Undisturbed(d1, t1, d2, t2, dir, copy)
    ensures Undisturbed(d0, t0, d2, t2, dir, copy)
  {
    hide Kept, FrameOf;
    forall e | e in d0 && e != copy
      ensures SameSpace(d0[e], t0, d2[e], t2)
    {
      assert SameSpace(d0[e], t0, d1[e], t1) && SameSpace(d1[e], t1, d2[e], t2);
      KeptTrans(d0[e], t0, d1[e], t1, d2[e], t2, WINDOW_PG, WINDOW_PG, WINDOW_PG);
    }
  }

  lemma DirSame(dirs: Dirs, tabs: Tabs, dirs': Dirs, tabs': Tabs, dir: word, copy: word)
    requires Undisturbed(dirs, tabs, dirs', tabs', dir, copy) && dir != copy
    ensures SameSpace(dirs[dir], tabs, dirs'[dir], tabs')
  {
    hide SameSpace;
  }

  /** While the window is mapped through table t, the directories that hold the table show
      it, and it was clear in them. */
  ghost predicate WindowOpen(dirs: Dirs, tabs: Tabs, dirs': Dirs, tabs': Tabs, copy: word, t: word) {
    dirs'.Keys == dirs.Keys && forall e :: e in dirs && e != copy ==> OpenIn(dirs[e], tabs, dirs'[e], tabs', t)
  }

  ghost predicate OpenIn(dir: PageDir, tabs: Tabs, dir': PageDir, tabs': Tabs, t: word) {
    && Kept(dir, tabs, dir', tabs', WINDOW_PG)
    && FrameOf(dir, tabs, WINDOW_PG) == if dir'.tables[WINDOW_IDX] == t then 0 else FrameOf(dir', tabs', WINDOW_PG)
  }

  /** Clearing the window's entry in table t clears it in the directories that hold the table. */
  ghost predicate WindowShut(dirs: Dirs, tabs: Tabs, tabs': Tabs, copy: word, t: word) {
    forall e :: e in dirs && e != copy ==> ShutIn(dirs[e], tabs, tabs', t)
  }

  ghost predicate ShutIn(dir: PageDir, tabs: Tabs, tabs': Tabs, t: word) {
    && Kept(dir, tabs, dir, tabs', WINDOW_PG)
    && FrameOf(dir, tabs', WINDOW_PG) == if dir.tables[WINDOW_IDX] == t then 0 else FrameOf(dir, tabs, WINDOW_PG)
  }

  lemma OpenedAndShut(d0: Dirs, t0: Tabs, d1: Dirs, t1: Tabs, t2: Tabs, dir: word, copy: word, t: word)
    requires WindowOpen(d0, t0, d1, t1, copy, t) && WindowShut(d1, t1, t2, copy, t) && dir in d0
    requires (forall e :: e in d0 && e != dir ==> d1[e] == d0[e]) && SameTables(d0[dir], d1[dir], WINDOW_IDX)
    ensures Undisturbed(d0, t0, d1, t2, dir, copy)
  {
    hide Kept, FrameOf;
    forall e | e in d0 && e != copy
      ensures SameSpace(d0[e], t0, d1[e], t2)
    {
      assert OpenIn(d0[e], t0, d1[e], t1, t) && ShutIn(d1[e], t1, t2, t);
      KeptTrans(d0[e], t0, d1[e], t1, d1[e], t2, WINDOW_PG, WINDOW_PG, WINDOW_PG);
    }
  }

  /** Another directory while the window is mapped in directory `dir`. */
  lemma OpenElsewhere(dirs: Dirs, tabs: Tabs, dirs': Dirs, tabs': Tabs, dir: word, e: word, t: word)
    requires TablesApart(dirs') && dir in dirs && e in dirs && e != dir
    requires dirs'.Keys == dirs.Keys && dirs'[e] == dirs[e]
    requires AllOk(dirs, tabs) && FrameOf(dirs[dir], tabs, WINDOW_PG) == 0
    requires t != 0 && dirs'[dir].tables[WINDOW_IDX] == t && (t == dirs[dir].tables[WINDOW_IDX] || t !in tabs)
    requires t in tabs' && Sees(dirs[e], tabs, tabs', t, 0)
    ensures OpenIn(dirs[e], tabs, dirs'[e], tabs', t)
  {
    hide Kept;
    assert DirOk(dirs[e], tabs) && PairApart(dirs'[e], dirs'[dir], e == dir);
    SeenOnce(dirs[e], tabs, tabs', t, WINDOW_IDX, 0);
  }

  lemma ShutElsewhere(dirs: Dirs, tabs: Tabs, tabs': Tabs, dir: word, e: word, t: word)
    requires TablesApart(dirs) && AllOk(dirs, tabs) && dir in dirs && e in dirs
    requires t != 0 && dirs[dir].tables[WINDOW_IDX] == t && t in tabs && tabs' == SetPte(tabs, t, 0, NO_PAGE)
    ensures ShutIn(dirs[e], tabs, tabs', t)
  {
    hide Kept;
    assert DirOk(dirs[e], tabs) && PairApart(dirs[e], dirs[dir], e == dir);
    SetPteSeen(dirs[e], tabs, t, 0, NO_PAGE);
    SeenOnce(dirs[e], tabs, tabs', t, WINDOW_IDX, 0);
  }

  // ----------------------------------------------------------------- one page

  /** Frame f gets the contents of frame g. */
  ghost function Filled(ram: Contents, f: int, g: Frame): Contents {
    if 0 <= f < FRAME_CNT && g in ram then ram[f := ram[g]] else ram
  }

  /** One more page copied. */
  lemma CopyStep(s0: State, s: State, s': State, k: nat, f: Frame)
    requires Copied(s0, s, k) && k < USER_PAGES && Source(s0, k) != 0 && SourcesOwn(s0)
    requires f != 0 && f !in s.taken && s'.taken == s.taken + {f} && s'.ram == Filled(s.ram, f, Source(s0, k))
    requires Source(s', WINDOW_PG) == 0
    requires Kept(s.dir, s.tabs, s'.dir, s'.tabs, WINDOW_PG)
    requires Target(s', k) == f && Kept(s.copy, s.tabs, s'.copy, s'.tabs, k) && Shown(EntryOf(s'.copy, s'.tabs, k))
    ensures Copied(s0, s', k + 1)
  {
    hide EntryOf, Kept, BacksKernel;
    assert s'.ram == s.ram[f := s.ram[Source(s0, k)]];
    forall v | 0 <= v < PAGES && v != k
      ensures Target(s', v) == Target(s, v) && EntryOf(s'.copy, s'.tabs, v) == EntryOf(s.copy, s.tabs, v)
    {
      KeptAt(s.copy, s.tabs, s'.copy, s'.tabs, k, v);
    }
    forall v | 0 <= v < USER_PAGES
      ensures EntryOf(s'.dir, s'.tabs, v) == EntryOf(s.dir, s.tabs, v)
    {
      KeptAt(s.dir, s.tabs, s'.dir, s'.tabs, WINDOW_PG, v);
    }
    forall v | 0 <= v < k + 1 && v < USER_PAGES && Source(s0, v) != 0
      ensures PageCopied(s0, s', v)
    {
      if v < k {
        assert PageCopied(s0, s, v) && Target(s, v) != f;
      } else {
        assert s'.ram[f] == s.ram[Source(s0, k)];
      }
    }
    forall u, v | 0 <= u < v < k + 1 && v < USER_PAGES && Source(s0, u) != 0 && Source(s0, v) != 0
      ensures Target(s', u) != Target(s', v)
    {
      assert PageCopied(s0, s, u);
    }
  }

  /** A page that is not mapped needs no copy. */
  lemma SkipStep(s0: State, s: State, k: nat)
    requires Copied(s0, s, k) && (k < USER_PAGES ==> Source(s0, k) == 0)
    ensures Copied(s0, s, k + 1)
    ensures Rest(s0, k + 1) == Rest(s0, k)
  {
    hide EntryOf;
  }

  lemma RestStep(s0: State, k: nat, taken: set<nat>, n: nat, f: nat)
    requires k < USER_PAGES && Source(s0, k) != 0 && f < n && f !in taken
    ensures |Rest(s0, k + 1)| == |Rest(s0, k)| - 1 && |FreeFrames(taken + {f}, n)| == |FreeFrames(taken, n)| - 1
  {
    hide EntryOf;
    assert Rest(s0, k) == Rest(s0, k + 1) + {k};
    assert FreeFrames(taken, n) == FreeFrames(taken + {f}, n) + {f};
  }

  lemma SomeFree(s0: State, k: nat, taken: set<nat>, n: nat)
    requires k < USER_PAGES && Source(s0, k) != 0 && |Rest(s0, k)| <= |FreeFrames(taken, n)|
    ensures Get(taken, n).0 != NO_FRAME
  {
    hide EntryOf, Get;
    assert k in Rest(s0, k);
    GetFull(taken, n);
    assert (forall f: nat :: f < n ==> f in taken) ==> FreeFrames(taken, n) == {};
  }

  /** The kernel half is still empty. */
  ghost predicate Blank(dir: PageDir) {
    forall j :: KERN_IDX <= j < ENTRIES ==> dir.tables[j] == 0
  }

  /** The two directories the copy works on. */
  ghost predicate Pair(vm: VirtualMemory, dir: word, copy: word)
    reads vm, vm.heap, vm.frames, vm.frames.frames
  {
    && vm.Valid() && vm.heapReady && dir == vm.currentDir && dir in vm.dirs && copy in vm.dirs && dir != copy
    && TablesApart(vm.dirs) && Blank(vm.dirs[copy]) && Complete(vm.ram)
    && Walkable(vm.dirs, vm.tabs, vm.kernDir, copy)
  }

  lemma PairFacts(vm: VirtualMemory, dir: word, copy: word)
    requires Pair(vm, dir, copy)
    ensures vm.Valid() && vm.heapReady && dir == vm.currentDir && dir in vm.dirs && copy in vm.dirs && dir != copy
    ensures TablesApart(vm.dirs) && Blank(vm.dirs[copy]) && Complete(vm.ram)
    ensures Walkable(vm.dirs, vm.tabs, vm.kernDir, copy) && vm.kernDir in vm.dirs && vm.kernDir != copy
    ensures vm.frames.Count() <= FRAME_CNT && AllOk(vm.dirs, vm.tabs)
  {
    hide VirtualMemory.Supplied, TablesApart, Blank, Complete, RegionsApart, DirOk, DirPhys, SameKernel;
  }

  lemma PairIs(vm: VirtualMemory, dir: word, copy: word)
    requires vm.Valid() && vm.heapReady && dir == vm.currentDir && dir in vm.dirs && copy in vm.dirs && dir != copy
    requires TablesApart(vm.dirs) && Blank(vm.dirs[copy]) && Complete(vm.ram)
    requires Walkable(vm.dirs, vm.tabs, vm.kernDir, copy)
    ensures Pair(vm, dir, copy)
  {
    hide VirtualMemory.Valid, TablesApart, Blank, Complete, Walkable;
  }

  lemma ValidDirs(vm: VirtualMemory)
    requires vm.Valid()
    ensures AllOk(vm.dirs, vm.tabs)
  {
    hide DirOk, HeapMemory.Rep;
  }

  /** Page-sized `memcpy` from one page of the current directory to another. */
  method CopyBytes(vm: VirtualMemory, dir: word, copy: word, src: word, dst: word)
    requires dir in vm.dirs && src % PG_SZ == 0 && dst % PG_SZ == 0 && src / PG_SZ < PAGES && dst / PG_SZ < PAGES
    requires Pair(vm, dir, copy)
    modifies vm`ram
    ensures Pair(vm, dir, copy)
    ensures vm.ram == Filled(old(vm.ram), FrameOf(vm.dirs[dir], vm.tabs, dst / PG_SZ),
      FrameOf(vm.dirs[dir], vm.tabs, src / PG_SZ))
  {
    hide Pair, TablesApart, Blank, Walkable, AllOk, FrameOf, DirOk, HeapMemory.Rep, Lives, RegionsApart;
    PairFacts(vm, dir, copy);
    var from := FrameOf(vm.dirs[vm.currentDir], vm.tabs, src / PG_SZ);
    var to := FrameOf(vm.dirs[vm.currentDir], vm.tabs, dst / PG_SZ);
    vm.ram := vm.ram[to := vm.ram[from]];
    PairIs(vm, dir, copy);
  }

  /** The lowest free frame. */
  method TakeFrame(vm: VirtualMemory, ghost dir: word, ghost copy: word) returns (frame: word)
    requires Pair(vm, dir, copy) && 0 in vm.Taken() && Get(vm.Taken(), vm.frames.Count()).0 != NO_FRAME
    modifies vm.frames.frames.bits
    ensures Pair(vm, dir, copy)
    ensures var f := frame / PG_SZ;
      frame == f * PG_SZ && 0 < f < vm.frames.Count() && f !in old(vm.Taken()) && vm.Taken() == old(vm.Taken()) + {f}
  {
    hide EntryOf, DirOk, TablesApart, Complete, Get, Least, HeapMemory.Rep, Lives;
    GetFresh(vm.Taken(), vm.frames.Count());
    frame := vm.frames.GetFrame();
  }

  lemma TimesFew(h: HeapSpec.Heap)
    ensures PagedTimes(h, TAB_SZ, 0) == h && PagedTimes(h, TAB_SZ, 1) == Paged(h, TAB_SZ)
  {
    hide Paged;
  }

  /** The table at index i was there, or is new, from the kernel heap, and entered with the
      physical address that the current directory tells. */
  ghost predicate TableMade(dirs: Dirs, tabs: Tabs, dirs': Dirs, cur: word, d: word, i: nat, t: word)
    requires cur in dirs && d in dirs && i < ENTRIES
  {
    if dirs[d].tables[i] != 0 then dirs' == dirs && t == dirs[d].tables[i]
    else
      && KHEAP_START < t < KHEAP_END && t % PG_SZ == 0
      && dirs' == dirs[d := WithTable(dirs[d], i, t, Physical(dirs[cur], tabs, t))]
  }

  /** Whether or not the table is new, the processor's view stays right. */
  lemma TableWalk(dirs: Dirs, tabs: Tabs, dirs': Dirs, tabs': Tabs, k: word, but: word, cur: word, d: word, i: nat,
                  t: word)
    requires Walkable(dirs, tabs, k, but) && cur in dirs && cur != but && d in dirs && i < ENTRIES
    requires TableMade(dirs, tabs, dirs', cur, d, i, t) && (i < KERN_IDX || i == WINDOW_IDX) && k in dirs'
    requires KernFrames(dirs[k], tabs, dirs'[k], tabs')
    ensures Walkable(dirs', tabs', k, but)
  {
    hide Walkable, KernFrames, Physical, WithTable;
    if dirs[d].tables[i] != 0 {
      WalkKept(dirs, tabs, tabs', k, but);
    } else {
      WalkTable(dirs, tabs, dirs', tabs', k, but, cur, d, i, t);
    }
  }

  /** Tables and directories lie in no user page and not in the window. */
  lemma KeptFrames(kern: PageDir, tabs: Tabs, kern': PageDir, tabs': Tabs, but: nat)
    requires Kept(kern, tabs, kern', tabs', but) && (but < USER_PAGES || but >= WINDOW_PG)
    ensures KernFrames(kern, tabs, kern', tabs')
  {
    hide EntryOf;
  }

  /** Page `va` of directory d, clear before, has the frame; its table was made if need be. */
  ghost predicate FixedTo(a: Side, b: Side, cur: word, d: word, va: word, frame: word, t: word) {
    && d in a.dirs && cur in a.dirs && va / PG_SZ < PAGES && PdIdx(va) < ENTRIES && PtIdx(va) < ENTRIES
    && frame / PG_SZ < FRAME_CNT && b.dirs.Keys == a.dirs.Keys && (forall e :: e in a.dirs && e != d ==>
      b.dirs[e] == a.dirs[e])
    && b.heap == PagedTimes(a.heap, TAB_SZ, if a.dirs[d].tables[PdIdx(va)] == 0 then 1 else 0)
    && TableMade(a.dirs, a.tabs, b.dirs, cur, d, PdIdx(va), t)
    && t != 0 && t in b.tabs && (t == a.dirs[d].tables[PdIdx(va)] || t !in a.tabs)
    && b.dirs[d].tables == a.dirs[d].tables[PdIdx(va) := t] && SameTables(a.dirs[d], b.dirs[d], PdIdx(va))
    && (forall e :: e in a.dirs && e != d ==> Sees(b.dirs[e], a.tabs, b.tabs, t, PtIdx(va)))
    && Changed(a.dirs[d], a.tabs, b.dirs[d], b.tabs, va / PG_SZ, Pte(true, true, false, frame / PG_SZ))
    && b.taken == a.taken + {frame / PG_SZ} && (Sound(a.tabs) ==> Sound(b.tabs))
  }

  /** Maps a clear page to a given frame; its table is made if need be. */
  method MapFixed(vm: VirtualMemory, va: word, frame: word, d: word) returns (page: PtePtr)
    requires d in vm.dirs && va / PG_SZ < PAGES && PdIdx(va) < ENTRIES && PtIdx(va) < ENTRIES
    requires FrameOf(vm.dirs[d], vm.tabs, va / PG_SZ) == 0 && 0 < frame / PG_SZ < vm.frames.Count()
    requires vm.dirs[d].tables[PdIdx(va)] == 0 ==> vm.Room() > 0
    requires vm.Valid() && vm.heapReady
    modifies vm`allocPtr, vm`dirs, vm`tabs, vm.heap, vm.frames.frames.bits
    ensures vm.Valid() && page.PteAt? && page.idx == PtIdx(va)
    ensures FixedTo(old(SideOf(vm)), SideOf(vm), vm.currentDir, d, va, frame, page.tab)
  {
    hide EntryOf, FrameOf, Get, Sees, Rooms, Changed, SameTables, VirtualMemory.Valid, Paged, PagePtr, Physical;
    hide WithTable, Sound;
    TimesFew(vm.heap.heap);
    ghost var p, taken := EntryOf(vm.dirs[d], vm.tabs, va / PG_SZ), vm.Taken();
    ghost var dir0, tabs0 := vm.dirs[d], vm.tabs;
    EntryFrame(vm.dirs[d], vm.tabs, va / PG_SZ);
    CountFits(vm);
    page := vm.MapAt(va, true, true, frame, d);
    assert MapPte(p, true, true, frame, taken, vm.frames.Count()) ==
      (Pte(true, true, false, frame / PG_SZ), taken + {frame / PG_SZ});
    ChangedHere(dir0, tabs0, vm.dirs[d], vm.tabs, va / PG_SZ, Pte(true, true, false, frame / PG_SZ));
  }

  // ----------------------------------------------------------------- the window

  /** The window is mapped to the frame in directory `dir`. */
  ghost predicate Opened(a: Side, b: Side, dir: word, copy: word, frame: word, t: word) {
    && dir in a.dirs && copy in a.dirs && b.dirs.Keys == a.dirs.Keys
    && (forall e :: e in a.dirs && e != dir ==> b.dirs[e] == a.dirs[e])
    && b.heap == PagedTimes(a.heap, TAB_SZ, if a.dirs[dir].tables[WINDOW_IDX] == 0 then 1 else 0)
    && SameTables(a.dirs[dir], b.dirs[dir], WINDOW_IDX) && b.dirs[dir].tables[WINDOW_IDX] == t != 0
    && WindowOpen(a.dirs, a.tabs, b.dirs, b.tabs, copy, t)
    && FrameOf(b.dirs[dir], b.tabs, WINDOW_PG) == frame / PG_SZ
    && Kept(a.dirs[copy], a.tabs, b.dirs[copy], b.tabs, PAGES) && b.taken == a.taken + {frame / PG_SZ}
    && (Sound(a.tabs) ==> Sound(b.tabs))
  }

  lemma FixedOpens(a: Side, b: Side, dir: word, copy: word, k: word, frame: word, t: word)
    requires FixedTo(a, b, dir, dir, WINDOW, frame, t) && copy in a.dirs && copy != dir && k in a.dirs
    requires TablesApart(a.dirs) && AllOk(a.dirs, a.tabs) && Blank(a.dirs[copy]) && Walkable(a.dirs, a.tabs, k, copy)
    requires FrameOf(a.dirs[dir], a.tabs, WINDOW_PG) == 0
    ensures Opened(a, b, dir, copy, frame, t) && TablesApart(b.dirs) && Walkable(b.dirs, b.tabs, k, copy)
  {
    hide Kept, FrameOf, TablesApart, AllOk, Blank, Changed, Sees, SameTables, TableMade, KernFrames, WindowOpen;
    hide DirPhys, SameKernel, Sound;
    assert PdIdx(WINDOW) == WINDOW_IDX && PtIdx(WINDOW) == 0 && WINDOW / PG_SZ == WINDOW_PG;
    WindowMapped(a.dirs, a.tabs, b.dirs, b.tabs, dir, copy, t, Pte(true, true, false, frame / PG_SZ));
    OpenFrames(a.dirs, a.tabs, b.dirs, b.tabs, copy, k, t);
    TableWalk(a.dirs, a.tabs, b.dirs, b.tabs, k, copy, dir, dir, WINDOW_IDX, t);
  }

  /** The window gets a frame; its table is made if need be. */
  method MapWindow(vm: VirtualMemory, dir: word, copy: word, frame: word) returns (page: PtePtr)
    requires dir in vm.dirs && (vm.dirs[dir].tables[WINDOW_IDX] == 0 ==> vm.Room() > 0)
    requires FrameOf(vm.dirs[dir], vm.tabs, WINDOW_PG) == 0 && 0 < frame / PG_SZ < vm.frames.Count()
    requires Pair(vm, dir, copy)
    modifies vm`allocPtr, vm`dirs, vm`tabs, vm.heap, vm.frames.frames.bits
    ensures Pair(vm, dir, copy) && page.PteAt? && page.idx == 0
    ensures Opened(old(SideOf(vm)), SideOf(vm), dir, copy, frame, page.tab)
  {
    hide Pair, VirtualMemory.Valid, FixedTo, Opened, TablesApart, Blank, Complete, Walkable, AllOk, FrameOf;
    PairFacts(vm, dir, copy);
    ghost var a := SideOf(vm);
    assert PdIdx(WINDOW) == WINDOW_IDX && PtIdx(WINDOW) == 0 && WINDOW / PG_SZ == WINDOW_PG;
    page := MapFixed(vm, WINDOW, frame, dir);
    FixedOpens(a, SideOf(vm), dir, copy, vm.kernDir, frame, page.tab);
    OpenedDirs(a, SideOf(vm), dir, copy, frame, page.tab);
    PairIs(vm, dir, copy);
  }

  lemma OpenedDirs(a: Side, b: Side, dir: word, copy: word, frame: word, t: word)
    requires Opened(a, b, dir, copy, frame, t) && dir != copy
    ensures dir in b.dirs && copy in b.dirs && b.dirs[copy] == a.dirs[copy]
  {
    hide FrameOf, Kept, WindowOpen;
  }

  lemma OpenFrames(dirs: Dirs, tabs: Tabs, dirs': Dirs, tabs': Tabs, copy: word, k: word, t: word)
    requires WindowOpen(dirs, tabs, dirs', tabs', copy, t) && k in dirs && k != copy
    ensures KernFrames(dirs[k], tabs, dirs'[k], tabs')
  {
    hide Kept, FrameOf, KernFrames;
    assert OpenIn(dirs[k], tabs, dirs'[k], tabs', t);
    KeptFrames(dirs[k], tabs, dirs'[k], tabs', WINDOW_PG);
  }

  lemma WindowMapped(dirs: Dirs, tabs: Tabs, dirs': Dirs, tabs': Tabs, dir: word, copy: word, t: word, p: Pte)
    requires TablesApart(dirs) && AllOk(dirs, tabs) && dir in dirs && copy in dirs && dir != copy
    requires dirs'.Keys == dirs.Keys && (forall e :: e in dirs && e != dir ==> dirs'[e] == dirs[e]) && Blank(dirs[copy])
    requires t != 0 && t in tabs' && dirs'[dir].tables == dirs[dir].tables[WINDOW_IDX := t]
    requires t == dirs[dir].tables[WINDOW_IDX] || t !in tabs
    requires forall e :: e in dirs && e != dir ==> Sees(dirs[e], tabs, tabs', t, 0)
    requires Changed(dirs[dir], tabs, dirs'[dir], tabs', WINDOW_PG, p) && FrameOf(dirs[dir], tabs, WINDOW_PG) == 0
    ensures TablesApart(dirs') && WindowOpen(dirs, tabs, dirs', tabs', copy, t)
    ensures FrameOf(dirs'[dir], tabs', WINDOW_PG) == p.addr && Kept(dirs[copy], tabs, dirs'[copy], tabs', PAGES)
  {
    hide EntryOf, TablesApart, AllOk, Sees, OpenIn, FrameOf, Changed;
    TableAdded(dirs, dirs', tabs, dir, WINDOW_IDX, t);
    OpenHere(dirs[dir], tabs, dirs'[dir], tabs', p.addr, p, t);
    forall e | e in dirs && e != copy
      ensures OpenIn(dirs[e], tabs, dirs'[e], tabs', t)
    {
      if e != dir { OpenElsewhere(dirs, tabs, dirs', tabs', dir, e, t); }
    }
    BlankHolds(dirs', dir, copy, t);
    NotSeen(dirs[copy], tabs, tabs', t, 0);
  }

  lemma OpenHere(dir: PageDir, tabs: Tabs, dir': PageDir, tabs': Tabs, f: nat, p: Pte, t: word)
    requires Changed(dir, tabs, dir', tabs', WINDOW_PG, p) && p.addr == f && FrameOf(dir, tabs, WINDOW_PG) == 0
    requires dir'.tables[WINDOW_IDX] == t
    ensures OpenIn(dir, tabs, dir', tabs', t) && FrameOf(dir', tabs', WINDOW_PG) == f
  {
    hide EntryOf;
  }

  /** The copy does not hold the window's table. */
  lemma BlankHolds(dirs: Dirs, dir: word, copy: word, t: word)
    requires TablesApart(dirs) && dir in dirs && copy in dirs
    requires Blank(dirs[copy]) && t == dirs[dir].tables[WINDOW_IDX] != 0
    ensures forall i :: 0 <= i < ENTRIES ==> dirs[copy].tables[i] != t
  {
    assert PairApart(dirs[copy], dirs[dir], copy == dir);
  }

  /** The window's entry is clear again and its frame released. */
  ghost predicate Shut(a: Side, b: Side, dir: word, copy: word, t: word) {
    && b.dirs == a.dirs && b.heap == a.heap && dir in a.dirs && copy in a.dirs
    && WindowShut(a.dirs, a.tabs, b.tabs, copy, t)
    && Kept(a.dirs[copy], a.tabs, b.dirs[copy], b.tabs, PAGES)
    && b.taken == a.taken - {FrameOf(a.dirs[dir], a.tabs, WINDOW_PG) as nat}
    && (Sound(a.tabs) ==> Sound(b.tabs))
  }

  lemma ClearedShuts(a: Side, b: Side, dir: word, copy: word, k: word, t: word)
    requires b.dirs == a.dirs && b.heap == a.heap && dir in a.dirs && copy in a.dirs && dir != copy && k in a.dirs
    requires t != 0 && a.dirs[dir].tables[WINDOW_IDX] == t && t in a.tabs && b.tabs == SetPte(a.tabs, t, 0, NO_PAGE)
    requires b.taken == a.taken - {FrameOf(a.dirs[dir], a.tabs, WINDOW_PG) as nat}
    requires TablesApart(a.dirs) && AllOk(a.dirs, a.tabs) && Blank(a.dirs[copy]) && Walkable(a.dirs, a.tabs, k, copy)
    ensures Shut(a, b, dir, copy, t) && Walkable(b.dirs, b.tabs, k, copy)
  {
    hide Kept, FrameOf, TablesApart, Blank, Sees, ShutIn, DirPhys, SameKernel, KernFrames, DirOk, Sound;
    SoundStep(a.tabs, a.tabs, t, 0, NO_PAGE);
    forall e | e in a.dirs
      ensures ShutIn(a.dirs[e], a.tabs, b.tabs, t)
    {
      ShutElsewhere(a.dirs, a.tabs, b.tabs, dir, e, t);
    }
    ShutFrames(a.dirs, a.tabs, b.tabs, copy, k, t);
    WalkKept(a.dirs, a.tabs, b.tabs, k, copy);
    BlankHolds(a.dirs, dir, copy, t);
    SetPteSeen(a.dirs[copy], a.tabs, t, 0, NO_PAGE);
    NotSeen(a.dirs[copy], a.tabs, b.tabs, t, 0);
  }

  lemma ShutFrames(dirs: Dirs, tabs: Tabs, tabs': Tabs, copy: word, k: word, t: word)
    requires WindowShut(dirs, tabs, tabs', copy, t) && k in dirs && k != copy
    ensures KernFrames(dirs[k], tabs, dirs[k], tabs')
  {
    hide Kept, FrameOf, KernFrames;
    assert ShutIn(dirs[k], tabs, tabs', t);
    KeptFrames(dirs[k], tabs, dirs[k], tabs', WINDOW_PG);
  }

  /** The window gives its frame back. */
  method UnmapWindow(vm: VirtualMemory, dir: word, copy: word, page: PtePtr)
    requires dir in vm.dirs && vm.dirs[dir].tables[WINDOW_IDX] != 0
    requires page == PteAt(vm.dirs[dir].tables[WINDOW_IDX], 0)
    requires 0 < FrameOf(vm.dirs[dir], vm.tabs, WINDOW_PG) < vm.frames.Count()
    requires Pair(vm, dir, copy)
    modifies vm`tabs, vm.frames.frames.bits
    ensures Pair(vm, dir, copy) && Shut(old(SideOf(vm)), SideOf(vm), dir, copy, page.tab)
  {
    hide Pair, VirtualMemory.Valid, Shut, TablesApart, Blank, Complete, Walkable, DirOk;
    PairFacts(vm, dir, copy);
    ghost var a := SideOf(vm);
    TableThere(vm.dirs[dir], vm.tabs, WINDOW_IDX);
    vm.UnmapPage(page);
    ClearedShuts(a, SideOf(vm), dir, copy, vm.kernDir, page.tab);
    PairIs(vm, dir, copy);
  }

  /** After the window was opened and shut again only its table may be new. */
  ghost predicate Passed(a: Side, b: Side, dir: word, copy: word) {
    && dir in a.dirs && copy in a.dirs && b.dirs.Keys == a.dirs.Keys && b.dirs[copy] == a.dirs[copy]
    && b.dirs[dir].tables[WINDOW_IDX] != 0 && b.taken == a.taken
    && b.heap == PagedTimes(a.heap, TAB_SZ, if a.dirs[dir].tables[WINDOW_IDX] == 0 then 1 else 0)
    && Undisturbed(a.dirs, a.tabs, b.dirs, b.tabs, dir, copy)
    && Kept(a.dirs[copy], a.tabs, b.dirs[copy], b.tabs, PAGES) && (Sound(a.tabs) ==> Sound(b.tabs))
  }

  lemma OpenShutPasses(a: Side, f: nat, b: Side, c: Side, dir: word, copy: word, frame: word, t: word)
    requires dir != copy && f == frame / PG_SZ && f !in a.taken
    requires Opened(a.(taken := a.taken + {f}), b, dir, copy, frame, t) && Shut(b, c, dir, copy, t)
    ensures Passed(a, c, dir, copy)
  {
    hide Kept, FrameOf, WindowOpen, WindowShut, Undisturbed, SameTables, Sound;
    OpenedAndShut(a.dirs, a.tabs, b.dirs, b.tabs, c.tabs, dir, copy, t);
    KeptTrans(a.dirs[copy], a.tabs, b.dirs[copy], b.tabs, c.dirs[copy], c.tabs, PAGES, PAGES, PAGES);
    assert c.taken == a.taken;
  }

  /** Copies mapped page `pgAddr` of the current directory into a new frame, through
      the window, which is unmapped again at the end. */
  method FillFrame(vm: VirtualMemory, dir: word, copy: word, pgAddr: word) returns (frame: word)
    requires dir in vm.dirs && 0 in vm.Taken() && pgAddr % PG_SZ == 0 && pgAddr / PG_SZ < USER_PAGES
    requires FrameOf(vm.dirs[dir], vm.tabs, WINDOW_PG) == 0
    requires Get(vm.Taken(), vm.frames.Count()).0 != NO_FRAME
    requires vm.dirs[dir].tables[WINDOW_IDX] == 0 ==> vm.Room() > 0
    requires Pair(vm, dir, copy)
    modifies vm`allocPtr, vm`dirs, vm`tabs, vm`ram, vm.heap, vm.frames.frames.bits
    ensures Pair(vm, dir, copy) && Passed(old(SideOf(vm)), SideOf(vm), dir, copy)
    ensures var f := frame / PG_SZ;
      && 0 < f < vm.frames.Count() && f !in old(vm.Taken())
      && vm.ram == Filled(old(vm.ram), f, FrameOf(old(vm.dirs)[dir], old(vm.tabs), pgAddr / PG_SZ))
  {
    hide Pair, VirtualMemory.Valid, Opened, Shut, Passed, TablesApart, Blank, Complete, Walkable, AllOk, FrameOf, Get;
    hide Filled, Rooms;
    PairFacts(vm, dir, copy);
    ghost var a := SideOf(vm);
    frame := TakeFrame(vm, dir, copy);
    ghost var f := frame / PG_SZ;
    assert SideOf(vm) == a.(taken := a.taken + {f});
    var page := MapWindow(vm, dir, copy, frame);
    ghost var b := SideOf(vm);
    OpenedFacts(a.(taken := a.taken + {f}), b, dir, copy, frame, page.tab, pgAddr / PG_SZ);
    CopyBytes(vm, dir, copy, pgAddr, WINDOW);
    UnmapWindow(vm, dir, copy, page);
    assert b.taken == a.taken + {f} + {f} by { OpenedTaken(a.(taken := a.taken + {f}), b, dir, copy, frame, page.tab); }
    OpenShutPasses(a, f, b, SideOf(vm), dir, copy, frame, page.tab);
  }

  lemma OpenedTaken(a: Side, b: Side, dir: word, copy: word, frame: word, t: word)
    requires Opened(a, b, dir, copy, frame, t)
    ensures b.taken == a.taken + {frame / PG_SZ}
  {
    hide FrameOf, Kept, WindowOpen;
  }

  lemma OpenedFacts(a: Side, b: Side, dir: word, copy: word, frame: word, t: word, v: nat)
    requires Opened(a, b, dir, copy, frame, t) && v < USER_PAGES && dir != copy
    ensures dir in b.dirs && b.dirs[dir].tables[WINDOW_IDX] == t != 0
    ensures FrameOf(b.dirs[dir], b.tabs, v) == FrameOf(a.dirs[dir], a.tabs, v)
    ensures FrameOf(b.dirs[dir], b.tabs, WINDOW_PG) == frame / PG_SZ
  {
    hide Kept, FrameOf;
    assert OpenIn(a.dirs[dir], a.tabs, b.dirs[dir], b.tabs, t);
    KeptAt(a.dirs[dir], a.tabs, b.dirs[dir], b.tabs, WINDOW_PG, v);
  }

  // ------------------------------------------------------------------- the copy

  /** The directory has a table at index i and is otherwise as it was. */
  ghost predicate TableAt(dir: PageDir, dir': PageDir, i: nat)
    requires i < ENTRIES
  {
    dir'.tables[i] != 0 && dir'.tables == dir.tables[i := dir'.tables[i]]
  }

  /** The tables that copying a page of table i takes. */
  ghost function Takes(dir: PageDir, copy: PageDir, i: nat): nat
    requires i < ENTRIES
  {
    (if dir.tables[WINDOW_IDX] == 0 then 1 else 0) + (if copy.tables[i] == 0 then 1 else 0)
  }

  /** The copy's page `pgAddr` has the frame; nothing else has changed. */
  ghost predicate Placed(a: Side, b: Side, dir: word, copy: word, pgAddr: word, frame: word) {
    && dir in a.dirs && copy in a.dirs && pgAddr / PG_SZ < USER_PAGES && PdIdx(pgAddr) < KERN_IDX
    && b.dirs.Keys == a.dirs.Keys && b.dirs[dir] == a.dirs[dir] && TableAt(a.dirs[copy], b.dirs[copy], PdIdx(pgAddr))
    && b.heap == PagedTimes(a.heap, TAB_SZ, if a.dirs[copy].tables[PdIdx(pgAddr)] == 0 then 1 else 0)
    && Undisturbed(a.dirs, a.tabs, b.dirs, b.tabs, dir, copy)
    && Kept(a.dirs[copy], a.tabs, b.dirs[copy], b.tabs, pgAddr / PG_SZ)
    && FrameOf(b.dirs[copy], b.tabs, pgAddr / PG_SZ) == frame / PG_SZ && b.taken == a.taken + {frame / PG_SZ}
    && Shown(EntryOf(b.dirs[copy], b.tabs, pgAddr / PG_SZ)) && (Sound(a.tabs) ==> Sound(b.tabs))
  }

  lemma FixedPlaces(a: Side, b: Side, dir: word, copy: word, k: word, pgAddr: word, frame: word, t: word)
    requires FixedTo(a, b, dir, copy, pgAddr, frame, t) && copy in a.dirs && copy != dir && k in a.dirs
    requires pgAddr / PG_SZ < USER_PAGES
    requires TablesApart(a.dirs) && AllOk(a.dirs, a.tabs) && Blank(a.dirs[copy]) && Walkable(a.dirs, a.tabs, k, copy)
    ensures Placed(a, b, dir, copy, pgAddr, frame) && TablesApart(b.dirs) && Walkable(b.dirs, b.tabs, k, copy)
    ensures Blank(b.dirs[copy])
  {
    hide Kept, FrameOf, TablesApart, AllOk, Blank, Changed, Sees, SameTables, TableMade, KernFrames, DirPhys;
    hide SameKernel, Undisturbed, Sound, EntryOf;
    IndexSplit(pgAddr, 0, 0);
    CopyMapped(a.dirs, a.tabs, b.dirs, b.tabs, dir, copy, pgAddr / PG_SZ, t, Pte(true, true, false, frame / PG_SZ));
    SameFrames(a.dirs, a.tabs, b.dirs, b.tabs, dir, copy, k);
    TableWalk(a.dirs, a.tabs, b.dirs, b.tabs, k, copy, dir, copy, PdIdx(pgAddr), t);
  }

  /** The copy's page gets the frame. */
  method MapCopy(vm: VirtualMemory, dir: word, copy: word, pgAddr: word, frame: word)
    requires copy in vm.dirs && pgAddr / PG_SZ < USER_PAGES && PdIdx(pgAddr) < ENTRIES
    requires FrameOf(vm.dirs[copy], vm.tabs, pgAddr / PG_SZ) == 0 && 0 < frame / PG_SZ < vm.frames.Count()
    requires vm.dirs[copy].tables[PdIdx(pgAddr)] == 0 ==> vm.Room() > 0
    requires Pair(vm, dir, copy)
    modifies vm`allocPtr, vm`dirs, vm`tabs, vm.heap, vm.frames.frames.bits
    ensures Pair(vm, dir, copy) && Placed(old(SideOf(vm)), SideOf(vm), dir, copy, pgAddr, frame)
  {
    hide Pair, VirtualMemory.Valid, FixedTo, Placed, TablesApart, Blank, Complete, Walkable, AllOk, FrameOf, Rooms;
    PairFacts(vm, dir, copy);
    ghost var a := SideOf(vm);
    IndexSplit(pgAddr, 0, 0);
    var page := MapFixed(vm, pgAddr, frame, copy);
    FixedPlaces(a, SideOf(vm), dir, copy, vm.kernDir, pgAddr, frame, page.tab);
    PlacedDirs(a, SideOf(vm), dir, copy, pgAddr, frame);
    PairIs(vm, dir, copy);
  }

  lemma PlacedDirs(a: Side, b: Side, dir: word, copy: word, pgAddr: word, frame: word)
    requires Placed(a, b, dir, copy, pgAddr, frame)
    ensures dir in b.dirs && copy in b.dirs
  {
    hide FrameOf, Kept, Undisturbed;
  }

  lemma SameFrames(dirs: Dirs, tabs: Tabs, dirs': Dirs, tabs': Tabs, dir: word, copy: word, k: word)
    requires Undisturbed(dirs, tabs, dirs', tabs', dir, copy) && k in dirs && k != copy
    ensures KernFrames(dirs[k], tabs, dirs'[k], tabs')
  {
    hide Kept, FrameOf, KernFrames;
    assert SameSpace(dirs[k], tabs, dirs'[k], tabs');
    KeptFrames(dirs[k], tabs, dirs'[k], tabs', WINDOW_PG);
  }

  lemma CopyMapped(dirs: Dirs, tabs: Tabs, dirs': Dirs, tabs': Tabs, dir: word, copy: word, v: nat, t: word, p: Pte)
    requires TablesApart(dirs) && AllOk(dirs, tabs) && dir in dirs && copy in dirs && dir != copy && v < USER_PAGES
    requires dirs'.Keys == dirs.Keys
    requires (forall e :: e in dirs && e != copy ==> dirs'[e] == dirs[e]) && Blank(dirs[copy])
    requires t != 0 && t in tabs' && dirs'[copy].tables == dirs[copy].tables[v / ENTRIES := t]
    requires t == dirs[copy].tables[v / ENTRIES] || t !in tabs
    requires forall e :: e in dirs && e != copy ==> Sees(dirs[e], tabs, tabs', t, v % ENTRIES)
    requires Changed(dirs[copy], tabs, dirs'[copy], tabs', v, p)
    ensures TablesApart(dirs') && Blank(dirs'[copy]) && Undisturbed(dirs, tabs, dirs', tabs', dir, copy)
    ensures Kept(dirs[copy], tabs, dirs'[copy], tabs', v) && EntryOf(dirs'[copy], tabs', v) == p
    ensures FrameOf(dirs'[copy], tabs', v) == p.addr
  {
    hide EntryOf, TablesApart, AllOk, Sees;
    TableAdded(dirs, dirs', tabs, copy, v / ENTRIES, t);
    forall e | e in dirs && e != copy
      ensures SameSpace(dirs[e], tabs, dirs'[e], tabs')
    {
      TableElsewhere(dirs, tabs, copy, e, v / ENTRIES, t);
      NotSeen(dirs[e], tabs, tabs', t, v % ENTRIES);
    }
  }

  /** Page `pgAddr` of the original is copied to the copy's page, in frame f. */
  ghost predicate PageDone(a: Side, b: Side, dir: word, copy: word, pgAddr: word, f: nat) {
    && dir in a.dirs && copy in a.dirs && pgAddr / PG_SZ < USER_PAGES && PdIdx(pgAddr) < KERN_IDX
    && b.dirs.Keys == a.dirs.Keys && b.dirs[dir].tables[WINDOW_IDX] != 0
    && TableAt(a.dirs[copy], b.dirs[copy], PdIdx(pgAddr))
    && b.heap == PagedTimes(a.heap, TAB_SZ, Takes(a.dirs[dir], a.dirs[copy], PdIdx(pgAddr)))
    && Undisturbed(a.dirs, a.tabs, b.dirs, b.tabs, dir, copy)
    && Kept(a.dirs[copy], a.tabs, b.dirs[copy], b.tabs, pgAddr / PG_SZ)
    && FrameOf(b.dirs[copy], b.tabs, pgAddr / PG_SZ) == f && b.taken == a.taken + {f}
    && Shown(EntryOf(b.dirs[copy], b.tabs, pgAddr / PG_SZ)) && (Sound(a.tabs) ==> Sound(b.tabs))
  }

  lemma PassedPlaced(a: Side, b: Side, c: Side, dir: word, copy: word, pgAddr: word, frame: word)
    requires Passed(a, b, dir, copy) && Placed(b, c, dir, copy, pgAddr, frame)
    ensures PageDone(a, c, dir, copy, pgAddr, frame / PG_SZ)
  {
    hide Kept, FrameOf, EntryOf, Undisturbed, Sound;
    UndisturbedTrans(a.dirs, a.tabs, b.dirs, b.tabs, c.dirs, c.tabs, dir, copy);
    KeptTrans(a.dirs[copy], a.tabs, b.dirs[copy], b.tabs, c.dirs[copy], c.tabs, PAGES, pgAddr / PG_SZ, pgAddr / PG_SZ);
    TimesTimes(a.heap, TAB_SZ, if a.dirs[dir].tables[WINDOW_IDX] == 0 then 1 else 0,
      if a.dirs[copy].tables[PdIdx(pgAddr)] == 0 then 1 else 0);
  }

  lemma PassedFacts(a: Side, b: Side, dir: word, copy: word, v: nat)
    requires Passed(a, b, dir, copy) && v < USER_PAGES
    ensures copy in b.dirs && b.dirs[copy] == a.dirs[copy]
    ensures FrameOf(b.dirs[copy], b.tabs, v) == FrameOf(a.dirs[copy], a.tabs, v)
    ensures (if a.dirs[dir].tables[WINDOW_IDX] == 0 then 1 else 0) <= Rooms(a.heap, TAB_SZ) ==>
      Rooms(b.heap, TAB_SZ) == Rooms(a.heap, TAB_SZ) - (if a.dirs[dir].tables[WINDOW_IDX] == 0 then 1 else 0)
  {
    hide Kept, FrameOf, Undisturbed, Rooms;
    KeptAt(a.dirs[copy], a.tabs, b.dirs[copy], b.tabs, PAGES, v);
    if (if a.dirs[dir].tables[WINDOW_IDX] == 0 then 1 else 0) <= Rooms(a.heap, TAB_SZ) {
      TimesRooms(a.heap, TAB_SZ, if a.dirs[dir].tables[WINDOW_IDX] == 0 then 1 else 0);
    }
  }

  /** Copies mapped page `pgAddr` of the current directory into the other one. */
  method CopyPage(vm: VirtualMemory, dir: word, copy: word, pgAddr: word)
    requires dir in vm.dirs && copy in vm.dirs && 0 in vm.Taken()
    requires pgAddr % PG_SZ == 0 && pgAddr / PG_SZ < USER_PAGES && PdIdx(pgAddr) < ENTRIES
    requires FrameOf(vm.dirs[dir], vm.tabs, WINDOW_PG) == 0 && FrameOf(vm.dirs[copy], vm.tabs, pgAddr / PG_SZ) == 0
    requires Get(vm.Taken(), vm.frames.Count()).0 != NO_FRAME
    requires vm.Room() >= Takes(vm.dirs[dir], vm.dirs[copy], PdIdx(pgAddr))
    requires Pair(vm, dir, copy)
    modifies vm`allocPtr, vm`dirs, vm`tabs, vm`ram, vm.heap, vm.frames.frames.bits
    ensures Pair(vm, dir, copy) && copy in vm.dirs
    ensures var f := FrameOf(vm.dirs[copy], vm.tabs, pgAddr / PG_SZ);
      && PageDone(old(SideOf(vm)), SideOf(vm), dir, copy, pgAddr, f)
      && f != 0 && f !in old(vm.Taken()) && f < vm.frames.Count()
      && vm.ram == Filled(old(vm.ram), f, FrameOf(old(vm.dirs)[dir], old(vm.tabs), pgAddr / PG_SZ))
  {
    hide Pair, VirtualMemory.Valid, Passed, Placed, PageDone, FrameOf, Get, Filled, Rooms;
    ghost var a := SideOf(vm);
    var frame := FillFrame(vm, dir, copy, pgAddr);
    ghost var b := SideOf(vm);
    PassedFacts(a, b, dir, copy, pgAddr / PG_SZ);
    MapCopy(vm, dir, copy, pgAddr, frame);
    PassedPlaced(a, b, SideOf(vm), dir, copy, pgAddr, frame);
    PageFrame(a, SideOf(vm), dir, copy, pgAddr, frame / PG_SZ);
  }

  lemma PageFrame(a: Side, b: Side, dir: word, copy: word, pgAddr: word, f: nat)
    requires PageDone(a, b, dir, copy, pgAddr, f)
    ensures copy in b.dirs && FrameOf(b.dirs[copy], b.tabs, pgAddr / PG_SZ) == f
  {
    hide FrameOf, Kept, Undisturbed;
  }

  // ------------------------------------------------------------- the user half

  /** Page tables the kernel heap must still provide when the pages below k, up to table i,
      are copied: one for the window if it has none and is still used, and one for each
      remaining table with a mapped page. */
  ghost function Needed(s0: State, dir: PageDir, copy: PageDir, i: nat, k: nat): nat {
    (if dir.tables[WINDOW_IDX] == 0 && Rest(s0, k) != {} then 1 else 0) + |Missing(s0, copy, i)|
  }

  /** Page tables that the whole copy takes. */
  ghost function Total(s0: State): nat { Needed(s0, s0.dir, ZeroDir(0), 0, 0) }

  /** The heap when so many tables are still needed. */
  ghost function HeapLess(s0: State, needed: nat): HeapSpec.Heap {
    if needed <= Total(s0) then PagedTimes(Paged(s0.heap, DIR_SZ), TAB_SZ, Total(s0) - needed) else s0.heap
  }

  /** What holds when the pages below k, up to table i, are copied. */
  ghost predicate Round(vm: VirtualMemory, dir: word, copy: word, s0: State, i: nat, k: nat)
    reads vm, vm.heap, vm.frames, vm.frames.frames, vm.frames.frames.bits
  {
    && Pair(vm, dir, copy) && Copied(s0, Now(vm, dir, copy), k)
    && 0 in s0.taken && SourcesOwn(s0)
    && |Rest(s0, 0)| <= |FreeFrames(s0.taken, vm.frames.Count())|
    && |FreeFrames(vm.Taken(), vm.frames.Count())| + |Rest(s0, 0)| ==
         |FreeFrames(s0.taken, vm.frames.Count())| + |Rest(s0, k)|
    && copy !in s0.dirs && vm.dirs.Keys == s0.dirs.Keys + {copy}
    && Undisturbed(s0.dirs, s0.tabs, vm.dirs, vm.tabs, dir, copy)
    && (forall j :: 0 <= j < ENTRIES && k <= j * ENTRIES ==> vm.dirs[copy].tables[j] == 0)
    && vm.Room() >= Needed(s0, vm.dirs[dir], vm.dirs[copy], i, k)
    && Needed(s0, vm.dirs[dir], vm.dirs[copy], i, k) <= Total(s0)
    && vm.heap.heap == HeapLess(s0, Needed(s0, vm.dirs[dir], vm.dirs[copy], i, k))
    && (Sound(s0.tabs) ==> Sound(vm.tabs))
  }

  lemma RoundFacts(vm: VirtualMemory, dir: word, copy: word, s0: State, i: nat, k: nat)
    requires Round(vm, dir, copy, s0, i, k) && k < USER_PAGES && k / ENTRIES == i
    ensures FrameOf(vm.dirs[dir], vm.tabs, WINDOW_PG) == 0 && FrameOf(vm.dirs[copy], vm.tabs, k) == 0
    ensures FrameOf(vm.dirs[dir], vm.tabs, k) == Source(s0, k) && 0 in vm.Taken()
    ensures Source(s0, k) != 0 ==> Get(vm.Taken(), vm.frames.Count()).0 != NO_FRAME && HasPages(s0, i)
    ensures Source(s0, k) != 0 ==> vm.Room() >= Takes(vm.dirs[dir], vm.dirs[copy], i)
  {
    hide Get, TablesApart, DirOk, HeapMemory.Rep, Lives, Rooms, Undisturbed, Rest, FreeFrames, HasPages;
    if Source(s0, k) != 0 {
      SomeFree(s0, k, vm.Taken(), vm.frames.Count());
      PageHas(s0, k);
      NeededTakes(s0, vm.dirs[dir], vm.dirs[copy], i, k);
    }
  }

  /** A mapped page yet to be copied needs what copying it takes. */
  lemma NeededTakes(s0: State, dir: PageDir, copy: PageDir, i: nat, k: nat)
    requires i < KERN_IDX && k < USER_PAGES && Source(s0, k) != 0 && HasPages(s0, i)
    ensures Needed(s0, dir, copy, i, k) >= Takes(dir, copy, i)
  {
    hide HasPages;
    assert k in Rest(s0, k);
    if copy.tables[i] == 0 { assert i in Missing(s0, copy, i); }
  }

  /** Copying it takes that from what is needed. */
  lemma NeededLess(s0: State, dir: PageDir, copy: PageDir, dir': PageDir, copy': PageDir, i: nat, k: nat)
    requires i < KERN_IDX && k < USER_PAGES && Source(s0, k) != 0 && HasPages(s0, i)
    requires TableAt(copy, copy', i) && dir'.tables[WINDOW_IDX] != 0
    ensures Needed(s0, dir', copy', i, k + 1) == Needed(s0, dir, copy, i, k) - Takes(dir, copy, i)
  {
    hide HasPages;
    assert k in Rest(s0, k);
    MissingLess(s0, copy, copy', i);
  }

  lemma HeapMore(s0: State, needed: nat, takes: nat)
    requires takes <= needed <= Total(s0)
    ensures HeapLess(s0, needed - takes) == PagedTimes(HeapLess(s0, needed), TAB_SZ, takes)
  {
    hide Paged, Total;
    TimesTimes(Paged(s0.heap, DIR_SZ), TAB_SZ, Total(s0) - needed, takes);
  }

  lemma PageHas(s0: State, k: nat)
    requires k < USER_PAGES && Source(s0, k) != 0
    ensures HasPages(s0, k / ENTRIES)
  {
  }

  /** A table made for index i is one less to make. */
  lemma MissingLess(s0: State, copy: PageDir, copy': PageDir, i: nat)
    requires i < KERN_IDX && HasPages(s0, i) && TableAt(copy, copy', i)
    ensures |Missing(s0, copy', i)| == |Missing(s0, copy, i)| - (if copy.tables[i] == 0 then 1 else 0)
  {
    hide HasPages;
    if copy.tables[i] == 0 {
      assert Missing(s0, copy, i) == Missing(s0, copy', i) + {i};
    } else {
      assert Missing(s0, copy, i) == Missing(s0, copy', i);
    }
  }

  /** One entry of one table. */
  method CopyEntry(vm: VirtualMemory, dir: word, copy: word, i: nat, p: nat, ghost s0: State)
    requires i < KERN_IDX && p < ENTRIES && Round(vm, dir, copy, s0, i, i * ENTRIES + p)
    modifies vm`allocPtr, vm`dirs, vm`tabs, vm`ram, vm.heap, vm.frames.frames.bits
    ensures Round(vm, dir, copy, s0, i, i * ENTRIES + p + 1)
  {
    hide EntryOf, DirOk, Get, TablesApart, Complete, Copied, Kept, Rest, FreeFrames, SameTables, Rooms;
    hide HeapMemory.Rep, Lives, VirtualMemory.Valid, Filled;
    hide Undisturbed, Missing, HasPages, Blank, Walkable, SourcesOwn, HeapLess, Total, Takes, Pair, Sound;
    PairFacts(vm, dir, copy);
    ghost var k, s, n := i * ENTRIES + p, Now(vm, dir, copy), vm.frames.Count();
    RoundFacts(vm, dir, copy, s0, i, k);
    var table := vm.dirs[dir].tables[i];
    EntryIs(vm.dirs[dir], vm.tabs, i, p) by { ValidDirs(vm); }
    if table != 0 && vm.tabs[table][p].addr != 0 {
      var pgAddr := Idx2Pg(i, p);
      assert pgAddr / PG_SZ == k && PdIdx(pgAddr) == i;
      CopyPage(vm, dir, copy, pgAddr);
      ghost var s' := Now(vm, dir, copy);
      ghost var f := Target(s', k);
      DirSame(s.dirs, s.tabs, vm.dirs, vm.tabs, dir, copy);
      CopyStep(s0, s, s', k, f);
      RestStep(s0, k, s.taken, n, f);
      NeededTakes(s0, s.dir, s.copy, i, k);
      NeededLess(s0, s.dir, s.copy, s'.dir, s'.copy, i, k);
      HeapMore(s0, Needed(s0, s.dir, s.copy, i, k), Takes(s.dir, s.copy, i));
      TimesRooms(s.heap, TAB_SZ, Takes(s.dir, s.copy, i));
      UndisturbedTrans(s0.dirs, s0.tabs, s.dirs, s.tabs, vm.dirs, vm.tabs, dir, copy);
    } else {
      SkipStep(s0, s, k);
      NeededSame(s0, s.dir, s.copy, i, i, k, k + 1);
    }
  }

  lemma NeededSame(s0: State, dir: PageDir, copy: PageDir, i: nat, j: nat, k: nat, m: nat)
    requires Rest(s0, k) == Rest(s0, m) && Missing(s0, copy, i) == Missing(s0, copy, j)
    ensures Needed(s0, dir, copy, i, k) == Needed(s0, dir, copy, j, m)
  {
  }

  /** An entry by its two indices is the entry by its page number. */
  lemma EntryIs(dir: PageDir, tabs: Tabs, i: nat, p: nat)
    requires DirOk(dir, tabs) && i < ENTRIES && p < ENTRIES
    ensures dir.tables[i] == 0 ==> FrameOf(dir, tabs, i * ENTRIES + p) == 0
    ensures dir.tables[i] != 0 ==>
      dir.tables[i] in tabs && tabs[dir.tables[i]][p].addr == FrameOf(dir, tabs, i * ENTRIES + p)
  {
    assert (i * ENTRIES + p) / ENTRIES == i && (i * ENTRIES + p) % ENTRIES == p;
  }

  /** The pages of one table. */
  method CopyTable(vm: VirtualMemory, dir: word, copy: word, i: nat, ghost s0: State)
    requires i < KERN_IDX && Round(vm, dir, copy, s0, i, i * ENTRIES)
    modifies vm`allocPtr, vm`dirs, vm`tabs, vm`ram, vm.heap, vm.frames.frames.bits
    ensures Round(vm, dir, copy, s0, i + 1, (i + 1) * ENTRIES)
  {
    hide Round;
    var p := 0;
    while p < ENTRIES
      invariant p <= ENTRIES
      invariant Round(vm, dir, copy, s0, i, i * ENTRIES + p)
    {
      CopyEntry(vm, dir, copy, i, p, s0);
      p := p + 1;
    }
    NextTable(vm, dir, copy, s0, i);
  }

  lemma NextTable(vm: VirtualMemory, dir: word, copy: word, s0: State, i: nat)
    requires i < KERN_IDX && Round(vm, dir, copy, s0, i, (i + 1) * ENTRIES)
    ensures Round(vm, dir, copy, s0, i + 1, (i + 1) * ENTRIES)
  {
    hide Pair, Copied, Undisturbed, FreeFrames, Rest, HasPages, Rooms, HeapLess, Total, Sound;
    assert dir in vm.dirs && copy in vm.dirs by { RoundDirs(vm, dir, copy, s0, i, (i + 1) * ENTRIES); }
    TableFull(s0, Now(vm, dir, copy), i);
    assert Missing(s0, vm.dirs[copy], i + 1) == Missing(s0, vm.dirs[copy], i);
  }

  /** When all pages of a table are copied, the copy has the table if any was mapped. */
  lemma TableFull(s0: State, s: State, i: nat)
    requires i < KERN_IDX && Copied(s0, s, (i + 1) * ENTRIES)
    ensures HasPages(s0, i) ==> s.copy.tables[i] != 0
  {
    if HasPages(s0, i) {
      var v :| 0 <= v < USER_PAGES && v / ENTRIES == i && Source(s0, v) != 0;
      assert PageCopied(s0, s, v);
    }
  }

  /** A table that is missing needs no copies. */
  lemma SkipTable(vm: VirtualMemory, dir: word, copy: word, s0: State, i: nat)
    requires i < KERN_IDX && Round(vm, dir, copy, s0, i, i * ENTRIES) && dir in vm.dirs && vm.dirs[dir].tables[i] == 0
    ensures Round(vm, dir, copy, s0, i + 1, (i + 1) * ENTRIES)
  {
    hide TablesApart, DirOk, Complete, Undisturbed, FreeFrames, Rest, Copied, Rooms, HeapMemory.Rep, Lives;
    hide Walkable, SourcesOwn, HeapLess, Total, FrameOf, Source, Sound;
    TableEmpty(s0, Now(vm, dir, copy), i);
    SkipMany(s0, Now(vm, dir, copy), i * ENTRIES, (i + 1) * ENTRIES);
    assert Missing(s0, vm.dirs[copy], i + 1) == Missing(s0, vm.dirs[copy], i);
  }

  lemma TableEmpty(s0: State, s: State, i: nat)
    requires i < KERN_IDX && Copied(s0, s, i * ENTRIES) && s.dir.tables[i] == 0
    ensures forall v :: i * ENTRIES <= v < (i + 1) * ENTRIES ==> Source(s0, v) == 0
  {
    forall v | i * ENTRIES <= v < (i + 1) * ENTRIES
      ensures Source(s0, v) == 0
    {
      assert v / ENTRIES == i;
      assert EntryOf(s.dir, s.tabs, v) == EntryOf(s0.dir, s0.tabs, v);
    }
  }

  lemma SkipMany(s0: State, s: State, k: nat, m: nat)
    requires k <= m <= USER_PAGES && Copied(s0, s, k) && forall v :: k <= v < m ==> Source(s0, v) == 0
    ensures Copied(s0, s, m) && Rest(s0, m) == Rest(s0, k)
  {
    hide EntryOf;
  }

  method CopyUserHalf(vm: VirtualMemory, dir: word, copy: word, ghost s0: State)
    requires Round(vm, dir, copy, s0, 0, 0)
    modifies vm`allocPtr, vm`dirs, vm`tabs, vm`ram, vm.heap, vm.frames.frames.bits
    ensures Round(vm, dir, copy, s0, KERN_IDX, USER_PAGES)
  {
    hide Round;
    var i := 0;
    while i < KERN_IDX
      invariant i <= KERN_IDX
      invariant Round(vm, dir, copy, s0, i, i * ENTRIES)
    {
      RoundDirs(vm, dir, copy, s0, i, i * ENTRIES);
      if vm.dirs[dir].tables[i] != 0 {
        CopyTable(vm, dir, copy, i, s0);
      } else {
        SkipTable(vm, dir, copy, s0, i);
      }
      i := i + 1;
    }
  }

  lemma RoundDirs(vm: VirtualMemory, dir: word, copy: word, s0: State, i: nat, k: nat)
    requires Round(vm, dir, copy, s0, i, k)
    ensures dir in vm.dirs && copy in vm.dirs
  {
  }

  // ----------------------------------------------------------- the whole copy

  /** The kernel half of the copy is the kernel directory's own tables. */
  ghost predicate KernelShared(copy: PageDir, kern: PageDir) {
    forall i :: KERN_IDX <= i < ENTRIES ==>
      copy.tables[i] == kern.tables[i] && (kern.tables[i] != 0 ==> copy.physTabs[i] == kern.physTabs[i])
  }

  /** What a fork promises: every mapped user page of the original is mapped in the copy
      with the same contents, in a frame that was free before and that no other page of
      the copy has; other pages are not mapped; original and taken frames are as before. */
  ghost predicate Forked(s0: State, s: State, kern: PageDir) {
    && Complete(s0.ram) && Complete(s.ram)
    && (forall v :: 0 <= v < USER_PAGES ==> EntryOf(s.dir, s.tabs, v) == EntryOf(s0.dir, s0.tabs, v))
    && (forall v :: 0 <= v < USER_PAGES && Source(s0, v) == 0 ==>
          Target(s, v) == 0 && Vacant(EntryOf(s.copy, s.tabs, v)))
    && (forall v :: 0 <= v < USER_PAGES && Source(s0, v) != 0 ==> PageCopied(s0, s, v))
    && (forall u, v :: 0 <= u < v < USER_PAGES && Source(s0, u) != 0 && Source(s0, v) != 0 ==>
      Target(s, u) != Target(s, v))
    && (forall f: Frame :: f in s0.taken ==> f in s.taken && (!BacksKernel(s0, f) ==> s.ram[f] == s0.ram[f]))
    && KernelShared(s.copy, kern)
  }

  /** What `copy_pg_dir` needs: the window unmapped, user tables not shared, the frames of the
      kernel half taken, the user frames taken and not among them, directories as the
      processor needs them, a free frame for each mapped user page, and exactly the blocks
      it takes from the kernel heap: one for the new directory, one for each user table with
      a mapped page, and one for the window's table if there is none and a page is mapped. */
  ghost predicate MayFork(vm: VirtualMemory, dir: word)
    reads vm, vm.heap, vm.frames, vm.frames.frames, vm.frames.frames.bits
  {
    && vm.Valid() && vm.heapReady && dir == vm.currentDir && dir in vm.dirs && vm.kernDir in vm.dirs && Complete(vm.ram)
    && 0 in vm.Taken() && FrameOf(vm.dirs[dir], vm.tabs, WINDOW_PG) == 0 && TablesApart(vm.dirs)
    && Walkable(vm.dirs, vm.tabs, vm.kernDir, 0) && SourcesOwn(Now(vm, dir, dir))
    && (forall d, v :: d in vm.dirs && USER_PAGES <= v < PAGES && FrameOf(vm.dirs[d], vm.tabs, v) != 0 ==>
          FrameOf(vm.dirs[d], vm.tabs, v) in vm.Taken())
    && |Rest(Now(vm, dir, dir), 0)| <= |FreeFrames(vm.Taken(), vm.frames.Count())|
    && CanPage(vm.heap.heap, DIR_SZ)
    && Rooms(Paged(vm.heap.heap, DIR_SZ), TAB_SZ) >= Total(Now(vm, dir, dir))
  }

  /** Copies the current directory. One frame is taken for each mapped user page. */
  method CopyPgDir(vm: VirtualMemory, dir: word) returns (copy: word)
    requires MayFork(vm, dir)
    modifies vm`allocPtr, vm`dirs, vm`tabs, vm`ram, vm.heap, vm.frames.frames.bits
    ensures vm.Valid() && dir in vm.dirs && copy in vm.dirs && vm.kernDir in vm.dirs
    ensures copy !in old(vm.dirs) && vm.dirs.Keys == old(vm.dirs).Keys + {copy}
    ensures Forked(old(Now(vm, dir, dir)), Now(vm, dir, copy), vm.dirs[vm.kernDir])
    ensures Undisturbed(old(vm.dirs), old(vm.tabs), vm.dirs, vm.tabs, dir, copy)
    ensures |FreeFrames(vm.Taken(), vm.frames.Count())| ==
      |FreeFrames(old(vm.Taken()), vm.frames.Count())| - |Rest(old(Now(vm, dir, dir)), 0)|
    ensures vm.heap.heap ==
      PagedTimes(Paged(old(vm.heap.heap), DIR_SZ), TAB_SZ, Total(old(Now(vm, dir, dir))))
    ensures Walkable(vm.dirs, vm.tabs, vm.kernDir, 0)
    ensures SpacesApart(old(vm.dirs), old(vm.tabs), old(vm.Taken())) ==> SpacesApart(vm.dirs, vm.tabs, vm.Taken())
    ensures Sound(old(vm.tabs)) ==> Sound(vm.tabs)
  {
    hide Walkable, SourcesOwn, BacksKernel, Total, Sound;
    hide Round, Copied, Forked, Undisturbed, SpacesApart, TablesApart, Rest, FreeFrames;
    hide DirOk, FrameOf, Needed, CanPage, Paged, Rooms, HeapMemory.Rep, Lives, Complete, Missing;
    ghost var s0 := Now(vm, dir, dir);
    copy := FirstRound(vm, dir, s0);
    CopyUserHalf(vm, dir, copy, s0);
    ShareKernelHalf(vm, dir, copy, s0);
    if SpacesApart(s0.dirs, s0.tabs, s0.taken) {
      ForkKeepsApart(s0, Now(vm, dir, copy), dir, copy, vm.kernDir);
    }
  }

  /** The new directory, empty. */
  method FirstRound(vm: VirtualMemory, dir: word, ghost s0: State) returns (copy: word)
    requires MayFork(vm, dir) && s0 == Now(vm, dir, dir)
    modifies vm`allocPtr, vm`dirs, vm.heap
    ensures Round(vm, dir, copy, s0, 0, 0) && copy !in old(vm.dirs) && vm.dirs.Keys == old(vm.dirs).Keys + {copy}
  {
    hide Walkable, SourcesOwn, BacksKernel, Physical;
    hide Undisturbed, Blank, Sound;
    hide DirOk, Rest, FreeFrames, EntryOf, Rooms, CanPage, Paged, PagePtr, HeapMemory.Rep, Lives, Missing, SameTables;
    hide TablesApart, VirtualMemory.Supplied, RegionsApart, AwayFrom;
    ghost var dirs0, tabs0 := vm.dirs, vm.tabs;
    var addr, phys := vm.KmallocAp(DIR_SZ);
    copy := addr;
    vm.NewDir(copy, phys);
    EmptyDir(phys, vm.tabs);
    MissingSame(s0, ZeroDir(0), ZeroDir(phys));
    EmptyApart(dirs0, copy, phys);
    EmptyWalk(dirs0, tabs0, vm.kernDir, dir, copy);
    SameReflexive(dirs0, tabs0, vm.dirs, dir, copy);
  }

  lemma MissingSame(s0: State, copy: PageDir, copy': PageDir)
    requires copy.tables == copy'.tables
    ensures Missing(s0, copy, 0) == Missing(s0, copy', 0)
  {
    hide HasPages;
  }

  /** A new directory, without tables, at a block of the kernel heap. */
  lemma EmptyWalk(dirs: Dirs, tabs: Tabs, k: word, cur: word, copy: word)
    requires Walkable(dirs, tabs, k, 0) && 0 !in dirs && cur in dirs && copy !in dirs
    requires KHEAP_START < copy < KHEAP_END && copy % PG_SZ == 0
    ensures Walkable(dirs[copy := ZeroDir(Physical(dirs[cur], tabs, copy))], tabs, k, copy)
  {
    hide Physical, SameKernel;
    assert SameKernel(dirs[cur], dirs[k]);
    CurrentMaps(dirs[cur], dirs[k], tabs, copy);
  }

  lemma EmptyApart(dirs: Dirs, copy: word, phys: word)
    requires TablesApart(dirs) && copy !in dirs
    ensures TablesApart(dirs[copy := ZeroDir(phys)]) && Blank(ZeroDir(phys))
  {
    var dirs' := dirs[copy := ZeroDir(phys)];
    forall d, e | d in dirs' && e in dirs'
      ensures PairApart(dirs'[d], dirs'[e], d == e)
    {
      assert d != copy && e != copy ==> PairApart(dirs[d], dirs[e], d == e);
    }
  }

  lemma SameReflexive(dirs: Dirs, tabs: Tabs, dirs': Dirs, dir: word, copy: word)
    requires dir in dirs && copy !in dirs && forall e :: e in dirs ==> e in dirs' && dirs'[e] == dirs[e]
    ensures Undisturbed(dirs, tabs, dirs', tabs, dir, copy)
  {
    hide EntryOf;
  }

  lemma EmptyDir(phys: word, tabs: Tabs)
    ensures forall v :: 0 <= v < PAGES ==>
      EntryOf(ZeroDir(phys), tabs, v) == NO_PAGE && Vacant(EntryOf(ZeroDir(phys), tabs, v))
  {
  }

  /** The kernel half of the copy points to the kernel directory's tables. */
  method ShareKernelHalf(vm: VirtualMemory, dir: word, copy: word, ghost s0: State)
    requires Round(vm, dir, copy, s0, KERN_IDX, USER_PAGES) && vm.kernDir in s0.dirs
    modifies vm`dirs
    ensures vm.Valid() && vm.dirs.Keys == old(vm.dirs).Keys
    ensures dir in vm.dirs && copy in vm.dirs && vm.kernDir in vm.dirs
    ensures forall e :: e in vm.dirs && e != copy ==> vm.dirs[e] == old(vm.dirs)[e]
    ensures Forked(s0, Now(vm, dir, copy), vm.dirs[vm.kernDir]) && TablesApart(vm.dirs)
    ensures Undisturbed(s0.dirs, s0.tabs, vm.dirs, vm.tabs, dir, copy)
    ensures copy !in s0.dirs && vm.dirs.Keys == s0.dirs.Keys + {copy}
    ensures |FreeFrames(vm.Taken(), vm.frames.Count())| == |FreeFrames(s0.taken, vm.frames.Count())| - |Rest(s0, 0)|
    ensures vm.heap.heap == PagedTimes(Paged(s0.heap, DIR_SZ), TAB_SZ, Total(s0))
    ensures Walkable(vm.dirs, vm.tabs, vm.kernDir, 0) && (Sound(s0.tabs) ==> Sound(vm.tabs))
  {
    hide Walkable, SourcesOwn, BacksKernel, Total, Paged, Sound;
    hide Round, Forked, DirOk, Undisturbed, TablesApart, PairApart, HeapMemory.Rep, Lives, FreeFrames, Rest, Copied;
    RoundKern(vm, dir, copy, s0);
    ghost var s := Now(vm, dir, copy);
    ghost var dirs0, kern := vm.dirs, vm.dirs[vm.kernDir];
    ghost var c0 := dirs0[copy];
    assert dirs0[copy := c0] == dirs0;
    var i := KERN_IDX;
    while i < ENTRIES
      invariant KERN_IDX <= i <= ENTRIES
      invariant copy in vm.dirs && vm.dirs == dirs0[copy := vm.dirs[copy]] && SharedTo(vm.dirs[copy], c0, kern, i)
      invariant vm.dirs[copy].phys == c0.phys
    {
      var table := vm.dirs[vm.kernDir].tables[i];
      if table != 0 {
        vm.dirs := vm.dirs[copy := AddTable(vm.dirs[copy], i, table, vm.dirs[vm.kernDir].physTabs[i])];
      }
      i := i + 1;
    }
    SharedOk(vm.dirs[copy], c0, kern, vm.tabs);
    SharedApart(dirs0, vm.dirs, copy, vm.kernDir);
    SharedWalk(dirs0, vm.dirs, vm.tabs, copy, vm.kernDir);
    SharedForked(s0, s, Now(vm, dir, copy), kern);
    CopyAside(s0.dirs, s0.tabs, dirs0, vm.dirs, vm.tabs, dir, copy);
  }

  /** Up to table i the kernel half is shared, the rest of the copy is as it was. */
  ghost predicate SharedTo(c: PageDir, c0: PageDir, kern: PageDir, i: nat) {
    forall j :: 0 <= j < ENTRIES ==>
      && c.tables[j] == (if KERN_IDX <= j < i then kern.tables[j] else c0.tables[j])
      && c.physTabs[j] == (if KERN_IDX <= j < i && kern.tables[j] != 0 then kern.physTabs[j] else c0.physTabs[j])
  }

  /** With the kernel's tables and their physical words the processor can walk the copy. */
  lemma SharedWalk(dirs: Dirs, dirs': Dirs, tabs: Tabs, copy: word, k: word)
    requires Walkable(dirs, tabs, k, copy) && copy in dirs && Blank(dirs[copy]) && 0 !in dirs
    requires copy in dirs' && dirs' == dirs[copy := dirs'[copy]] && dirs'[copy].phys == dirs[copy].phys
    requires SharedTo(dirs'[copy], dirs[copy], dirs[k], ENTRIES)
    ensures Walkable(dirs', tabs, k, 0)
  {
    hide Physical;
    assert DirPhys(dirs[copy], copy, tabs, dirs[k]) && DirPhys(dirs[k], k, tabs, dirs[k]);
    assert DirPhys(dirs'[copy], copy, tabs, dirs[k]);
    assert SameKernel(dirs'[copy], dirs[k]);
  }

  lemma RoundKern(vm: VirtualMemory, dir: word, copy: word, s0: State)
    requires Round(vm, dir, copy, s0, KERN_IDX, USER_PAGES) && vm.kernDir in s0.dirs
    ensures vm.Valid() && dir in vm.dirs && copy in vm.dirs && dir != copy && vm.heapReady && vm.kernDir in vm.dirs
    ensures vm.kernDir != copy && copy !in s0.dirs && vm.dirs.Keys == s0.dirs.Keys + {copy} && dir in s0.dirs
    ensures Copied(s0, Now(vm, dir, copy), USER_PAGES) && Blank(vm.dirs[copy]) && TablesApart(vm.dirs)
    ensures Undisturbed(s0.dirs, s0.tabs, vm.dirs, vm.tabs, dir, copy)
    ensures DirOk(vm.dirs[copy], vm.tabs) && DirOk(vm.dirs[vm.kernDir], vm.tabs)
    ensures PairApart(vm.dirs[copy], vm.dirs[vm.kernDir], false)
    ensures Walkable(vm.dirs, vm.tabs, vm.kernDir, copy) && 0 !in vm.dirs && (Sound(s0.tabs) ==> Sound(vm.tabs))
    ensures vm.heap.heap == PagedTimes(Paged(s0.heap, DIR_SZ), TAB_SZ, Total(s0))
    ensures |FreeFrames(vm.Taken(), vm.frames.Count())| == |FreeFrames(s0.taken, vm.frames.Count())| - |Rest(s0, 0)|
  {
    hide Copied, DirOk, FreeFrames, HeapMemory.Rep, Lives, PairApart, SameTables, SameSpace, Rooms, Source, Sound;
    assert Rest(s0, USER_PAGES) == {} && Missing(s0, vm.dirs[copy], KERN_IDX) == {};
  }

  lemma SharedOk(c: PageDir, c0: PageDir, kern: PageDir, tabs: Tabs)
    requires SharedTo(c, c0, kern, ENTRIES) && DirOk(c0, tabs) && DirOk(kern, tabs) && Blank(c0)
    requires PairApart(c0, kern, false)
    ensures DirOk(c, tabs) && KernelShared(c, kern)
  {
  }

  /** With the kernel's tables in its kernel half the copy still shares no user table. */
  lemma SharedApart(dirs: Dirs, dirs': Dirs, copy: word, k: word)
    requires TablesApart(dirs) && copy in dirs && k in dirs && k != copy && Blank(dirs[copy])
    requires dirs'.Keys == dirs.Keys && (forall e :: e in dirs && e != copy ==> dirs'[e] == dirs[e])
    requires SharedTo(dirs'[copy], dirs[copy], dirs[k], ENTRIES)
    ensures TablesApart(dirs')
  {
    hide PairApart, SharedTo, Blank;
    forall d, e | d in dirs && e in dirs
      ensures PairApart(dirs'[d], dirs'[e], d == e)
    {
      assert PairApart(dirs[d], dirs[e], d == e);
      assert PairApart(dirs[copy], dirs[e], copy == e) && PairApart(dirs[k], dirs[e], k == e);
      assert PairApart(dirs[d], dirs[copy], d == copy) && PairApart(dirs[d], dirs[k], d == k);
      assert PairApart(dirs[copy], dirs[copy], true) && PairApart(dirs[k], dirs[k], true);
      assert PairApart(dirs[copy], dirs[k], false);
      if d == copy && e == copy {
        SharedSelf(dirs[copy], dirs'[copy], dirs[k]);
      } else if d == copy {
        SharedPair(dirs[copy], dirs'[copy], dirs[k], dirs[e], k == e);
      } else if e == copy {
        PairFlip(dirs[d], dirs[copy], false);
        PairFlip(dirs[d], dirs[k], d == k);
        SharedPair(dirs[copy], dirs'[copy], dirs[k], dirs[d], k == d);
        PairFlip(dirs'[copy], dirs[d], false);
      }
    }
  }

  lemma PairFlip(x: PageDir, y: PageDir, same: bool)
    requires PairApart(x, y, same)
    ensures PairApart(y, x, same)
  {
  }

  lemma SharedSelf(c0: PageDir, c: PageDir, kern: PageDir)
    requires SharedTo(c, c0, kern, ENTRIES) && Blank(c0)
    requires PairApart(c0, c0, true) && PairApart(kern, kern, true) && PairApart(c0, kern, false)
    ensures PairApart(c, c, true)
  {
  }

  lemma SharedPair(c0: PageDir, c: PageDir, kern: PageDir, x: PageDir, same: bool)
    requires SharedTo(c, c0, kern, ENTRIES) && Blank(c0) && PairApart(c0, x, false) && PairApart(kern, x, same)
    ensures PairApart(c, x, false)
  {
  }

  /** What the copy holds does not matter to the others. */
  lemma CopyAside(dirs: Dirs, tabs: Tabs, dirs1: Dirs, dirs2: Dirs, tabs1: Tabs, dir: word, copy: word)
    requires Undisturbed(dirs, tabs, dirs1, tabs1, dir, copy) && copy !in dirs
    requires dirs2.Keys == dirs1.Keys && forall e :: e in dirs1 && e != copy ==> dirs2[e] == dirs1[e]
    ensures Undisturbed(dirs, tabs, dirs2, tabs1, dir, copy)
  {
    hide SameSpace, SameTables;
  }

  lemma SharedForked(s0: State, s: State, s': State, kern: PageDir)
    requires Copied(s0, s, USER_PAGES) && s' == s.(copy := s'.copy, dirs := s'.dirs)
    requires SharedTo(s'.copy, s.copy, kern, ENTRIES) && KernelShared(s'.copy, kern)
    ensures Forked(s0, s', kern)
  {
    hide KernelShared;
    forall v | 0 <= v < USER_PAGES
      ensures Target(s', v) == Target(s, v) && EntryOf(s'.copy, s'.tabs, v) == EntryOf(s.copy, s.tabs, v)
    {
      assert v / ENTRIES < KERN_IDX;
    }
    forall v | 0 <= v < USER_PAGES && Source(s0, v) != 0
      ensures PageCopied(s0, s', v)
    {
      assert PageCopied(s0, s, v);
    }
  }

  /** A fork keeps all address spaces apart. */
  lemma ForkKeepsApart(s0: State, s: State, dir: word, copy: word, k: word)
    requires SpacesApart(s0.dirs, s0.tabs, s0.taken) && TablesApart(s.dirs) && s.dirs.Keys == s0.dirs.Keys + {copy}
    requires dir in s0.dirs && k in s0.dirs && copy !in s0.dirs && s0.dir == s0.dirs[dir] && s.copy == s.dirs[copy]
    requires Forked(s0, s, s.dirs[k]) && Undisturbed(s0.dirs, s0.tabs, s.dirs, s.tabs, dir, copy)
    ensures SpacesApart(s.dirs, s.tabs, s.taken)
  {
    hide EntryOf, TablesApart, UsersOwn, FrameOf, SameTables;
    forall e, v | e in s0.dirs && 0 <= v < PAGES
      ensures FrameOf(s.dirs[e], s.tabs, v) == FrameOf(s0.dirs[e], s0.tabs, v)
    {
      assert SameSpace(s0.dirs[e], s0.tabs, s.dirs[e], s.tabs);
      if v != WINDOW_PG { KeptAt(s0.dirs[e], s0.tabs, s.dirs[e], s.tabs, WINDOW_PG, v); }
    }
    forall v | 0 <= v < USER_PAGES && Source(s0, v) != 0
      ensures Target(s, v) !in s0.taken && Target(s, v) in s.taken
    {
      assert PageCopied(s0, s, v);
    }
    KernelSame(s.copy, s.dirs[k], s.tabs);
    CopyOwns(s0, s, copy, k);
  }

  lemma KernelSame(copy: PageDir, kern: PageDir, tabs: Tabs)
    requires KernelShared(copy, kern)
    ensures forall v :: USER_PAGES <= v < PAGES ==> FrameOf(copy, tabs, v) == FrameOf(kern, tabs, v)
  {
  }

  lemma CopyOwns(s0: State, s: State, copy: word, k: word)
    requires UsersOwn(s0.dirs, s0.tabs, s0.taken) && s.dirs.Keys == s0.dirs.Keys + {copy} && copy !in s0.dirs
    requires s.copy == s.dirs[copy] && forall f: Frame :: f in s0.taken ==> f in s.taken
    requires forall e, v :: e in s0.dirs && 0 <= v < PAGES ==>
      FrameOf(s.dirs[e], s.tabs, v) == FrameOf(s0.dirs[e], s0.tabs, v)
    requires forall v :: 0 <= v < USER_PAGES && Source(s0, v) == 0 ==> Target(s, v) == 0
    requires k in s0.dirs && forall v :: USER_PAGES <= v < PAGES ==> Target(s, v) == FrameOf(s.dirs[k], s.tabs, v)
    requires forall v :: 0 <= v < USER_PAGES && Source(s0, v) != 0 ==>
      Target(s, v) !in s0.taken && Target(s, v) in s.taken
    requires forall u, v :: 0 <= u < v < USER_PAGES && Source(s0, u) != 0 && Source(s0, v) != 0 ==>
      Target(s, u) != Target(s, v)
    ensures UsersOwn(s.dirs, s.tabs, s.taken)
  {
    hide FrameOf;
    forall d, v | d in s.dirs && 0 <= v < PAGES && FrameOf(s.dirs[d], s.tabs, v) != 0
      ensures FrameOf(s.dirs[d], s.tabs, v) in s.taken
      ensures d != copy || v >= USER_PAGES ==> FrameOf(s.dirs[d], s.tabs, v) in s0.taken
    {
      FrameBefore(s0, s, copy, k, d, v);
    }
    forall d, u, e, v | d in s.dirs && e in s.dirs && 0 <= u < USER_PAGES && 0 <= v < PAGES && (d != e || u != v)
      ensures FrameOf(s.dirs[d], s.tabs, u) == 0 || FrameOf(s.dirs[d], s.tabs, u) != FrameOf(s.dirs[e], s.tabs, v)
    {
      var f, g := FrameOf(s.dirs[d], s.tabs, u), FrameOf(s.dirs[e], s.tabs, v);
      FrameBefore(s0, s, copy, k, d, u);
      FrameBefore(s0, s, copy, k, e, v);
      assert d == copy && f != 0 ==> f !in s0.taken;
      assert e == copy && v < USER_PAGES && g != 0 ==> g !in s0.taken;
    }
  }

  /** Where the frame of a page after the fork comes from: pages of the old directories had
      it before, and the kernel half of the copy is the kernel's. */
  lemma FrameBefore(s0: State, s: State, copy: word, k: word, d: word, v: nat)
    requires d in s.dirs && s.dirs.Keys == s0.dirs.Keys + {copy} && copy !in s0.dirs && k in s0.dirs && v < PAGES
    requires s.copy == s.dirs[copy]
    requires forall e, v :: e in s0.dirs && 0 <= v < PAGES ==>
      FrameOf(s.dirs[e], s.tabs, v) == FrameOf(s0.dirs[e], s0.tabs, v)
    requires forall v :: USER_PAGES <= v < PAGES ==> Target(s, v) == FrameOf(s.dirs[k], s.tabs, v)
    ensures d != copy ==> FrameOf(s.dirs[d], s.tabs, v) == FrameOf(s0.dirs[d], s0.tabs, v)
    ensures d == copy && v >= USER_PAGES ==> FrameOf(s.dirs[d], s.tabs, v) == FrameOf(s0.dirs[k], s0.tabs, v)
    ensures d == copy && v < USER_PAGES ==> FrameOf(s.dirs[d], s.tabs, v) == Target(s, v)
  {
    hide FrameOf;
    if v >= USER_PAGES { assert Target(s, v) == FrameOf(s.dirs[k], s.tabs, v); }
  }

  /** Right after the fork both processes see the same pages, through different frames. */
  lemma ForkLooksSame(s0: State, s: State, kern: PageDir, v: nat)
    requires Forked(s0, s, kern) && v < USER_PAGES && Source(s0, v) != 0 && SourcesOwn(s0)
    ensures s.ram[Target(s, v)] == s.ram[Source(s, v)] == s0.ram[Source(s0, v)]
    ensures Target(s, v) != Source(s, v)
  {
    hide KernelShared;
    assert EntryOf(s.dir, s.tabs, v) == EntryOf(s0.dir, s0.tabs, v);
    assert PageCopied(s0, s, v);
  }

  /** No frame is seen by both, at whatever user pages. */
  lemma SeenApart(s0: State, s: State, kern: PageDir, u: nat, v: nat)
    requires Forked(s0, s, kern)
    requires u < USER_PAGES && v < USER_PAGES && Source(s0, u) != 0 && Source(s0, v) != 0 && Source(s0, u) in s0.taken
    ensures Source(s, u) != Target(s, v)
  {
    hide KernelShared;
    assert EntryOf(s.dir, s.tabs, u) == EntryOf(s0.dir, s0.tabs, u);
    assert PageCopied(s0, s, v);
  }
}
