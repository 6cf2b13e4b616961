/** Setting up virtual memory at boot: the kernel's linear map, then the heap's pages. */
module Boot {
  import opened Memory
  import opened BinIndex
  import opened Pmm
  import opened Paging
  import opened Vmm
  import opened Spaces
  import HeapMemory
  import HeapPages
  import HeapSpec

  const HEAP_SZ: word := 52
  const BIN_SZ: word := 4
  /** The page number of the kernel half's first page. */
  const KERN_PG: nat := 0xC_0000
  const HEAP_PG: nat := 0xD_0000

  /** What page number v of the kernel directory maps to while the linear map is built
      up to page number k: the first page gets frame f0, the others their own. */
  function LinearFrame(v: nat, k: nat, f0: nat): nat {
    if v == KERN_PG < k then f0 else if KERN_PG < v < k then v - KERN_PG else 0
  }

  /** The frame `map_page` finds for an entry when no address is given. */
  ghost function FirstFrame(taken: set<nat>, n: nat): nat
    requires n <= FRAME_CNT
  {
    if Get(taken, n).0 == NO_FRAME then 0 else Get(taken, n).0 / PG_SZ
  }

  /** Tables exist for exactly `made` 4 MB steps from the start of the kernel half. */
  ghost predicate TablesMade(dir: PageDir, made: nat) {
    forall i :: 0 <= i < ENTRIES ==> (dir.tables[i] != 0 <==> KERN_IDX <= i < KERN_IDX + made)
  }

  /** Frame f is the own frame of a page of the linear map up to page number k. */
  predicate Linear(f: nat, k: int) { 0 < f < k - KERN_PG }

  /** The frames taken when the linear map is built up to page number k. */
  ghost function LinearTaken(taken0: set<nat>, k: int, f0: nat): set<nat> {
    taken0 + (if KERN_PG < k && f0 != 0 then {f0} else {}) + (set f: nat | f < k - KERN_PG && Linear(f, k))
  }

  /** Until the heap serves, tables and the kernel directory lie behind the first kernel page
      and below `lim`, and their physical addresses are theirs less the offset. */
  ghost predicate LinearPhys(dir: PageDir, d: word, lim: int) {
    && LinearAddr(d, lim) && dir.phys == d - KERN_OFFSET
    && forall i :: 0 <= i < ENTRIES ==>
      if dir.tables[i] == 0 then dir.physTabs[i] == 0
      else LinearAddr(dir.tables[i], lim) && dir.physTabs[i] == dir.tables[i] - KERN_OFFSET + PDE_FLAGS
  }

  predicate LinearAddr(a: word, lim: int) { KERN_OFFSET + PG_SZ <= a < lim && a % PG_SZ == 0 }

  lemma LinearPhysTable(dir: PageDir, d: word, lim: int, i: nat, t: word, lim': int)
    requires LinearPhys(dir, d, lim) && i < ENTRIES && lim <= lim' && LinearAddr(t, lim')
    ensures LinearPhys(WithTable(dir, i, t, t - KERN_OFFSET), d, lim')
  {
  }

  ghost predicate MapsLinear(dir: PageDir, tabs: Tabs, k: nat, f0: nat) {
    forall v :: 0 <= v < PAGES ==> FrameOf(dir, tabs, v) == LinearFrame(v, k, f0) && LinearBits(dir, tabs, v, k)
  }

  /** The pages of the map are shown, even the first one if there was no frame for it, and
      the others are clear. */
  predicate LinearBits(dir: PageDir, tabs: Tabs, v: nat, k: nat)
    requires v < PAGES
  {
    if KERN_PG <= v < k then Shown(EntryOf(dir, tabs, v)) else Vacant(EntryOf(dir, tabs, v))
  }

  /** With a frame for the first page the page mapped last is as it should be. */
  lemma LinearFine(dir: PageDir, tabs: Tabs, p: nat, f0: nat)
    requires KERN_PG <= p < PAGES && MapsLinear(dir, tabs, p + 1, f0) && f0 != 0
    ensures Fine(EntryOf(dir, tabs, p))
  {
    assert FrameOf(dir, tabs, p) == LinearFrame(p, p + 1, f0);
  }

  /** Maps the kernel linearly. Making a page table moves the end that the loop runs
      to; each table moves it by at most two pages and serves 1024, so the loop ends. */
  method MapLinear(vm: VirtualMemory)
    requires vm.Valid() && !vm.heapReady && vm.kernDir in vm.dirs
    requires TablesMade(vm.dirs[vm.kernDir], 0) && vm.allocPtr <= 0xCFF0_0000 && 0 in vm.Taken()
    requires LinearPhys(vm.dirs[vm.kernDir], vm.kernDir, vm.allocPtr)
    requires vm.allocPtr + 0x8_2000 - KERN_OFFSET <= vm.frames.Count() * PG_SZ
    modifies vm`allocPtr, vm`dirs, vm`tabs, vm.heap, vm.frames.frames.bits
    ensures vm.Valid() && vm.dirs.Keys == old(vm.dirs).Keys
    ensures old(vm.allocPtr) <= vm.allocPtr <= old(vm.allocPtr) + 0x8_0000
    ensures MapsLinear(vm.dirs[vm.kernDir], vm.tabs, (vm.allocPtr + PG_SZ) / PG_SZ + 1,
      FirstFrame(old(vm.Taken()), vm.frames.Count()))
    ensures TablesMade(vm.dirs[vm.kernDir], (vm.allocPtr + PG_SZ - KERN_OFFSET) / 0x40_0000 + 1)
    ensures vm.Taken() ==
      LinearTaken(old(vm.Taken()), (vm.allocPtr + PG_SZ) / PG_SZ + 1, FirstFrame(old(vm.Taken()), vm.frames.Count()))
    ensures unchanged(vm.heap) && LinearPhys(vm.dirs[vm.kernDir], vm.kernDir, vm.allocPtr)
    ensures Sound(old(vm.tabs)) && FirstFrame(old(vm.Taken()), vm.frames.Count()) != 0 ==> Sound(vm.tabs)
  {
    hide MapPte, DirOk, Get, EntryOf, TablesMade, MapsLinear, MadeFor, FirstFrame, LinearTaken, LinearPhys;
    hide VirtualMemory.Valid, Sound;
    CountFits(vm);
    BootPtr(vm);
    ghost var d, f0, end0 := vm.kernDir, FirstFrame(vm.Taken(), vm.frames.Count()), vm.allocPtr;
    NoTables(vm.dirs[d], vm.tabs, f0, vm.Taken());
    MadeNone();
    var vaddr: word := KERN_OFFSET;
    ghost var made: nat := 0;
    while vaddr <= vm.allocPtr + PG_SZ
      invariant vm.Valid() && vm.dirs.Keys == old(vm.dirs).Keys
      invariant vaddr % PG_SZ == 0 && KERN_OFFSET <= vaddr <= vm.allocPtr + 2 * PG_SZ
      invariant made <= 64 && MadeFor(vaddr, made)
      invariant end0 <= vm.allocPtr <= end0 + made * 2 * PG_SZ
      invariant TablesMade(vm.dirs[d], made)
      invariant MapsLinear(vm.dirs[d], vm.tabs, vaddr / PG_SZ, f0)
      invariant vaddr == KERN_OFFSET ==> vm.Taken() == old(vm.Taken())
      invariant vm.Taken() == LinearTaken(old(vm.Taken()), vaddr / PG_SZ, f0)
      invariant unchanged(vm.heap) && LinearPhys(vm.dirs[d], d, vm.allocPtr)
      invariant Sound(old(vm.tabs)) && f0 != 0 ==> Sound(vm.tabs)
      decreases (ENTRIES - made) * 2 * PG_SZ + vm.allocPtr + 2 * PG_SZ - vaddr
    {
      made := LinearPage(vm, vaddr, made, f0, old(vm.Taken()));
      vaddr := vaddr + PG_SZ;
    }
    PagesTo(vaddr, vm.allocPtr);
    MadeExact(vaddr, made);
  }

  /** One round of the loop: one page, and perhaps a table and a later end. */
  method LinearPage(vm: VirtualMemory, vaddr: word, ghost made: nat, ghost f0: nat, ghost taken0: set<nat>)
    returns (ghost made': nat)
    requires vm.Valid() && !vm.heapReady && vm.kernDir in vm.dirs
    requires vaddr % PG_SZ == 0 && KERN_OFFSET <= vaddr < KHEAP_START && vaddr - KERN_OFFSET < vm.frames.Count() * PG_SZ
    requires vm.allocPtr < KHEAP_START && made <= 64 && MadeFor(vaddr, made) && TablesMade(vm.dirs[vm.kernDir], made)
    requires MapsLinear(vm.dirs[vm.kernDir], vm.tabs, vaddr / PG_SZ, f0)
    requires f0 == FirstFrame(taken0, vm.frames.Count()) && 0 in taken0
    requires vm.Taken() == LinearTaken(taken0, vaddr / PG_SZ, f0)
    requires LinearPhys(vm.dirs[vm.kernDir], vm.kernDir, vm.allocPtr)
    modifies vm`allocPtr, vm`dirs, vm`tabs, vm.heap, vm.frames.frames.bits
    ensures vm.Valid() && vm.dirs.Keys == old(vm.dirs).Keys
    ensures made <= made' <= 64 && MadeFor(vaddr + PG_SZ, made') && TablesMade(vm.dirs[vm.kernDir], made')
    ensures old(vm.allocPtr) <= vm.allocPtr <= old(vm.allocPtr) + (made' - made) * 2 * PG_SZ
    ensures MapsLinear(vm.dirs[vm.kernDir], vm.tabs, (vaddr + PG_SZ) / PG_SZ, f0)
    ensures vm.Taken() == LinearTaken(taken0, (vaddr + PG_SZ) / PG_SZ, f0)
    ensures unchanged(vm.heap) && LinearPhys(vm.dirs[vm.kernDir], vm.kernDir, vm.allocPtr)
    ensures Sound(old(vm.tabs)) && f0 != 0 ==> Sound(vm.tabs)
  {
    hide MapPte, DirOk, Get, EntryOf, TablesMade, MapsLinear, MadeFor, FirstFrame, LinearTaken, LinearPhys, Sees;
    hide Sound, Fine;
    hide VirtualMemory.Valid, Physical, HeapPages.Rooms, HeapPages.Paged, HeapPages.PagePtr;
    CountFits(vm);
    BootPtr(vm);
    ghost var ptr := vm.allocPtr;
    ghost var d, dir, tabs := vm.kernDir, vm.dirs[vm.kernDir], vm.tabs;
    TableNeeded(dir, vaddr, made);
    var page := vm.MapAt(vaddr, true, true, vaddr - KERN_OFFSET, vm.kernDir);
    LinearStep(dir, tabs, vm.dirs[d], vm.tabs, vaddr, f0, taken0, vm.frames.Count());
    TableStep(dir, vm.dirs[d], vaddr, made);
    if f0 != 0 { LinearFine(vm.dirs[d], vm.tabs, vaddr / PG_SZ, f0); }
    if dir.tables[PdIdx(vaddr)] == 0 { LinearPhysTable(dir, d, ptr, PdIdx(vaddr), page.tab, vm.allocPtr); }
    made' := if dir.tables[PdIdx(vaddr)] == 0 then made + 1 else made;
  }

  lemma PagesTo(vaddr: int, end: int)
    requires vaddr % PG_SZ == 0 && end + PG_SZ < vaddr <= end + 2 * PG_SZ
    ensures (end + PG_SZ) / PG_SZ + 1 == vaddr / PG_SZ
    ensures (vaddr - PG_SZ - KERN_OFFSET) / 0x40_0000 == (end + PG_SZ - KERN_OFFSET) / 0x40_0000
  {
    var q := vaddr / PG_SZ;
    assert vaddr == q * PG_SZ;
    assert (end + PG_SZ) / PG_SZ == q - 1;
    TwoLevels(vaddr - PG_SZ - KERN_OFFSET);
    TwoLevels(end + PG_SZ - KERN_OFFSET);
    assert (vaddr - PG_SZ - KERN_OFFSET) / PG_SZ == q - 1 - KERN_PG;
    assert (end + PG_SZ - KERN_OFFSET) / PG_SZ == q - 1 - KERN_PG;
  }

  lemma TwoLevels(x: int)
    ensures x / 0x40_0000 == x / PG_SZ / ENTRIES
  {
  }

  /** `made` tables are just enough for the pages below vaddr. */
  ghost predicate MadeFor(vaddr: int, made: int) {
    made * 0x40_0000 >= vaddr - KERN_OFFSET && (made - 1) * 0x40_0000 < vaddr - KERN_OFFSET
  }

  lemma MadeNone()
    ensures MadeFor(KERN_OFFSET, 0)
  {
  }

  lemma TableNeeded(dir: PageDir, vaddr: word, made: nat)
    requires TablesMade(dir, made) && MadeFor(vaddr, made)
    requires KERN_OFFSET <= vaddr < KHEAP_START && made <= 64 && vaddr % PG_SZ == 0
    ensures PdIdx(vaddr) < ENTRIES
    ensures dir.tables[PdIdx(vaddr)] == 0 <==> PdIdx(vaddr) == KERN_IDX + made
    ensures PdIdx(vaddr) == KERN_IDX + made ==> made < 64 && MadeFor(vaddr + PG_SZ, made + 1)
    ensures PdIdx(vaddr) != KERN_IDX + made ==> MadeFor(vaddr + PG_SZ, made)
  {
  }

  lemma TableStep(dir: PageDir, dir': PageDir, vaddr: word, made: nat)
    requires TablesMade(dir, made) && PdIdx(vaddr) < ENTRIES
    requires dir'.tables[PdIdx(vaddr)] != 0 && dir'.tables == dir.tables[PdIdx(vaddr) := dir'.tables[PdIdx(vaddr)]]
    requires dir.tables[PdIdx(vaddr)] == 0 ==> PdIdx(vaddr) == KERN_IDX + made
    ensures TablesMade(dir', if dir.tables[PdIdx(vaddr)] == 0 then made + 1 else made)
  {
  }

  lemma MadeExact(vaddr: word, made: nat)
    requires MadeFor(vaddr, made) && KERN_OFFSET < vaddr && vaddr % PG_SZ == 0
    ensures made == (vaddr - PG_SZ - KERN_OFFSET) / 0x40_0000 + 1
  {
  }

  lemma NoTables(dir: PageDir, tabs: Tabs, f0: nat, taken: set<nat>)
    requires TablesMade(dir, 0)
    ensures MapsLinear(dir, tabs, KERN_PG, f0) && taken == LinearTaken(taken, KERN_PG, f0)
  {
  }

  lemma LinearStep(dir: PageDir, tabs: Tabs, dir': PageDir, tabs': Tabs, vaddr: word, f0: nat, taken0: set<nat>, n: nat)
    requires vaddr % PG_SZ == 0 && KERN_OFFSET <= vaddr < KHEAP_START
    requires n <= FRAME_CNT && vaddr - KERN_OFFSET < n * PG_SZ
    requires MapsLinear(dir, tabs, vaddr / PG_SZ, f0) && f0 == FirstFrame(taken0, n) && 0 in taken0
    requires Changed(dir, tabs, dir', tabs', vaddr / PG_SZ,
      MapPte(EntryOf(dir, tabs, vaddr / PG_SZ), true, true, vaddr - KERN_OFFSET,
        LinearTaken(taken0, vaddr / PG_SZ, f0), n).0)
    ensures MapsLinear(dir', tabs', vaddr / PG_SZ + 1, f0)
    ensures LinearTaken(taken0, vaddr / PG_SZ + 1, f0) ==
      MapPte(EntryOf(dir, tabs, vaddr / PG_SZ), true, true, vaddr - KERN_OFFSET,
        LinearTaken(taken0, vaddr / PG_SZ, f0), n).1
  {
    hide EntryOf, Get;
    GetFresh(taken0, n);
    var p := vaddr / PG_SZ;
    assert FrameOf(dir, tabs, p) == 0;
    assert (vaddr - KERN_OFFSET) / PG_SZ == p - KERN_PG;
    if p == KERN_PG { assert LinearTaken(taken0, p, f0) == taken0; }
    LinearMore(dir, tabs, dir', tabs', p, f0);
  }

  lemma LinearMore(dir: PageDir, tabs: Tabs, dir': PageDir, tabs': Tabs, p: nat, f0: Frame)
    requires MapsLinear(dir, tabs, p, f0) && KERN_PG <= p < PAGES
    requires Changed(dir, tabs, dir', tabs', p, Pte(true, true, false, if p == KERN_PG then f0 else p - KERN_PG))
    ensures MapsLinear(dir', tabs', p + 1, f0)
  {
    hide EntryOf;
    forall v | 0 <= v < PAGES
      ensures FrameOf(dir', tabs', v) == LinearFrame(v, p + 1, f0) && LinearBits(dir', tabs', v, p + 1)
    {
      assert FrameOf(dir, tabs, v) == LinearFrame(v, p, f0) && LinearBits(dir, tabs, v, p);
      assert v != p ==> EntryOf(dir', tabs', v) == EntryOf(dir, tabs, v);
    }
  }

  // --------------------------------------------- ranges mapped to new frames

  /** The frame in an entry that a call of `get_frame` with this result filled. */
  function FrameFor(addr: word): nat { if addr == NO_FRAME then 0 else addr / PG_SZ }

  /** Of the `cnt` pages from page number b on the first k got what `cnt` calls of
      `get_frame` in a row return, and are shown, and the others have no frame. */
  ghost predicate RangeMapped(dir: PageDir, tabs: Tabs, b: nat, k: nat, cnt: nat, taken: set<nat>, n: nat)
    requires b + cnt <= PAGES
  {
    && |Gets(taken, n, cnt)| == cnt
    && forall v :: b <= v < b + cnt ==>
      FrameOf(dir, tabs, v) == (if v < b + k then FrameFor(Gets(taken, n, cnt)[v - b]) else 0)
      && (v < b + k ==> Shown(EntryOf(dir, tabs, v)))
  }

  /** A page of the range is as it should be exactly when there was a frame for it. */
  lemma RangeFine(dir: PageDir, tabs: Tabs, b: nat, k: nat, cnt: nat, taken: set<nat>, n: nat, v: nat)
    requires b + cnt <= PAGES && k <= cnt && RangeMapped(dir, tabs, b, k, cnt, taken, n) && n <= FRAME_CNT
    requires 0 in taken && b <= v < b + k
    ensures Shown(EntryOf(dir, tabs, v)) && (Fine(EntryOf(dir, tabs, v)) <==> v - b < |FreeFrames(taken, n)|)
  {
    hide EntryOf, Get, Gets, TakenAfter;
    assert FrameOf(dir, tabs, v) == FrameFor(Gets(taken, n, cnt)[v - b]);
    GetsOwn(taken, n, cnt, v - b, v - b);
    GetsEnough(taken, n, cnt, v - b);
  }

  /** Only pages from lo up to hi have other entries. */
  ghost predicate SameBut(dir: PageDir, tabs: Tabs, dir': PageDir, tabs': Tabs, lo: nat, hi: nat) {
    forall v :: 0 <= v < PAGES && !(lo <= v < hi) ==> EntryOf(dir', tabs', v) == EntryOf(dir, tabs, v)
  }

  lemma RangeStart(dir: PageDir, tabs: Tabs, b: nat, cnt: nat, taken: set<nat>, n: nat)
    requires b + cnt <= PAGES && forall v :: b <= v < b + cnt ==> FrameOf(dir, tabs, v) == 0
    ensures SameBut(dir, tabs, dir, tabs, b, b) && RangeMapped(dir, tabs, b, 0, cnt, taken, n)
    ensures TakenAfter(taken, n, 0) == taken
  {
    hide Get, Gets, TakenAfter;
    GetsNext(taken, n, 0);
    if cnt > 0 { GetsAt(taken, n, 0, cnt); } else { GetsNext(taken, n, cnt); }
  }

  lemma RangeStep(dir: PageDir, tabs: Tabs, dir1: PageDir, tabs1: Tabs, dir2: PageDir, tabs2: Tabs,
                  b: nat, k: nat, cnt: nat, taken: set<nat>, n: nat)
    requires b + cnt <= PAGES && k < cnt && n <= FRAME_CNT
    requires SameBut(dir, tabs, dir1, tabs1, b, b + k) && RangeMapped(dir1, tabs1, b, k, cnt, taken, n)
    requires Changed(dir1, tabs1, dir2, tabs2, b + k,
      MapPte(EntryOf(dir1, tabs1, b + k), true, true, 0, TakenAfter(taken, n, k), n).0)
    ensures SameBut(dir, tabs, dir2, tabs2, b, b + k + 1) && RangeMapped(dir2, tabs2, b, k + 1, cnt, taken, n)
    ensures TakenAfter(taken, n, k + 1) ==
      MapPte(EntryOf(dir1, tabs1, b + k), true, true, 0, TakenAfter(taken, n, k), n).1
  {
    hide EntryOf, Get, Gets, TakenAfter;
    GetsAt(taken, n, k, cnt);
    if Get(TakenAfter(taken, n, k), n).0 == NO_FRAME { GetNone(TakenAfter(taken, n, k), n); }
    assert FrameOf(dir1, tabs1, b + k) == 0;
    forall v | b <= v < b + cnt
      ensures FrameOf(dir2, tabs2, v) == if v < b + k + 1 then FrameFor(Gets(taken, n, cnt)[v - b]) else 0
      ensures v < b + k + 1 ==> Shown(EntryOf(dir2, tabs2, v))
    {
      if v == b + k { assert v - b == k; } else { assert FrameOf(dir2, tabs2, v) == FrameOf(dir1, tabs1, v); }
    }
  }

  /** The pages of the range got frames of their own, in climbing order, none of which was
      taken before, for as many pages as there were free frames. */
  lemma RangeOwns(dir: PageDir, tabs: Tabs, b: nat, cnt: nat, taken: set<nat>, n: nat, u: nat, v: nat)
    requires b + cnt <= PAGES && RangeMapped(dir, tabs, b, cnt, cnt, taken, n) && n <= FRAME_CNT && 0 in taken
    requires b <= u < b + cnt && b <= v < b + cnt
    ensures FrameOf(dir, tabs, v) != 0 <==> v - b < |FreeFrames(taken, n)|
    ensures FrameOf(dir, tabs, v) != 0 ==> FrameOf(dir, tabs, v) !in taken && FrameOf(dir, tabs, v) < n
    ensures FrameOf(dir, tabs, v) != 0 && u < v ==> 0 < FrameOf(dir, tabs, u) < FrameOf(dir, tabs, v)
  {
    hide EntryOf, Get, Gets, TakenAfter;
    var s, i, j := Gets(taken, n, cnt), u - b, v - b;
    assert FrameOf(dir, tabs, u) == FrameFor(s[i]) && FrameOf(dir, tabs, v) == FrameFor(s[j]);
    GetsOwn(taken, n, cnt, i, j);
    GetsEnough(taken, n, cnt, j);
  }

  lemma RangeTaken(dir: PageDir, tabs: Tabs, b: nat, cnt: nat, taken: set<nat>, n: nat, v: nat)
    requires b + cnt <= PAGES && RangeMapped(dir, tabs, b, cnt, cnt, taken, n) && n <= FRAME_CNT
    requires b <= v < b + cnt && FrameOf(dir, tabs, v) != 0
    ensures FrameOf(dir, tabs, v) in TakenAfter(taken, n, cnt)
  {
    hide EntryOf, Get, Gets, TakenAfter;
    assert FrameOf(dir, tabs, v) == FrameFor(Gets(taken, n, cnt)[v - b]);
    GetsTaken(taken, n, cnt, v - b);
  }

  lemma GetsOwn(taken: set<nat>, n: nat, k: nat, i: nat, j: nat)
    requires n <= FRAME_CNT && |Gets(taken, n, k)| == k && i < k && j < k && 0 in taken
    ensures var s := Gets(taken, n, k);
      && (s[j] != NO_FRAME ==> s[j] == FrameFor(s[j]) * PG_SZ && 0 < FrameFor(s[j]) < n && FrameFor(s[j]) !in taken)
      && (s[j] != NO_FRAME && i < j ==> s[i] != NO_FRAME && 0 < FrameFor(s[i]) < FrameFor(s[j]))
  {
    hide Get, Returned;
    RunClimbs(taken, n, GetOps(k));
    if Gets(taken, n, k)[j] != NO_FRAME {
      RunFresh(taken, n, GetOps(k), j);
      if i < j { RunFresh(taken, n, GetOps(k), i); }
    }
  }

  // ------------------------------------------------------- the heap's pages

  const HEAP_PAGES: nat := 257
  const HEAP_IDX: nat := 832

  /** Gives every page of the kernel heap, its end included, a frame; the one page
      table this takes comes from the boot allocator. */
  method MapHeap(vm: VirtualMemory)
    requires vm.Valid() && !vm.heapReady && vm.kernDir in vm.dirs && vm.allocPtr < KHEAP_START - 2 * PG_SZ
    requires vm.dirs[vm.kernDir].tables[HEAP_IDX] == 0 && LinearPhys(vm.dirs[vm.kernDir], vm.kernDir, vm.allocPtr)
    requires 0 in vm.Taken()
    modifies vm`allocPtr, vm`dirs, vm`tabs, vm.heap, vm.frames.frames.bits
    ensures vm.Valid() && vm.dirs.Keys == old(vm.dirs).Keys && unchanged(vm.heap)
    ensures vm.dirs[vm.kernDir].tables == old(vm.dirs)[vm.kernDir].tables[HEAP_IDX := PgRoundUp(old(vm.allocPtr))]
    ensures vm.allocPtr == PgRoundUp(old(vm.allocPtr)) + TAB_SZ
    ensures LinearPhys(vm.dirs[vm.kernDir], vm.kernDir, vm.allocPtr)
    ensures SameBut(old(vm.dirs)[vm.kernDir], old(vm.tabs), vm.dirs[vm.kernDir], vm.tabs, HEAP_PG, HEAP_PG + HEAP_PAGES)
    ensures RangeMapped(vm.dirs[vm.kernDir], vm.tabs, HEAP_PG, HEAP_PAGES, HEAP_PAGES,
      old(vm.Taken()), vm.frames.Count())
    ensures vm.Taken() == TakenAfter(old(vm.Taken()), vm.frames.Count(), HEAP_PAGES)
    ensures Sound(old(vm.tabs)) && HEAP_PAGES <= |FreeFrames(old(vm.Taken()), vm.frames.Count())| ==> Sound(vm.tabs)
  {
    hide Sound, FreeFrames;
    hide DirOk, EntryOf, FrameOf, TakenAfter, SameBut, RangeMapped, LinearPhys, VirtualMemory.Valid;
    ghost var s0, ptr0 := SideOf(vm), vm.allocPtr;
    CountFits(vm);
    RangeClear(s0.dirs[vm.kernDir], s0.tabs);
    RangeStart(s0.dirs[vm.kernDir], s0.tabs, HEAP_PG, HEAP_PAGES, s0.taken, vm.frames.Count());
    var vaddr: word := KHEAP_START;
    ghost var k: nat := 0;
    while vaddr <= KHEAP_END
      invariant vaddr == KHEAP_START + k * PG_SZ && k <= HEAP_PAGES && HeapPart(vm, s0, ptr0, k) && unchanged(vm.heap)
      decreases KHEAP_END + PG_SZ - vaddr
    {
      HeapPage(vm, vaddr, s0, ptr0, k);
      vaddr := vaddr + PG_SZ;
      k := k + 1;
    }
  }

  /** The first k pages of the heap are mapped; the first one made the table. */
  ghost predicate HeapPart(vm: VirtualMemory, s0: Side, ptr0: word, k: nat)
    requires k <= HEAP_PAGES
    reads vm, vm.heap, vm.frames, vm.frames.frames, vm.frames.frames.bits
  {
    && vm.Valid() && !vm.heapReady && vm.kernDir in s0.dirs && vm.dirs.Keys == s0.dirs.Keys
    && vm.frames.Count() <= FRAME_CNT
    && HeapTable(s0.dirs[vm.kernDir], vm.dirs[vm.kernDir], ptr0, vm.allocPtr, k)
    && LinearPhys(vm.dirs[vm.kernDir], vm.kernDir, vm.allocPtr)
    && SameBut(s0.dirs[vm.kernDir], s0.tabs, vm.dirs[vm.kernDir], vm.tabs, HEAP_PG, HEAP_PG + k)
    && RangeMapped(vm.dirs[vm.kernDir], vm.tabs, HEAP_PG, k, HEAP_PAGES, s0.taken, vm.frames.Count())
    && vm.Taken() == TakenAfter(s0.taken, vm.frames.Count(), k) && 0 in s0.taken
    && (Sound(s0.tabs) && k <= |FreeFrames(s0.taken, vm.frames.Count())| ==> Sound(vm.tabs))
  }

  ghost predicate HeapTable(dir: PageDir, dir': PageDir, ptr0: word, ptr: word, k: nat) {
    if k == 0 then ptr == ptr0 < KHEAP_START - 2 * PG_SZ && dir'.tables == dir.tables && dir.tables[HEAP_IDX] == 0
    else ptr == PgRoundUp(ptr0) + TAB_SZ && dir'.tables == dir.tables[HEAP_IDX := PgRoundUp(ptr0)] && ptr0 < KHEAP_START
  }

  /** One page of the heap. */
  method HeapPage(vm: VirtualMemory, vaddr: word, ghost s0: Side, ghost ptr0: word, ghost k: nat)
    requires k < HEAP_PAGES && vaddr == KHEAP_START + k * PG_SZ && HeapPart(vm, s0, ptr0, k)
    modifies vm`allocPtr, vm`dirs, vm`tabs, vm.heap, vm.frames.frames.bits
    ensures HeapPart(vm, s0, ptr0, k + 1) && unchanged(vm.heap)
  {
    hide MapPte, DirOk, Get, EntryOf, FrameOf, TakenAfter, SameBut, RangeMapped, LinearPhys, VirtualMemory.Valid;
    hide Sound, Fine, FreeFrames, Changed, Sees, SameTables, Physical, WithTable, HeapPages.Rooms, HeapPages.Paged;
    hide HeapPages.PagePtr;
    ghost var d, n, dir, tabs, ptr := vm.kernDir, vm.frames.Count(), vm.dirs[vm.kernDir], vm.tabs, vm.allocPtr;
    HeapIndex(vaddr, k);
    BootPtr(vm);
    var page := vm.MapAt(vaddr, true, true, 0, vm.kernDir);
    RangeStep(s0.dirs[d], s0.tabs, dir, tabs, vm.dirs[d], vm.tabs, HEAP_PG, k, HEAP_PAGES, s0.taken, n);
    RangeFine(vm.dirs[d], vm.tabs, HEAP_PG, k + 1, HEAP_PAGES, s0.taken, n, HEAP_PG + k);
    if k == 0 { LinearPhysTable(dir, d, ptr, HEAP_IDX, page.tab, vm.allocPtr); }
  }

  lemma BootPtr(vm: VirtualMemory)
    requires vm.Valid() && !vm.heapReady
    ensures KERN_OFFSET + PG_SZ <= PgRoundUp(vm.allocPtr)
  {
    hide DirOk, RegionsApart;
  }

  lemma HeapPlace(vm: VirtualMemory)
    requires vm.Valid()
    ensures vm.heap.start == KHEAP_START && vm.heap.end == KHEAP_END
  {
    hide DirOk, RegionsApart, VirtualMemory.Supplied;
  }

  lemma HeapIndex(vaddr: word, k: nat)
    requires k < HEAP_PAGES && vaddr == KHEAP_START + k * PG_SZ
    ensures PdIdx(vaddr) == HEAP_IDX && vaddr / PG_SZ == HEAP_PG + k
  {
  }

  lemma RangeClear(dir: PageDir, tabs: Tabs)
    requires dir.tables[HEAP_IDX] == 0
    ensures forall v :: HEAP_PG <= v < HEAP_PG + HEAP_PAGES ==> FrameOf(dir, tabs, v) == 0
  {
  }

  // --------------------------------------------------------------- vmm_init

  /** The pages that the linear map ends with when the boot allocator stands at `end`. */
  function LinearEnd(end: word): nat { (end + PG_SZ) / PG_SZ + 1 }

  /** The kernel directory after boot. */
  ghost predicate Booted(dir: PageDir, tabs: Tabs, end: word, f0: nat, taken: set<nat>, n: nat)
    requires n <= FRAME_CNT
  {
    // every page above the first, up to that of end + 0x1000, maps to itself less the offset
    && (forall v :: KERN_PG < v < LinearEnd(end) && v < PAGES ==> FrameOf(dir, tabs, v) == v - KERN_PG)
    && FrameOf(dir, tabs, KERN_PG) == f0
    // the heap's pages have what is taken next
    && RangeMapped(dir, tabs, HEAP_PG, HEAP_PAGES, HEAP_PAGES, LinearTaken(taken, LinearEnd(end), f0), n)
    // nothing else is mapped
    && (forall v :: 0 <= v < PAGES && !(KERN_PG <= v < LinearEnd(end)) && !(HEAP_PG <= v < HEAP_PG + HEAP_PAGES) ==>
          FrameOf(dir, tabs, v) == 0)
    // the pages of the linear map are shown, and those of neither are clear
    && (forall v :: 0 <= v < PAGES && !(HEAP_PG <= v < HEAP_PG + HEAP_PAGES) ==>
          LinearBits(dir, tabs, v, LinearEnd(end)))
    // the tables there are
    && (forall i :: 0 <= i < ENTRIES ==>
          (dir.tables[i] != 0 <==> KERN_IDX <= i <= (end + PG_SZ) / 0x40_0000 || i == HEAP_IDX))
    // and the heap's page table lies in a page of the linear map
    && KERN_PG < dir.tables[HEAP_IDX] / PG_SZ < LinearEnd(end)
  }

  /** Boots virtual memory. `end` is where the boot allocator stood when the linear map
      was complete. */
  method VmmInit(vm: VirtualMemory) returns (ghost end: word)
    requires vm.Valid() && !vm.heapReady && vm.dirs == map[] && vm.tabs == map[]
    requires vm.allocPtr <= 0xCFE0_0000 && vm.allocPtr + 0x9_0000 - KERN_OFFSET <= vm.frames.Count() * PG_SZ
    requires vm.heap.ram[KHEAP_END] == 0 && vm.heap.heads == seq(BIN_CNT, _ => 0)
    modifies vm`allocPtr, vm`heapReady, vm`dirs, vm`tabs, vm`kernDir, vm`currentDir, vm.heap, vm.frames.frames.bits
    ensures vm.Valid() && vm.heapReady && vm.dirs.Keys == {vm.kernDir} && vm.currentDir == vm.kernDir
    ensures vm.heap.heap == HeapSpec.Init(KHEAP_START, KHEAP_END)
    ensures old(vm.allocPtr) < end <= old(vm.allocPtr) + 0x8_4000
    ensures var taken, n := old(vm.Taken()) + {0}, vm.frames.Count();
      var f0 := FirstFrame(taken, n);
      && Booted(vm.dirs[vm.kernDir], vm.tabs, end, f0, taken, n)
      && vm.Taken() == TakenAfter(LinearTaken(taken, LinearEnd(end), f0), n, HEAP_PAGES)
      && (Sound(vm.tabs) <==> HEAP_PAGES <= |FreeFrames(LinearTaken(taken, LinearEnd(end), f0), n)|)
    ensures Walkable(vm.dirs, vm.tabs, vm.kernDir, 0)
  {
    hide Sound, FreeFrames;
    hide HeapMemory.Rep, HeapPages.Lives;
    hide MapPte, DirOk, Get, EntryOf, Gets, TakenAfter, RangeMapped, FirstFrame, Booted, LinearTaken, TablesMade;
    hide MapsLinear, VirtualMemory.Valid, SameBut, Walkable, LinearPhys;
    BootPtr(vm);
    PreInit(vm);
    CountFits(vm);
    BootPtr(vm);
    HeapPlace(vm);
    ghost var taken, n := vm.Taken(), vm.frames.Count();
    MapLinear(vm);
    end := vm.allocPtr;
    ghost var dir, tabs, f0 := vm.dirs[vm.kernDir], vm.tabs, FirstFrame(taken, n);
    HeapTableMissing(dir, end);
    assert Sound(map[]) by { SoundNone(); }
    LinearKeeps(taken, LinearEnd(end), f0);
    MapHeap(vm);
    vm.SwitchTo(vm.kernDir);
    HeapPlace(vm);
    vm.UseHeap();
    BootedIs(dir, tabs, vm.dirs[vm.kernDir], vm.tabs, end, f0, taken, n);
    BootedWalk(vm.dirs, vm.tabs, vm.kernDir, end, f0, taken, n);
    BootedSound(vm.dirs[vm.kernDir], vm.tabs, end, f0, taken, n);
    if HEAP_PAGES <= |FreeFrames(LinearTaken(taken, LinearEnd(end), f0), n)| { FirstThere(taken, LinearEnd(end), n); }
  }

  /** A heap page for which there was no frame is present all the same. */
  lemma BootedSound(dir: PageDir, tabs: Tabs, end: word, f0: nat, taken: set<nat>, n: nat)
    requires n <= FRAME_CNT && 0 in taken && Booted(dir, tabs, end, f0, taken, n)
    ensures Sound(tabs) ==> HEAP_PAGES <= |FreeFrames(LinearTaken(taken, LinearEnd(end), f0), n)|
  {
    hide EntryOf, RangeMapped, FreeFrames, Sound, Fine;
    var linear, v := LinearTaken(taken, LinearEnd(end), f0), HEAP_PG + HEAP_PAGES - 1;
    RangeFine(dir, tabs, HEAP_PG, HEAP_PAGES, HEAP_PAGES, linear, n, v);
    if Sound(tabs) { SoundPage(dir, tabs, v); }
  }

  lemma LinearKeeps(taken: set<nat>, k: int, f0: nat)
    ensures taken <= LinearTaken(taken, k, f0)
  {
  }

  lemma FirstThere(taken: set<nat>, k: int, n: nat)
    requires n <= FRAME_CNT && 0 in taken && FreeFrames(LinearTaken(taken, k, FirstFrame(taken, n)), n) != {}
    ensures FirstFrame(taken, n) != 0
  {
    hide Get, Linear;
    GetFresh(taken, n);
    GetFull(taken, n);
    var f :| f in FreeFrames(LinearTaken(taken, k, FirstFrame(taken, n)), n);
    assert f !in taken && f < n;
  }

  /** The linear map and the boot allocator agree on where tables and directory are. */
  lemma BootedWalk(dirs: Dirs, tabs: Tabs, d: word, end: word, f0: nat, taken: set<nat>, n: nat)
    requires dirs.Keys == {d} && d != 0 && n <= FRAME_CNT && KERN_OFFSET < end < KHEAP_START - 0x10_0000
    requires Booted(dirs[d], tabs, end, f0, taken, n) && LinearPhys(dirs[d], d, PgRoundUp(end) + TAB_SZ)
    ensures Walkable(dirs, tabs, d, 0)
  {
    hide EntryOf, FrameOf, RangeMapped, Physical;
    forall a: word | LinearAddr(a, PgRoundUp(end) + TAB_SZ)
      ensures KernelAddr(a) && Physical(dirs[d], tabs, a) == a - KERN_OFFSET
    {
      PhysicalAt(dirs[d], tabs, a);
      assert KERN_PG < a / PG_SZ < LinearEnd(end);
    }
  }

  /** What an address above the first kernel page means after boot. Up to the page of the
      boot allocator's end and one more it is its physical address and the offset; in the
      heap, the byte at its end included, it is backed when there were frames enough; and
      anywhere else nothing is mapped. */
  lemma BootedMeans(dir: PageDir, tabs: Tabs, end: word, f0: nat, taken: set<nat>, n: nat, va: word)
    requires KERN_OFFSET < end < KHEAP_START - 0x10_0000 && n <= FRAME_CNT && 0 in taken
    requires Booted(dir, tabs, end, f0, taken, n) && va >= KERN_OFFSET + PG_SZ
    ensures var p := EntryOf(dir, tabs, va / PG_SZ);
      if va - va % PG_SZ <= end + PG_SZ then Shown(p) && Physical(dir, tabs, va) == va - KERN_OFFSET
      else if KHEAP_START <= va < KHEAP_END + PG_SZ then
        Shown(p) && (HEAP_PAGES <= |FreeFrames(LinearTaken(taken, LinearEnd(end), f0), n)| ==>
                      p.addr != 0 && p.addr !in taken)
      else Vacant(p)
  {
    hide RangeMapped, FreeFrames, LinearTaken;
    var linear, v := LinearTaken(taken, LinearEnd(end), f0), va / PG_SZ;
    assert va - va % PG_SZ == v * PG_SZ;
    if HEAP_PG <= v < HEAP_PG + HEAP_PAGES {
      LinearKeeps(taken, LinearEnd(end), f0);
      RangeFine(dir, tabs, HEAP_PG, HEAP_PAGES, HEAP_PAGES, linear, n, v);
      RangeOwns(dir, tabs, HEAP_PG, HEAP_PAGES, linear, n, v, v);
    } else {
      assert LinearBits(dir, tabs, v, LinearEnd(end));
      assert v < LinearEnd(end) ==> FrameOf(dir, tabs, v) == v - KERN_PG;
    }
  }

  /** The kernel directory and the heap's descriptor, and frame 0 is taken. */
  method PreInit(vm: VirtualMemory)
    requires vm.Valid() && !vm.heapReady && vm.dirs == map[] && vm.tabs == map[]
    requires vm.allocPtr <= 0xCFE0_0000 && 0 < vm.frames.Count()
    modifies vm`allocPtr, vm`dirs, vm`kernDir, vm.heap, vm.frames.frames.bits
    ensures vm.Valid() && vm.dirs.Keys == {vm.kernDir} && vm.tabs == map[] && unchanged(vm.heap)
    ensures old(vm.allocPtr) < vm.allocPtr <= old(vm.allocPtr) + 0x4000
    ensures TablesMade(vm.dirs[vm.kernDir], 0) && LinearPhys(vm.dirs[vm.kernDir], vm.kernDir, vm.allocPtr)
    ensures vm.Taken() == old(vm.Taken()) + {0}
  {
    hide HeapMemory.Rep, HeapPages.Lives, EntryOf, DirOk, RegionsApart;
    var addr, phys := vm.KmallocAp(DIR_SZ);
    vm.NewDir(addr, phys);
    vm.kernDir := addr;
    var ok := vm.frames.SetFrame(0);
    Descriptor(vm);
  }

  /** The heap's descriptor and the heads of its bins. */
  method Descriptor(vm: VirtualMemory)
    requires vm.Valid() && !vm.heapReady && vm.allocPtr < KHEAP_START
    modifies vm`allocPtr
    ensures vm.Valid() && vm.allocPtr == old(vm.allocPtr) + HEAP_SZ + BIN_CNT * BIN_SZ
  {
    hide VirtualMemory.Valid;
    var heap := vm.Kmalloc(HEAP_SZ);
    var i := 0;
    while i < BIN_CNT
      invariant i <= BIN_CNT && vm.Valid() && vm.allocPtr == heap + HEAP_SZ + i * BIN_SZ
    {
      var bin := vm.Kmalloc(BIN_SZ);
      i := i + 1;
    }
  }

  lemma BootedIs(dir: PageDir, tabs: Tabs, dir': PageDir, tabs': Tabs, end: word, f0: nat, taken: set<nat>, n: nat)
    requires KERN_OFFSET < end < KHEAP_START - 0x10_0000 && n <= FRAME_CNT
    requires MapsLinear(dir, tabs, LinearEnd(end), f0) && TablesMade(dir, (end + PG_SZ - KERN_OFFSET) / 0x40_0000 + 1)
    requires SameBut(dir, tabs, dir', tabs', HEAP_PG, HEAP_PG + HEAP_PAGES)
    requires RangeMapped(dir', tabs', HEAP_PG, HEAP_PAGES, HEAP_PAGES, LinearTaken(taken, LinearEnd(end), f0), n)
    requires dir'.tables == dir.tables[HEAP_IDX := PgRoundUp(end)]
    ensures Booted(dir', tabs', end, f0, taken, n)
  {
    hide EntryOf, RangeMapped, LinearTaken;
    assert PgRoundUp(end) / PG_SZ == end / PG_SZ + 1;
    forall v | 0 <= v < PAGES && !(HEAP_PG <= v < HEAP_PG + HEAP_PAGES)
      ensures FrameOf(dir', tabs', v) == LinearFrame(v, LinearEnd(end), f0)
      ensures LinearBits(dir', tabs', v, LinearEnd(end))
    {
      assert FrameOf(dir, tabs, v) == LinearFrame(v, LinearEnd(end), f0) && LinearBits(dir, tabs, v, LinearEnd(end));
    }
  }

  /** No heap page shares a frame with another heap page or with the linear map, and the
      heap's pages are all mapped exactly when enough frames were left. */
  lemma HeapOwns(dir: PageDir, tabs: Tabs, end: word, f0: nat, taken: set<nat>, n: nat)
    requires KERN_OFFSET < end < KHEAP_START - 0x10_0000 && n <= FRAME_CNT && 0 in taken
    requires Booted(dir, tabs, end, f0, taken, n)
    ensures forall u, v :: HEAP_PG <= u < v < HEAP_PG + HEAP_PAGES && FrameOf(dir, tabs, v) != 0 ==>
      FrameOf(dir, tabs, u) != FrameOf(dir, tabs, v)
    ensures forall u, v :: KERN_PG <= u < LinearEnd(end) && HEAP_PG <= v < HEAP_PG + HEAP_PAGES ==>
      FrameOf(dir, tabs, v) == 0 || FrameOf(dir, tabs, u) != FrameOf(dir, tabs, v)
    ensures (forall v :: HEAP_PG <= v < HEAP_PG + HEAP_PAGES ==> FrameOf(dir, tabs, v) != 0) <==>
      HEAP_PAGES <= |FreeFrames(LinearTaken(taken, LinearEnd(end), f0), n)|
  {
    hide EntryOf, RangeMapped, FreeFrames;
    var linear := LinearTaken(taken, LinearEnd(end), f0);
    forall u, v | HEAP_PG <= u < HEAP_PG + HEAP_PAGES && HEAP_PG <= v < HEAP_PG + HEAP_PAGES
      ensures FrameOf(dir, tabs, v) != 0 <==> v - HEAP_PG < |FreeFrames(linear, n)|
      ensures FrameOf(dir, tabs, v) != 0 ==> FrameOf(dir, tabs, v) !in linear
      ensures FrameOf(dir, tabs, v) != 0 && u < v ==> 0 < FrameOf(dir, tabs, u) < FrameOf(dir, tabs, v)
    {
      RangeOwns(dir, tabs, HEAP_PG, HEAP_PAGES, linear, n, u, v);
    }
    forall u | KERN_PG <= u < LinearEnd(end)
      ensures FrameOf(dir, tabs, u) == 0 || FrameOf(dir, tabs, u) in linear
    {
    }
    assert FrameOf(dir, tabs, HEAP_PG + HEAP_PAGES - 1) != 0 <==> HEAP_PAGES - 1 < |FreeFrames(linear, n)|;
  }

  /** After boot the first page of the linear map shares its frame with another page exactly
      when the frame that was lowest free before is one that the map reaches. */
  lemma FirstPageShares(dir: PageDir, tabs: Tabs, end: word, f0: nat, taken: set<nat>, n: nat)
    requires KERN_OFFSET < end < KHEAP_START - 0x10_0000 && n <= FRAME_CNT && 0 in taken
    requires Booted(dir, tabs, end, f0, taken, n)
    ensures (exists v :: 0 <= v < PAGES && v != KERN_PG && FrameOf(dir, tabs, v) == FrameOf(dir, tabs, KERN_PG) != 0)
      <==> 0 < f0 < LinearEnd(end) - KERN_PG
  {
    hide EntryOf, FrameOf, RangeMapped;
    HeapOwns(dir, tabs, end, f0, taken, n);
    if 0 < f0 < LinearEnd(end) - KERN_PG {
      assert FrameOf(dir, tabs, KERN_PG + f0) == f0;
    }
  }

  lemma HeapTableMissing(dir: PageDir, end: word)
    requires end < KHEAP_START - 0x10_0000 && KERN_OFFSET <= end
    requires TablesMade(dir, (end + PG_SZ - KERN_OFFSET) / 0x40_0000 + 1)
    ensures dir.tables[HEAP_IDX] == 0
  {
  }
}
