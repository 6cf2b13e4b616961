/** Page directories, page tables and the allocator that serves them, as the kernel
    keeps them in memory: directories and tables are named by their addresses. */
module Vmm {
  import opened Memory
  import opened Pmm
  import opened Paging
  import opened HeapPages
  import opened KHeap
  import BinIndex
  import HeapMemory
  import HeapSpec
  import HeapRuns

  const TAB_SZ: word := 4096
  const DIR_SZ: word := 8196
  const KHEAP_START: word := 0xD000_0000
  const KHEAP_END: word := 0xD010_0000

  /** A pointer to a page entry. */
  datatype PtePtr = NoPte | PteAt(tab: word, idx: nat)

  /** The contents of a page frame. */
  type Bytes = b: seq<byte> | |b| == PG_SZ witness seq(PG_SZ, _ => 0)

  /** The next page boundary; an address on a boundary moves up all the same. */
  function PgRoundUp(x: int): int { x - x % PG_SZ + PG_SZ }

  /** The bytes [a, a + n) and [b, b + m) do not overlap. */
  predicate Clear(a: int, n: int, b: int, m: int) { a + n <= b || b + m <= a }

  /** No table or directory overlaps [a, a + n). */
  ghost predicate AwayFrom(a: int, n: int, tabs: set<word>, dirs: set<word>) {
    (forall t :: t in tabs ==> Clear(a, n, t, TAB_SZ)) && (forall d :: d in dirs ==> Clear(a, n, d, DIR_SZ))
  }

  /** Tables and directories do not overlap. */
  ghost predicate RegionsApart(tabs: set<word>, dirs: set<word>) {
    && (forall t, u :: t in tabs && u in tabs && t != u ==> Clear(t, TAB_SZ, u, TAB_SZ))
    && (forall t, d :: t in tabs && d in dirs ==> Clear(t, TAB_SZ, d, DIR_SZ))
    && (forall d, e :: d in dirs && e in dirs && d != e ==> Clear(d, DIR_SZ, e, DIR_SZ))
  }

  lemma TablePlaced(tabs: set<word>, dirs: set<word>, t: word)
    requires RegionsApart(tabs, dirs) && AwayFrom(t, TAB_SZ, tabs, dirs)
    ensures RegionsApart(tabs + {t}, dirs) && t !in tabs && t !in dirs
  {
  }

  lemma DirPlaced(tabs: set<word>, dirs: set<word>, d: word)
    requires RegionsApart(tabs, dirs) && AwayFrom(d, DIR_SZ, tabs, dirs)
    ensures RegionsApart(tabs, dirs + {d}) && d !in tabs && d !in dirs
  {
  }

  lemma AwayNew(a: word, n: word, tabs: set<word>, dirs: set<word>)
    requires AwayFrom(a, n, tabs, dirs) && 0 < n
    ensures a !in tabs && a !in dirs
  {
  }

  class VirtualMemory {
    const frames: FrameAllocator
    const heap: KernelHeap
    var allocPtr: word          // the boot allocator's next free byte
    var heapReady: bool         // the kernel heap serves allocations
    var dirs: map<word, PageDir>
    var tabs: Tabs
    var kernDir: word
    var currentDir: word
    var ram: map<Frame, Bytes>  // the frames' contents

    /** The n bytes at `a` lie below the heap or are one of its live blocks. */
    ghost predicate Held(a: word, n: word)
      reads heap
    {
      a + n <= heap.start || Lives(heap.heap, a - HeapSpec.OFFSET, n)
    }

    /** What is allocated next is clear of all tables and directories. */
    ghost predicate Supplied()
      reads this, heap
    {
      if heapReady then
        && heap.Valid()
        && (forall t :: t in tabs ==> Held(t, TAB_SZ))
        && (forall d :: d in dirs ==> Held(d, DIR_SZ))
      else
        && KERN_OFFSET <= allocPtr
        && (forall t :: t in tabs ==> t + TAB_SZ <= allocPtr)
        && (forall d :: d in dirs ==> d + DIR_SZ <= allocPtr)
    }

    ghost predicate Valid()
      reads this, heap, frames, frames.frames
    {
      && frames.Valid() && frames.Count() <= FRAME_CNT
      && heap.start == KHEAP_START && heap.end == KHEAP_END
      && 0 !in tabs && 0 !in dirs
      && (forall d :: d in dirs ==> DirOk(dirs[d], tabs))
      && RegionsApart(tabs.Keys, dirs.Keys) && Supplied()
      && (heapReady ==> currentDir in dirs)
    }

    ghost function Taken(): set<nat>
      reads this, frames, frames.frames, frames.frames.bits
    {
      frames.Taken()
    }

    /** How many page tables the kernel heap can still provide. */
    ghost function Room(): nat
      reads heap
    {
      Rooms(heap.heap, TAB_SZ)
    }

    /** The kernel before paging: nothing allocated, the bump pointer at `end`. */
    constructor (frames: FrameAllocator, heap: KernelHeap, end: word)
      requires frames.Valid() && frames.Count() <= FRAME_CNT && KERN_OFFSET <= end
      requires heap.start == KHEAP_START && heap.end == KHEAP_END
      ensures Valid() && this.frames == frames && this.heap == heap && !heapReady && allocPtr == end
      ensures dirs == map[] && tabs == map[] && kernDir == 0
    {
      this.frames, this.heap := frames, heap;
      allocPtr := end;
      heapReady := false;
      dirs, tabs := map[], map[];
      kernDir, currentDir := 0, 0;
      ram := map[];
    }

    // ------------------------------------------------------------- kmalloc

    /** Unaligned boot allocation. */
    method Kmalloc(sz: word) returns (addr: word)
      requires Valid() && !heapReady && allocPtr + sz < SPACE
      modifies this`allocPtr
      ensures Valid() && addr == old(allocPtr) && allocPtr == old(allocPtr) + sz
    {
      addr := allocPtr;
      allocPtr := allocPtr + sz;
    }

    /** A page-aligned block of the kernel heap. */
    method HeapBlock(sz: word) returns (addr: word)
      requires heapReady && Supplied() && CanPage(heap.heap, sz) && 0 < sz
      modifies heap
      ensures Supplied() && heap.start < addr < heap.end && addr % PG_SZ == 0
      ensures Held(addr, sz) && AwayFrom(addr, sz, tabs.Keys, dirs.Keys)
      ensures addr == PagePtr(old(heap.heap)) && heap.heap == Paged(old(heap.heap), sz)
    {
      hide HeapMemory.Rep, HeapRuns.Wilderness, HeapSpec.Extra, HeapSpec.FitsAligned, HeapSpec.AllocA, HeapSpec.Inv;
      ghost var h := heap.heap;
      PagedFresh(h, sz);
      addr := heap.AllocateAligned(sz);
      HeldApart(addr, sz, tabs.Keys, TAB_SZ, h);
      HeldApart(addr, sz, dirs.Keys, DIR_SZ, h);
    }

    /** A new block is clear of what was held before. */
    lemma HeldApart(addr: word, sz: word, held: set<word>, n: word, h: HeapSpec.Heap)
      requires HeapSpec.Inv(heap.heap) && heap.start < addr && Lives(heap.heap, addr - HeapSpec.OFFSET, sz)
      requires addr - HeapSpec.OFFSET !in h.size && (forall c, m :: Lives(h, c, m) ==> Lives(heap.heap, c, m))
      requires forall a :: a in held ==> a + n <= heap.start || Lives(h, a - HeapSpec.OFFSET, n)
      ensures forall a :: a in held ==> Clear(addr, sz, a, n)
    {
      hide HeapSpec.Inv;
      forall a | a in held
        ensures Clear(addr, sz, a, n)
      {
        if Lives(h, a - HeapSpec.OFFSET, n) {
          LivesApart(heap.heap, addr - HeapSpec.OFFSET, sz, a - HeapSpec.OFFSET, n);
        }
      }
    }

    /** Page-aligned allocation with the physical address. */
    method KmallocAp(sz: word) returns (addr: word, phys: word)
      requires Valid()
      requires 0 < sz && if heapReady then CanPage(heap.heap, sz) else PgRoundUp(allocPtr) + sz < SPACE
      modifies this`allocPtr, heap
      ensures Valid() && addr != 0 && addr % PG_SZ == 0 && phys % PG_SZ == 0 && addr !in tabs && addr !in dirs
      ensures AwayFrom(addr, sz, tabs.Keys, dirs.Keys)
      ensures heapReady ==>
        addr == PagePtr(old(heap.heap)) && heap.heap == Paged(old(heap.heap), sz) && allocPtr == old(allocPtr)
      ensures heapReady ==>
        heap.start < addr < heap.end && Held(addr, sz) && phys == Physical(dirs[currentDir], tabs, addr)
      ensures !heapReady ==>
        addr == PgRoundUp(old(allocPtr)) && allocPtr == addr + sz && phys == addr - KERN_OFFSET && unchanged(heap)
      ensures !heapReady ==> old(allocPtr) < addr <= old(allocPtr) + PG_SZ
    {
      hide DirOk, EntryOf, HeapMemory.Rep, CanPage, Paged, PagePtr, Lives, RegionsApart;
      if heapReady {
        addr := HeapBlock(sz);
        AwayNew(addr, sz, tabs.Keys, dirs.Keys);
        phys := GetPhysical(addr, currentDir);
      } else {
        allocPtr := PgRoundUp(allocPtr);
        phys := allocPtr - KERN_OFFSET;
        addr := allocPtr;
        allocPtr := allocPtr + sz;
      }
    }

    // ---------------------------------------------------------- translation

    /** The physical address of a virtual one; 0 when its table is missing. */
    method GetPhysical(virt: word, d: word) returns (r: word)
      requires d in dirs && DirOk(dirs[d], tabs)
      ensures r == Physical(dirs[d], tabs, virt)
      ensures dirs[d].tables[PdIdx(virt)] == 0 ==> r == 0
      ensures dirs[d].tables[PdIdx(virt)] != 0 ==>
        virt / PG_SZ < PAGES && r / PG_SZ == FrameOf(dirs[d], tabs, virt / PG_SZ) && r % PG_SZ == virt % PG_SZ
    {
      var pdIdx, ptIdx, offset := PdIdx(virt), PtIdx(virt), virt % PG_SZ;
      IndexSplit(virt, 0, 0);
      r := 0;
      if dirs[d].tables[pdIdx] != 0 {
        var p := tabs[dirs[d].tables[pdIdx]][ptIdx];
        r := p.addr * PG_SZ + offset;
      }
    }

    /** The entry that maps an address. A missing table is made when asked for. */
    method GetPage(addr: word, create: bool, d: word) returns (p: PtePtr)
      requires Valid() && d in dirs
      requires create && dirs[d].tables[PdIdx(addr)] == 0 ==>
        if heapReady then Room() > 0 else PgRoundUp(allocPtr) + TAB_SZ < SPACE
      modifies this`allocPtr, this`dirs, this`tabs, heap
      ensures Valid()
      ensures old(dirs)[d].tables[PdIdx(addr)] != 0 ==>
        && p == PteAt(old(dirs)[d].tables[PdIdx(addr)], PtIdx(addr))
        && unchanged(this`allocPtr, this`dirs, this`tabs, heap)
      ensures old(dirs)[d].tables[PdIdx(addr)] == 0 && !create ==>
        p == NoPte && unchanged(this`allocPtr, this`dirs, this`tabs, heap)
      ensures old(dirs)[d].tables[PdIdx(addr)] == 0 && create ==>
        && p.PteAt? && p.idx == PtIdx(addr) && p.tab != 0 && p.tab % PG_SZ == 0
        && p.tab !in old(tabs) && p.tab !in old(dirs)
        && tabs == old(tabs)[p.tab := ZeroTab()] && (forall i :: 0 <= i < ENTRIES ==> Vacant(tabs[p.tab][i]))
        && dirs == old(dirs)[d := WithTable(old(dirs)[d], PdIdx(addr), p.tab,
             if heapReady then Physical(old(dirs)[currentDir], old(tabs), p.tab) else p.tab - KERN_OFFSET)]
        && (if heapReady then NextPage(p.tab, old(heap.heap)) && allocPtr == old(allocPtr)
            else p.tab == PgRoundUp(old(allocPtr)) && allocPtr == p.tab + TAB_SZ && unchanged(heap))
    {
      hide DirOk, EntryOf, HeapMemory.Rep, Lives, Rooms, Supplied, RegionsApart;
      var pdIdx, ptIdx := PdIdx(addr), PtIdx(addr);
      IndexSplit(addr, 0, 0);
      if dirs[d].tables[pdIdx] != 0 {
        p := PteAt(dirs[d].tables[pdIdx], ptIdx);
      } else if create {
        var t := MakeTable(d, pdIdx);
        p := PteAt(t, ptIdx);
      } else {
        p := NoPte;
      }
    }

    /** Allocates a table, clears it and enters it. */
    method MakeTable(d: word, i: nat) returns (t: word)
      requires Valid() && d in dirs && i < ENTRIES && dirs[d].tables[i] == 0
      requires if heapReady then Room() > 0 else PgRoundUp(allocPtr) + TAB_SZ < SPACE
      modifies this`allocPtr, this`dirs, this`tabs, heap
      ensures Valid() && t != 0 && t % PG_SZ == 0 && t !in old(tabs) && t !in old(dirs)
      ensures tabs == old(tabs)[t := ZeroTab()]
      ensures dirs == old(dirs)[d := WithTable(old(dirs)[d], i, t,
        if heapReady then Physical(old(dirs)[currentDir], old(tabs), t) else t - KERN_OFFSET)]
      ensures if heapReady then NextPage(t, old(heap.heap)) && allocPtr == old(allocPtr)
        else t == PgRoundUp(old(allocPtr)) && allocPtr == t + TAB_SZ && unchanged(heap)
    {
      hide DirOk, EntryOf, HeapMemory.Rep, Rooms, CanPage, Paged, PagePtr, Lives, Physical, RegionsApart, AwayFrom;
      hide Vacant, HeapSpec.Inv, PgRoundUp, Clear;
      RoomTaken(heap.heap, TAB_SZ);
      var addr, phys := KmallocAp(TAB_SZ);
      t := addr;
      TablePlaced(tabs.Keys, dirs.Keys, t);
      TableKeepsDirs(dirs, tabs, d, i, t, phys + PDE_FLAGS);
      assert tabs[t := ZeroTab()].Keys == tabs.Keys + {t};
      assert dirs[d := AddTable(dirs[d], i, t, phys + PDE_FLAGS)].Keys == dirs.Keys;
      tabs := tabs[t := ZeroTab()];
      dirs := dirs[d := AddTable(dirs[d], i, t, phys + PDE_FLAGS)];
    }

    /** The heap has handed out a page-aligned block for a table, at `addr`. */
    ghost predicate NextPage(addr: word, h: HeapSpec.Heap)
      reads heap
    {
      && addr == PagePtr(h) && KHEAP_START < addr < KHEAP_END
      && heap.heap == Paged(h, TAB_SZ) && Room() == Rooms(h, TAB_SZ) - 1
    }

    /** Writes the fields of an entry. */
    method SetEntry(p: PtePtr, q: Pte)
      requires Valid() && p.PteAt? && p.tab in tabs && p.idx < ENTRIES
      modifies this`tabs
      ensures Valid() && tabs == SetPte(old(tabs), p.tab, p.idx, q)
    {
      hide DirOk, EntryOf, HeapMemory.Rep, Lives, RegionsApart;
      EntryKeepsDirs(dirs, tabs, p.tab, p.idx, q);
      assert SetPte(tabs, p.tab, p.idx, q).Keys == tabs.Keys;
      tabs := SetPte(tabs, p.tab, p.idx, q);
    }

    /** Maps an entry: to the given frame address, or with 0 to the lowest free frame. */
    method MapPage(p: PtePtr, usr: bool, write: bool, addr: word)
      requires Valid() && p.PteAt? && p.tab in tabs && p.idx < ENTRIES
      modifies this`tabs, frames.frames.bits
      ensures Valid()
      ensures var r := MapPte(old(tabs)[p.tab][p.idx], usr, write, addr, old(Taken()), frames.Count());
        tabs == SetPte(old(tabs), p.tab, p.idx, r.0) && Taken() == r.1
      ensures var p0, q := old(tabs)[p.tab][p.idx], tabs[p.tab][p.idx];
        && q.rw == write && q.usr == !usr
        && (!q.present <==> p0.addr == 0 && addr != 0 && addr / PG_SZ >= frames.Count())
        && Mapped(p0, q, usr, write, addr, old(Taken()), Taken(), frames.Count())
    {
      hide Get, Least, EntryOf, DirOk, Supplied, RegionsApart;
      ghost var taken, n := Taken(), frames.Count();
      var pg := tabs[p.tab][p.idx];
      var present := true;
      var frame: Frame := pg.addr;
      if pg.addr == 0 {
        if addr != 0 {
          var success := frames.SetFrame(addr);
          if success != 0 {
            frame := addr / PG_SZ;
          } else {
            present := false;
          }
        } else {
          var got := frames.GetFrame();
          if got != NO_FRAME {
            frame := got / PG_SZ;
          } else {
            GetNone(taken, n);
          }
        }
      }
      SetEntry(p, Pte(present, write, !usr, frame));
      MapExact(pg, usr, write, addr, taken, n);
    }

    /** Clears an entry and releases its frame. */
    method UnmapPage(p: PtePtr)
      requires Valid() && p.PteAt? && p.tab in tabs && p.idx < ENTRIES
      modifies this`tabs, frames.frames.bits
      ensures Valid()
      ensures tabs == SetPte(old(tabs), p.tab, p.idx, NO_PAGE)
      ensures var q := tabs[p.tab][p.idx]; !q.present && !q.rw && !q.usr && q.addr == 0
      ensures Taken() == UnmapPte(old(tabs)[p.tab][p.idx], old(Taken()), frames.Count())
    {
      hide DirOk, EntryOf, Supplied, RegionsApart;
      var pg := tabs[p.tab][p.idx];
      if pg.addr != 0 {
        frames.FreeFrame(pg.addr);
      }
      SetEntry(p, NO_PAGE);
    }

    /** Finds or makes the entry of an address and maps it: through directory `d` exactly
        that page changes, and through others the pages that show the same table entry. */
    method MapAt(va: word, usr: bool, write: bool, addr: word, d: word) returns (p: PtePtr)
      requires Valid() && d in dirs
      requires dirs[d].tables[PdIdx(va)] == 0 ==> if heapReady then Room() > 0 else PgRoundUp(allocPtr) + TAB_SZ < SPACE
      modifies this`allocPtr, this`dirs, this`tabs, heap, frames.frames.bits
      ensures Valid() && dirs.Keys == old(dirs).Keys && (forall e :: e in dirs && e != d ==> dirs[e] == old(dirs)[e])
      ensures va / PG_SZ < PAGES && PtIdx(va) < ENTRIES && p == PteAt(dirs[d].tables[PdIdx(va)], PtIdx(va))
      ensures var p0 := EntryOf(old(dirs)[d], old(tabs), va / PG_SZ);
        var r := MapPte(p0, usr, write, addr, old(Taken()), frames.Count());
        && Taken() == r.1 && Changed(old(dirs)[d], old(tabs), dirs[d], tabs, va / PG_SZ, r.0)
      ensures var t := dirs[d].tables[PdIdx(va)];
        && t != 0 && t in tabs && dirs[d].tables == old(dirs)[d].tables[PdIdx(va) := t]
        && SameTables(old(dirs)[d], dirs[d], PdIdx(va))
        && forall e :: e in dirs && e != d ==> Sees(dirs[e], old(tabs), tabs, t, PtIdx(va))
      ensures Sound(old(tabs)) && Fine(EntryOf(dirs[d], tabs, va / PG_SZ)) ==> Sound(tabs)
      ensures old(dirs)[d].tables[PdIdx(va)] != 0 ==> unchanged(this`allocPtr, this`dirs, heap)
      ensures old(dirs)[d].tables[PdIdx(va)] == 0 ==>
        var t := dirs[d].tables[PdIdx(va)];
        && t !in old(tabs) && t % PG_SZ == 0
        && dirs == old(dirs)[d := WithTable(old(dirs)[d], PdIdx(va), t,
             if heapReady then Physical(old(dirs)[currentDir], old(tabs), t) else t - KERN_OFFSET)]
        && if heapReady then NextPage(t, old(heap.heap)) && allocPtr == old(allocPtr)
           else t == PgRoundUp(old(allocPtr)) && allocPtr == t + TAB_SZ && unchanged(heap)
    {
      hide MapPte, DirOk, HeapMemory.Rep, Rooms, Paged, PagePtr, Lives, Sees, RegionsApart, Physical, Supplied;
      hide Sound, Fine, Mapped;
      IndexSplit(va, 0, 0);
      ghost var dirs0, tabs0, v := dirs, tabs, va / PG_SZ;
      p := GetPage(va, true, d);
      ghost var dir1, tabs1 := dirs[d], tabs;
      if dirs0[d].tables[PdIdx(va)] == 0 {
        AddTableFlat(dirs0[d], tabs0, PdIdx(va), p.tab, dir1.physTabs[PdIdx(va)]);
      }
      TableThere(dir1, tabs1, PdIdx(va));
      assert tabs1[p.tab][p.idx] == EntryOf(dir1, tabs1, v);
      assert EntryOf(dir1, tabs1, v) == EntryOf(dirs0[d], tabs0, v);
      MapPage(p, usr, write, addr);
      SoundStep(tabs0, tabs1, p.tab, p.idx, tabs[p.tab][p.idx]);
      SetPteFlat(dir1, tabs1, PdIdx(va), PtIdx(va), tabs[p.tab][p.idx]);
      forall e | e in dirs && e != d
        ensures Sees(dirs[e], tabs0, tabs, p.tab, p.idx)
      {
        OthersSee(dirs[e], tabs0, tabs1, p.tab, p.idx, tabs[p.tab][p.idx]);
      }
    }

    /** Enters a new, empty directory at an address just allocated. */
    method NewDir(addr: word, phys: word)
      requires Valid() && addr != 0 && AwayFrom(addr, DIR_SZ, tabs.Keys, dirs.Keys)
      requires if heapReady then Held(addr, DIR_SZ) else addr + DIR_SZ <= allocPtr
      modifies this`dirs
      ensures Valid() && dirs == old(dirs)[addr := ZeroDir(phys)]
    {
      hide HeapMemory.Rep, Lives, RegionsApart, AwayFrom;
      DirPlaced(tabs.Keys, dirs.Keys, addr);
      assert dirs[addr := ZeroDir(phys)].Keys == dirs.Keys + {addr};
      dirs := dirs[addr := ZeroDir(phys)];
    }

    /** Sets up the kernel heap, above everything allocated so far; from now on it serves
        allocations. */
    method UseHeap()
      requires Valid() && !heapReady && currentDir in dirs && allocPtr <= heap.start
      requires heap.ram[heap.end] == 0 && heap.heads == seq(BinIndex.BIN_CNT, _ => 0)
      modifies this`heapReady, heap
      ensures Valid() && heapReady && heap.heap == HeapSpec.Init(heap.start, heap.end)
    {
      hide HeapMemory.Rep, Lives;
      heap.Initialize();
      heapReady := true;
    }

    /** `switch_page_directory`. */
    method SwitchTo(d: word)
      requires Valid() && d in dirs
      modifies this`currentDir
      ensures Valid() && currentDir == d
    {
      currentDir := d;
    }
  }

  /** Present, writable, for users: the low bits of a physical table word. */
  const PDE_FLAGS: word := 7

  /** Bits 0, 1 and 2 of a table word are set, for present, writable and user, and the
      rest of it is the table's address. */
  predicate PointsTo(w: int, phys: int) {
    w % 2 == 1 && w / 2 % 2 == 1 && w / 4 % 2 == 1 && w / 8 * 8 == phys
  }

  lemma FlagBits(phys: word)
    requires phys % PG_SZ == 0
    ensures phys + PDE_FLAGS < SPACE && PointsTo(phys + PDE_FLAGS, phys)
  {
    LowBits(512 * (phys / PG_SZ));
    assert phys == 8 * (512 * (phys / PG_SZ));
  }

  lemma LowBits(q: nat)
    ensures PointsTo(8 * q + 7, 8 * q)
  {
    assert (8 * q + 7) / 2 == 4 * q + 3 && (8 * q + 7) / 4 == 2 * q + 1;
  }

  /** A directory with a new table, whose page-aligned physical address it tells the CPU. */
  function WithTable(dir: PageDir, i: nat, t: word, phys: int): PageDir
    requires i < ENTRIES
  {
    AddTable(dir, i, t, (phys + PDE_FLAGS) % SPACE)
  }

  /** The physical address that the flat map gives a virtual one. */
  function Physical(dir: PageDir, tabs: Tabs, virt: word): word {
    if TableOf(dir, virt / PG_SZ) != 0 then FrameOf(dir, tabs, virt / PG_SZ) * PG_SZ + virt % PG_SZ else 0
  }

  /** A write to entry j of table t, which may have been made for it, as another directory
      sees it. */
  lemma OthersSee(dir: PageDir, tabs: Tabs, tabs1: Tabs, t: word, j: nat, p: Pte)
    requires DirOk(dir, tabs) && t in tabs1 && j < ENTRIES
    requires tabs1 == tabs || (t !in tabs && tabs1 == tabs[t := ZeroTab()])
    ensures Sees(dir, tabs, SetPte(tabs1, t, j, p), t, j)
  {
    if t !in tabs { AddTableElsewhere(dir, tabs, t); }
    SetPteSeen(dir, tabs1, t, j, p);
  }

  lemma TableThere(dir: PageDir, tabs: Tabs, i: nat)
    requires DirOk(dir, tabs) && i < ENTRIES && dir.tables[i] != 0
    ensures dir.tables[i] in tabs
  {
  }

  lemma EntryKeepsDirs(dirs: map<word, PageDir>, tabs: Tabs, t: word, i: nat, p: Pte)
    requires t in tabs && i < ENTRIES && forall d :: d in dirs ==> DirOk(dirs[d], tabs)
    ensures forall d :: d in dirs ==> DirOk(dirs[d], SetPte(tabs, t, i, p))
  {
  }

  lemma TableKeepsDirs(dirs: map<word, PageDir>, tabs: Tabs, d: word, i: nat, t: word, phys: word)
    requires (forall e :: e in dirs ==> DirOk(dirs[e], tabs)) && d in dirs && i < ENTRIES && dirs[d].tables[i] == 0
    requires t != 0 && t !in tabs
    ensures forall e :: e in dirs ==> DirOk(dirs[d := AddTable(dirs[d], i, t, phys)][e], tabs[t := ZeroTab()])
  {
    hide DirOk, EntryOf;
    AddTableFlat(dirs[d], tabs, i, t, phys);
    forall e | e in dirs
      ensures DirOk(dirs[e], tabs[t := ZeroTab()])
    {
      AddTableElsewhere(dirs[e], tabs, t);
    }
  }

  lemma GetNone(taken: set<nat>, n: nat)
    requires Get(taken, n).0 == NO_FRAME
    ensures Get(taken, n).1 == taken
  {
    GetFull(taken, n);
  }
}
