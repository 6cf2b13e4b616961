/** Address spaces: which tables and frames the directories of several processes share. */
module Spaces {
  import opened Memory
  import opened Pmm
  import opened Paging
  import opened Vmm
  import HeapSpec

  /** Page numbers of the user half, and of the window through which a fork writes. */
  const USER_PAGES: nat := KERN_IDX * ENTRIES
  const WINDOW: word := 0xE000_0000
  const WINDOW_IDX: nat := 896
  const WINDOW_PG: nat := 0xE_0000

  type Dirs = map<word, PageDir>

  type Contents = map<Frame, Bytes>

  ghost predicate Complete(ram: Contents) {
    forall f: Frame :: f in ram
  }

  /** Directories, tables, taken frames and the kernel heap at some moment. */
  datatype Side = Side(dirs: Dirs, tabs: Tabs, taken: set<nat>, heap: HeapSpec.Heap)

  ghost function SideOf(vm: VirtualMemory): Side
    reads vm, vm.heap, vm.frames, vm.frames.frames, vm.frames.frames.bits
  {
    Side(vm.dirs, vm.tabs, vm.Taken(), vm.heap.heap)
  }

  lemma CountFits(vm: VirtualMemory)
    requires vm.Valid()
    ensures vm.frames.Count() <= FRAME_CNT && (vm.heapReady ==> vm.currentDir in vm.dirs)
  {
    hide DirOk, VirtualMemory.Supplied;
  }

  // ---------------------------------------------------------------- tables

  /** Two directories share a table only at the same index, and only in the kernel half
      unless they are the same one. */
  ghost predicate PairApart(dir: PageDir, dir': PageDir, same: bool) {
    forall i, j :: 0 <= i < ENTRIES && 0 <= j < ENTRIES && dir.tables[i] == dir'.tables[j] != 0 ==>
      i == j && (same || i >= KERN_IDX)
  }

  ghost predicate TablesApart(dirs: Dirs) {
    forall d, e :: d in dirs && e in dirs ==> PairApart(dirs[d], dirs[e], d == e)
  }

  ghost predicate AllOk(dirs: Dirs, tabs: Tabs) {
    forall d :: d in dirs ==> DirOk(dirs[d], tabs)
  }

  /** A directory gets a table at index i, its own or a new one. */
  lemma TableAdded(dirs: Dirs, dirs': Dirs, tabs: Tabs, d: word, i: nat, t: word)
    requires TablesApart(dirs) && AllOk(dirs, tabs) && d in dirs && i < ENTRIES
    requires dirs'.Keys == dirs.Keys && (forall e :: e in dirs && e != d ==> dirs'[e] == dirs[e])
    requires dirs'[d].tables == dirs[d].tables[i := t] && (t == dirs[d].tables[i] || t !in tabs)
    ensures TablesApart(dirs')
  {
    hide PairApart;
    forall a, b | a in dirs && b in dirs
      ensures PairApart(dirs'[a], dirs'[b], a == b)
    {
      assert DirOk(dirs[a], tabs) && DirOk(dirs[b], tabs) && DirOk(dirs[d], tabs);
      assert PairApart(dirs[a], dirs[b], a == b) && PairApart(dirs[d], dirs[b], d == b);
      assert PairApart(dirs[a], dirs[d], a == d);
      PairAdded(dirs[a], dirs[b], dirs'[a], dirs'[b], tabs, a == d, b == d, a == b, i, t);
    }
  }

  lemma PairAdded(x: PageDir, y: PageDir, x': PageDir, y': PageDir, tabs: Tabs, xd: bool, yd: bool, same: bool, i: nat,
                  t: word)
    requires PairApart(x, y, same) && DirOk(x, tabs) && DirOk(y, tabs)
    requires i < ENTRIES && (xd && yd ==> same) && (same ==> x == y && xd == yd)
    requires x'.tables == if xd then x.tables[i := t] else x.tables
    requires y'.tables == if yd then y.tables[i := t] else y.tables
    requires xd ==> t == x.tables[i] || t !in tabs
    requires yd ==> t == y.tables[i] || t !in tabs
    ensures PairApart(x', y', same)
  {
  }

  /** The pages of a directory other than page `but` are what they were. */
  ghost predicate Kept(dir: PageDir, tabs: Tabs, dir': PageDir, tabs': Tabs, but: nat) {
    forall v :: 0 <= v < PAGES && v != but ==> EntryOf(dir', tabs', v) == EntryOf(dir, tabs, v)
  }

  lemma KeptTrans(d0: PageDir, t0: Tabs, d1: PageDir, t1: Tabs, d2: PageDir, t2: Tabs, b1: nat, b2: nat, b: nat)
    requires Kept(d0, t0, d1, t1, b1) && Kept(d1, t1, d2, t2, b2)
    requires (b1 == b || b1 == PAGES) && (b2 == b || b2 == PAGES)
    ensures Kept(d0, t0, d2, t2, b)
  {
  }

  lemma KeptAt(d0: PageDir, t0: Tabs, d1: PageDir, t1: Tabs, b: nat, v: nat)
    requires Kept(d0, t0, d1, t1, b) && v < PAGES && v != b
    ensures EntryOf(d1, t1, v) == EntryOf(d0, t0, v) && FrameOf(d1, t1, v) == FrameOf(d0, t0, v)
  {
  }

  /** A write to a table that a directory does not hold does not show in it. */
  lemma NotSeen(dir: PageDir, tabs: Tabs, tabs': Tabs, t: word, j: nat)
    requires t in tabs' && j < ENTRIES && Sees(dir, tabs, tabs', t, j)
    requires forall i :: 0 <= i < ENTRIES ==> dir.tables[i] != t
    ensures Kept(dir, tabs, dir, tabs', PAGES)
  {
    hide EntryOf;
  }

  /** A write to a table held at index i alone shows in one page at most. */
  lemma SeenOnce(dir: PageDir, tabs: Tabs, tabs': Tabs, t: word, i: nat, j: nat)
    requires t in tabs' && i < ENTRIES && j < ENTRIES && Sees(dir, tabs, tabs', t, j)
    requires forall k :: 0 <= k < ENTRIES && k != i ==> dir.tables[k] != t
    ensures Kept(dir, tabs, dir, tabs', i * ENTRIES + j)
  {
    hide EntryOf;
    forall v | 0 <= v < PAGES && v != i * ENTRIES + j
      ensures EntryOf(dir, tabs', v) == EntryOf(dir, tabs, v)
    {
      assert v == v / ENTRIES * ENTRIES + v % ENTRIES;
    }
  }

  // ------------------------------------------------------------- user pages

  /** Every frame of a page is taken, and a user page's frame is no other page's, neither
      of the user half nor of the kernel half of any directory. */
  ghost predicate UsersOwn(dirs: Dirs, tabs: Tabs, taken: set<nat>) {
    && (forall d, v :: d in dirs && 0 <= v < PAGES && FrameOf(dirs[d], tabs, v) != 0 ==>
          FrameOf(dirs[d], tabs, v) in taken)
    && (forall d, u, e, v ::
          d in dirs && e in dirs && 0 <= u < USER_PAGES && 0 <= v < PAGES && (d != e || u != v) ==>
            FrameOf(dirs[d], tabs, u) == 0 || FrameOf(dirs[d], tabs, u) != FrameOf(dirs[e], tabs, v))
  }

  /** The address spaces of all processes: user tables and user frames are not shared, and
      the window is free. */
  ghost predicate SpacesApart(dirs: Dirs, tabs: Tabs, taken: set<nat>) {
    && TablesApart(dirs) && 0 in taken && UsersOwn(dirs, tabs, taken)
    && forall d :: d in dirs ==> FrameOf(dirs[d], tabs, WINDOW_PG) == 0
  }

  /** Mapping a clear user page to the lowest free frame keeps the spaces apart. */
  lemma MapKeepsApart(dirs: Dirs, tabs: Tabs, taken: set<nat>, dirs': Dirs, tabs': Tabs, n: nat, d: word, v: nat,
                      t: word)
    requires SpacesApart(dirs, tabs, taken) && AllOk(dirs, tabs) && n <= FRAME_CNT
    requires d in dirs && v < USER_PAGES && FrameOf(dirs[d], tabs, v) == 0
    requires dirs'.Keys == dirs.Keys && (forall e :: e in dirs && e != d ==> dirs'[e] == dirs[e])
    requires dirs'[d].tables == dirs[d].tables[v / ENTRIES := t] && t != 0
    requires (t == dirs[d].tables[v / ENTRIES] || t !in tabs)
    requires t in tabs' && forall e :: e in dirs && e != d ==> Sees(dirs[e], tabs, tabs', t, v % ENTRIES)
    requires Changed(dirs[d], tabs, dirs'[d], tabs', v, MapPte(EntryOf(dirs[d], tabs, v), true, true, 0, taken, n).0)
    ensures SpacesApart(dirs', tabs', MapPte(EntryOf(dirs[d], tabs, v), true, true, 0, taken, n).1)
    ensures forall e, u :: e in dirs && 0 <= u < PAGES && (e != d || u != v) ==>
      FrameOf(dirs'[e], tabs', u) == FrameOf(dirs[e], tabs, u)
  {
    hide EntryOf, Get, Sees, DirOk, AllOk, TablesApart, UsersOwn, FrameOf;
    GetFresh(taken, n);
    TableAdded(dirs, dirs', tabs, d, v / ENTRIES, t);
    forall e, u | e in dirs && 0 <= u < PAGES && (e != d || u != v)
      ensures FrameOf(dirs'[e], tabs', u) == FrameOf(dirs[e], tabs, u)
    {
      if e != d {
        TableElsewhere(dirs, tabs, d, e, v / ENTRIES, t);
        NotSeen(dirs[e], tabs, tabs', t, v % ENTRIES);
        KeptAt(dirs[e], tabs, dirs[e], tabs', PAGES, u);
      } else {
        ChangedAt(dirs[d], tabs, dirs'[d], tabs', v, MapPte(EntryOf(dirs[d], tabs, v), true, true, 0, taken, n).0, u);
      }
    }
    ChangedAt(dirs[d], tabs, dirs'[d], tabs', v, MapPte(EntryOf(dirs[d], tabs, v), true, true, 0, taken, n).0, v);
    UserAdded(dirs, tabs, dirs', tabs', taken, MapPte(EntryOf(dirs[d], tabs, v), true, true, 0, taken, n).1, d, v) by {
      assert FrameOf(dirs[d], tabs, v) == EntryOf(dirs[d], tabs, v).addr by { EntryFrame(dirs[d], tabs, v); }
    }
  }

  lemma EntryFrame(dir: PageDir, tabs: Tabs, v: nat)
    requires v < PAGES
    ensures FrameOf(dir, tabs, v) == EntryOf(dir, tabs, v).addr
  {
  }

  lemma ChangedAt(dir: PageDir, tabs: Tabs, dir': PageDir, tabs': Tabs, v: nat, p: Pte, u: nat)
    requires Changed(dir, tabs, dir', tabs', v, p) && u < PAGES
    ensures FrameOf(dir', tabs', u) == if u == v then p.addr else FrameOf(dir, tabs, u)
  {
    hide EntryOf;
  }

  lemma ChangedHere(dir: PageDir, tabs: Tabs, dir': PageDir, tabs': Tabs, v: nat, p: Pte)
    requires Changed(dir, tabs, dir', tabs', v, p) && v < PAGES
    ensures EntryOf(dir', tabs', v) == p
  {
    hide EntryOf;
  }

  /** One user page got a frame that was free, or none. */
  lemma UserAdded(dirs: Dirs, tabs: Tabs, dirs': Dirs, tabs': Tabs, taken: set<nat>, taken': set<nat>, d: word, v: nat)
    requires UsersOwn(dirs, tabs, taken) && d in dirs && v < USER_PAGES && dirs'.Keys == dirs.Keys
    requires forall f: Frame :: f in taken ==> f in taken'
    requires forall e, u :: e in dirs && 0 <= u < PAGES && (e != d || u != v) ==>
      FrameOf(dirs'[e], tabs', u) == FrameOf(dirs[e], tabs, u)
    requires FrameOf(dirs'[d], tabs', v) != 0 ==>
      FrameOf(dirs'[d], tabs', v) !in taken && FrameOf(dirs'[d], tabs', v) in taken'
    ensures UsersOwn(dirs', tabs', taken')
  {
    hide FrameOf;
  }

  /** A table of one directory's user half, or a new one, is in no other directory. */
  lemma TableElsewhere(dirs: Dirs, tabs: Tabs, d: word, e: word, i: nat, t: word)
    requires TablesApart(dirs) && AllOk(dirs, tabs) && d in dirs && e in dirs && e != d && i < KERN_IDX
    requires t != 0 && (t == dirs[d].tables[i] || t !in tabs)
    ensures forall k :: 0 <= k < ENTRIES ==> dirs[e].tables[k] != t
  {
    assert DirOk(dirs[e], tabs);
  }

  // ------------------------------------------- what the processor walks

  /** Tables and directories lie on page boundaries below the heap's end. */
  predicate KernelAddr(a: word) { KERN_OFFSET <= a < KHEAP_END && a % PG_SZ == 0 }

  /** The directory tells the processor where its tables and itself are: each physical word
      is the physical address of the table, as the kernel directory maps it, with the
      present, write and user bits, and 0 where there is no table. */
  ghost predicate DirPhys(dir: PageDir, d: word, tabs: Tabs, kern: PageDir) {
    && KernelAddr(d) && dir.phys == Physical(kern, tabs, d)
    && forall i :: 0 <= i < ENTRIES ==>
      if dir.tables[i] == 0 then dir.physTabs[i] == 0
      else KernelAddr(dir.tables[i]) && dir.physTabs[i] == Physical(kern, tabs, dir.tables[i]) + PDE_FLAGS
  }

  /** The directory has the kernel's tables, except that the window's is its own affair. */
  ghost predicate SameKernel(dir: PageDir, kern: PageDir) {
    forall i :: KERN_IDX <= i < ENTRIES && i != WINDOW_IDX ==> dir.tables[i] == kern.tables[i]
  }

  /** All directories can be walked, and all but `but`, which is being built, map the kernel. */
  ghost predicate Walkable(dirs: Dirs, tabs: Tabs, k: word, but: word) {
    && k in dirs && k != but
    && (forall d :: d in dirs ==> DirPhys(dirs[d], d, tabs, dirs[k]))
    && (forall d :: d in dirs && d != but ==> SameKernel(dirs[d], dirs[k]))
  }

  /** The pages that tables and directories can lie in are mapped as before. */
  ghost predicate KernFrames(kern: PageDir, tabs: Tabs, kern': PageDir, tabs': Tabs) {
    forall v :: USER_PAGES <= v < KHEAP_END / PG_SZ ==> FrameOf(kern', tabs', v) == FrameOf(kern, tabs, v)
  }

  lemma PhysicalAt(dir: PageDir, tabs: Tabs, a: word)
    requires a % PG_SZ == 0
    ensures Physical(dir, tabs, a) == FrameOf(dir, tabs, a / PG_SZ) * PG_SZ
    ensures Physical(dir, tabs, a) + PDE_FLAGS < SPACE
  {
  }

  lemma PhysicalKept(kern: PageDir, tabs: Tabs, kern': PageDir, tabs': Tabs, a: word)
    requires KernFrames(kern, tabs, kern', tabs') && KernelAddr(a)
    ensures Physical(kern', tabs', a) == Physical(kern, tabs, a)
  {
    hide FrameOf, Physical;
    PhysicalAt(kern, tabs, a);
    PhysicalAt(kern', tabs', a);
  }

  lemma DirPhysKept(dir: PageDir, d: word, kern: PageDir, tabs: Tabs, kern': PageDir, tabs': Tabs)
    requires DirPhys(dir, d, tabs, kern) && KernFrames(kern, tabs, kern', tabs')
    ensures DirPhys(dir, d, tabs', kern')
  {
    hide KernFrames, Physical;
    PhysicalKept(kern, tabs, kern', tabs', d);
    forall i | 0 <= i < ENTRIES && dir.tables[i] != 0
      ensures Physical(kern', tabs', dir.tables[i]) == Physical(kern, tabs, dir.tables[i])
    {
      PhysicalKept(kern, tabs, kern', tabs', dir.tables[i]);
    }
  }

  /** The words that the processor reads: the table's physical address with its three low bits
      set, and 0 where there is no table. */
  lemma WalkWords(dirs: Dirs, tabs: Tabs, k: word, but: word, d: word, i: nat)
    requires Walkable(dirs, tabs, k, but) && d in dirs && i < ENTRIES
    ensures dirs[d].tables[i] == 0 ==> dirs[d].physTabs[i] == 0
    ensures dirs[d].tables[i] != 0 ==> PointsTo(dirs[d].physTabs[i], Physical(dirs[k], tabs, dirs[d].tables[i]))
  {
    hide SameKernel, Physical, PointsTo;
    assert DirPhys(dirs[d], d, tabs, dirs[k]);
    if dirs[d].tables[i] != 0 {
      PhysicalAt(dirs[k], tabs, dirs[d].tables[i]);
      FlagBits(Physical(dirs[k], tabs, dirs[d].tables[i]));
    }
  }

  /** Writing page entries elsewhere leaves what the processor walks. */
  lemma WalkKept(dirs: Dirs, tabs: Tabs, tabs': Tabs, k: word, but: word)
    requires Walkable(dirs, tabs, k, but) && KernFrames(dirs[k], tabs, dirs[k], tabs')
    ensures Walkable(dirs, tabs', k, but)
  {
    hide DirPhys, SameKernel, KernFrames;
    forall d | d in dirs
      ensures DirPhys(dirs[d], d, tabs', dirs[k])
    {
      DirPhysKept(dirs[d], d, dirs[k], tabs, dirs[k], tabs');
    }
  }

  /** A directory gets a new table from the kernel heap, whose physical address the current
      directory tells. */
  lemma WalkTable(dirs: Dirs, tabs: Tabs, dirs': Dirs, tabs': Tabs, k: word, but: word, cur: word, d: word, i: nat,
                  t: word)
    requires Walkable(dirs, tabs, k, but) && d in dirs && cur in dirs && cur != but && i < ENTRIES
    requires KHEAP_START < t < KHEAP_END && t % PG_SZ == 0 && (i < KERN_IDX || i == WINDOW_IDX)
    requires dirs' == dirs[d := WithTable(dirs[d], i, t, Physical(dirs[cur], tabs, t))]
    requires KernFrames(dirs[k], tabs, dirs'[k], tabs')
    ensures Walkable(dirs', tabs', k, but)
  {
    hide DirPhys, SameKernel, KernFrames, Physical;
    CurrentMaps(dirs[cur], dirs[k], tabs, t);
    PhysicalAt(dirs[k], tabs, t);
    PhysicalKept(dirs[k], tabs, dirs'[k], tabs', t);
    forall e | e in dirs
      ensures DirPhys(dirs'[e], e, tabs', dirs'[k])
    {
      DirPhysKept(dirs[e], e, dirs[k], tabs, dirs'[k], tabs');
      if e == d { DirPhysTable(dirs[d], d, tabs', dirs'[k], i, t); }
    }
    forall e | e in dirs && e != but
      ensures SameKernel(dirs'[e], dirs'[k])
    {
      assert SameKernel(dirs[e], dirs[k]);
      SameKernelTable(dirs[e], dirs[k], dirs'[e], dirs'[k], i);
    }
  }

  lemma CurrentMaps(cur: PageDir, kern: PageDir, tabs: Tabs, t: word)
    requires SameKernel(cur, kern) && KHEAP_START < t < KHEAP_END
    ensures Physical(cur, tabs, t) == Physical(kern, tabs, t)
  {
    assert t / PG_SZ / ENTRIES == 832;
  }

  lemma DirPhysTable(dir: PageDir, d: word, tabs: Tabs, kern: PageDir, i: nat, t: word)
    requires DirPhys(dir, d, tabs, kern) && i < ENTRIES && t != 0 && KernelAddr(t)
    requires Physical(kern, tabs, t) + PDE_FLAGS < SPACE
    ensures DirPhys(WithTable(dir, i, t, Physical(kern, tabs, t)), d, tabs, kern)
  {
    hide Physical;
  }

  lemma SameKernelTable(dir: PageDir, kern: PageDir, dir': PageDir, kern': PageDir, i: nat)
    requires SameKernel(dir, kern) && (i < KERN_IDX || i == WINDOW_IDX)
    requires forall j :: 0 <= j < ENTRIES && j != i ==>
      dir'.tables[j] == dir.tables[j] && kern'.tables[j] == kern.tables[j]
    ensures SameKernel(dir', kern')
  {
  }

  // ------------------------------------------------------------- isolation

  /** A byte that process `who` stores at an offset in a user page. */
  datatype Write = Write(who: word, page: nat, off: nat, b: byte)

  ghost predicate WriteOk(dirs: Dirs, tabs: Tabs, w: Write) {
    w.who in dirs && w.page < USER_PAGES && w.off < PG_SZ && FrameOf(dirs[w.who], tabs, w.page) != 0
  }

  ghost function Store(dirs: Dirs, tabs: Tabs, ram: Contents, w: Write): Contents
    requires Complete(ram) && WriteOk(dirs, tabs, w)
  {
    var f := FrameOf(dirs[w.who], tabs, w.page);
    ram[f := ram[f][w.off := w.b]]
  }

  /** The frames after a run of writes. */
  ghost function StoreAll(dirs: Dirs, tabs: Tabs, ram: Contents, ws: seq<Write>): (r: Contents)
    requires Complete(ram) && forall w :: w in ws ==> WriteOk(dirs, tabs, w)
    ensures Complete(r)
    decreases |ws|
  {
    if ws == [] then ram else StoreAll(dirs, tabs, Store(dirs, tabs, ram, ws[0]), ws[1..])
  }

  /** The writes of one process, in order. */
  ghost function Own(ws: seq<Write>, who: word): (r: seq<Write>)
    ensures forall w :: w in r ==> w in ws
  {
    if ws == [] then []
    else if ws[0].who == who then [ws[0]] + Own(ws[1..], who)
    else Own(ws[1..], who)
  }

  /** The two memories show process `who` the same user pages. */
  ghost predicate LooksSame(dirs: Dirs, tabs: Tabs, who: word, r: Contents, r': Contents)
    requires Complete(r) && Complete(r') && who in dirs
  {
    forall v :: 0 <= v < USER_PAGES && FrameOf(dirs[who], tabs, v) != 0 ==>
      r[FrameOf(dirs[who], tabs, v)] == r'[FrameOf(dirs[who], tabs, v)]
  }

  /** Whatever any number of processes write, in whatever order, each sees what it would
      see had it been alone. */
  lemma {:induction false} Isolated(dirs: Dirs, tabs: Tabs, taken: set<nat>, ws: seq<Write>, who: word, r: Contents,
                                    r': Contents)
    requires UsersOwn(dirs, tabs, taken) && who in dirs
    requires forall w :: w in ws ==> WriteOk(dirs, tabs, w)
    requires Complete(r) && Complete(r') && LooksSame(dirs, tabs, who, r, r')
    ensures LooksSame(dirs, tabs, who, StoreAll(dirs, tabs, r, ws), StoreAll(dirs, tabs, r', Own(ws, who)))
    decreases |ws|
  {
    hide FrameOf;
    if ws != [] {
      var w := ws[0];
      assert w in ws && WriteOk(dirs, tabs, w);
      if w.who == who {
        var own := Own(ws, who);
        assert own[0] == w && own[1..] == Own(ws[1..], who);
        Isolated(dirs, tabs, taken, ws[1..], who, Store(dirs, tabs, r, w), Store(dirs, tabs, r', w));
      } else {
        Isolated(dirs, tabs, taken, ws[1..], who, Store(dirs, tabs, r, w), r');
      }
    }
  }
}
