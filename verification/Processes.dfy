/** The address spaces of processes refine private memories, over runs of writes, new pages
    and forks. */
module Processes {
  import opened Memory
  import opened Pmm
  import opened Paging
  import opened Vmm
  import opened HeapPages
  import opened Spaces
  import opened Fork
  import opened Tasking

  // ------------------------------------------------------- private memories

  /** The user pages of each process, as if each had a memory of its own. */
  type View = map<nat, Bytes>

  type Views = map<word, View>

  ghost function WithPage(view: View, page: nat, b: Bytes): View { view[page := b] }

  ghost function WithByte(b: Bytes, off: nat, v: byte): Bytes
    requires off < PG_SZ
  {
    b[off := v]
  }

  /** What happens: a process stores a byte, gets a page with some contents, or forks. */
  datatype Event = WriteEv(w: Write) | MapEv(who: word, page: nat, init: Bytes) | ForkEv(parent: word, child: word)

  /** On private memories a write changes one byte of one process, a new page is one
      process's, and a child begins with what its parent has. */
  ghost function PrivateStep(views: Views, e: Event): Views {
    match e
    case WriteEv(w) =>
      if w.who in views && w.page in views[w.who] && w.off < PG_SZ then
        views[w.who := WithPage(views[w.who], w.page, WithByte(views[w.who][w.page], w.off, w.b))]
      else views
    case MapEv(who, page, init) => if who in views then views[who := WithPage(views[who], page, init)] else views
    case ForkEv(parent, child) => if parent in views then views[child := views[parent]] else views
  }

  ghost function PrivateRun(views: Views, es: seq<Event>): Views
    decreases |es|
  {
    if es == [] then views else PrivateRun(PrivateStep(views, es[0]), es[1..])
  }

  /** What one process has depends on no other process's writes and pages. */
  lemma PrivateOthers(views: Views, e: Event, p: word)
    requires p in views && (e.WriteEv? ==> e.w.who != p) && (e.MapEv? ==> e.who != p) && (e.ForkEv? ==> e.child != p)
    ensures p in PrivateStep(views, e) && PrivateStep(views, e)[p] == views[p]
  {
  }

  // ----------------------------------------------------------- the machine

  datatype World = World(dirs: Dirs, tabs: Tabs, taken: set<nat>, ram: Contents)

  /** The frame of a user page, 0 when there is none. */
  ghost function UserFrame(w: World, d: word, v: nat): Frame {
    if d in w.dirs && v < USER_PAGES then FrameOf(w.dirs[d], w.tabs, v) else 0
  }

  /** All pages of the old directories keep their frames, except that page `page` of `who`
      may be new, and mapped user pages keep their contents. Frames behind the kernel half
      may have changed. */
  ghost predicate Carried(a: World, b: World, who: word, page: nat) {
    && Complete(a.ram) && Complete(b.ram) && a.dirs.Keys <= b.dirs.Keys
    && (forall f: Frame :: f in a.taken ==> f in b.taken)
    && (forall d, v :: d in a.dirs && 0 <= v < PAGES && (d != who || v != page) ==>
          FrameOf(b.dirs[d], b.tabs, v) == FrameOf(a.dirs[d], a.tabs, v))
    && (forall d, v :: d in a.dirs && 0 <= v < USER_PAGES && UserFrame(a, d, v) != 0 ==>
          b.ram[UserFrame(a, d, v)] == a.ram[UserFrame(a, d, v)])
  }

  ghost predicate WriteStep(a: World, w: Write, b: World) {
    Complete(a.ram) && WriteOk(a.dirs, a.tabs, w) && b == a.(ram := Store(a.dirs, a.tabs, a.ram, w))
  }

  /** A clear page gets a frame that was free, with whatever that frame holds. */
  ghost predicate MapStep(a: World, who: word, page: nat, init: Bytes, b: World) {
    && Carried(a, b, who, page) && b.dirs.Keys == a.dirs.Keys && who in a.dirs && page < USER_PAGES
    && UserFrame(a, who, page) == 0 && UserFrame(b, who, page) != 0
    && UserFrame(b, who, page) !in a.taken && UserFrame(b, who, page) in b.taken
    && b.ram[UserFrame(b, who, page)] == init
  }

  /** A new directory has its parent's pages, in frames of its own that were free, and some
      old directory's kernel half. */
  ghost predicate ForkStep(a: World, parent: word, child: word, b: World) {
    && Carried(a, b, child, 0) && parent in a.dirs && child !in a.dirs && b.dirs.Keys == a.dirs.Keys + {child}
    && (exists k :: k in a.dirs && forall v :: USER_PAGES <= v < PAGES ==>
          FrameOf(b.dirs[child], b.tabs, v) == FrameOf(b.dirs[k], b.tabs, v))
    && (forall v :: 0 <= v < USER_PAGES && UserFrame(a, parent, v) == 0 ==> UserFrame(b, child, v) == 0)
    && (forall v :: 0 <= v < USER_PAGES && UserFrame(a, parent, v) != 0 ==> ChildPage(a, parent, child, b, v))
    && (forall u, v :: 0 <= u < v < USER_PAGES && UserFrame(a, parent, u) != 0 && UserFrame(a, parent, v) != 0 ==>
          UserFrame(b, child, u) != UserFrame(b, child, v))
  }

  ghost predicate ChildPage(a: World, parent: word, child: word, b: World, v: nat)
    requires Complete(a.ram) && Complete(b.ram)
  {
    && UserFrame(b, child, v) != 0 && UserFrame(b, child, v) !in a.taken && UserFrame(b, child, v) in b.taken
    && b.ram[UserFrame(b, child, v)] == a.ram[UserFrame(a, parent, v)]
  }

  ghost predicate StepOf(a: World, e: Event, b: World) {
    match e
    case WriteEv(w) => WriteStep(a, w, b)
    case MapEv(who, page, init) => MapStep(a, who, page, init, b)
    case ForkEv(parent, child) => ForkStep(a, parent, child, b)
  }

  /** Processes see their private memories. */
  ghost predicate Agree(w: World, views: Views) {
    && Complete(w.ram) && views.Keys == w.dirs.Keys
    && forall d, v :: d in w.dirs ==> PageAgrees(w, views[d], d, v)
  }

  ghost predicate PageAgrees(w: World, view: View, d: word, v: nat)
    requires Complete(w.ram)
  {
    (v in view <==> UserFrame(w, d, v) != 0) && (v in view ==> w.ram[UserFrame(w, d, v)] == view[v])
  }

  ghost predicate Owned(w: World) { UsersOwn(w.dirs, w.tabs, w.taken) }

  /** User frames are taken and not shared. */
  lemma OwnedUser(w: World, d: word, u: nat, e: word, v: nat)
    requires Owned(w)
    ensures UserFrame(w, d, u) != 0 ==> UserFrame(w, d, u) in w.taken
    ensures UserFrame(w, d, u) != 0 && (d != e || u != v) ==> UserFrame(w, d, u) != UserFrame(w, e, v)
  {
    hide FrameOf;
  }

  // ------------------------------------------------------------- the steps

  lemma WriteAgrees(a: World, w: Write, b: World, views: Views)
    requires Owned(a) && WriteStep(a, w, b) && Agree(a, views)
    ensures Owned(b) && Agree(b, PrivateStep(views, WriteEv(w)))
  {
    hide FrameOf, Owned, PageAgrees;
    var f, views' := UserFrame(a, w.who, w.page), PrivateStep(views, WriteEv(w));
    assert PageAgrees(a, views[w.who], w.who, w.page);
    PageThere(a, views[w.who], w.who, w.page);
    OwnedSame(a, b);
    forall d, v | d in b.dirs
      ensures PageAgrees(b, views'[d], d, v)
    {
      assert PageAgrees(a, views[d], d, v);
      OwnedUser(a, d, v, w.who, w.page);
      WritePage(a, w, b, views[d], views'[d], d, v);
    }
  }

  lemma PageThere(w: World, view: View, d: word, v: nat)
    requires Complete(w.ram) && PageAgrees(w, view, d, v) && UserFrame(w, d, v) != 0
    ensures v in view && view[v] == w.ram[UserFrame(w, d, v)]
  {
  }

  lemma OwnedSame(a: World, b: World)
    requires Owned(a) && b == a.(ram := b.ram)
    ensures Owned(b)
  {
  }

  lemma WritePage(a: World, w: Write, b: World, view: View, view': View, d: word, v: nat)
    requires WriteStep(a, w, b) && PageAgrees(a, view, d, v)
    requires UserFrame(a, d, v) != 0 && (d != w.who || v != w.page) ==>
      UserFrame(a, d, v) != UserFrame(a, w.who, w.page)
    requires if d == w.who then
        w.page in view && view' == WithPage(view, w.page, WithByte(view[w.page], w.off, w.b))
      else view' == view
    ensures PageAgrees(b, view', d, v)
  {
    hide FrameOf;
  }

  lemma MapAgrees(a: World, who: word, page: nat, init: Bytes, b: World, views: Views)
    requires Owned(a) && MapStep(a, who, page, init, b) && Agree(a, views)
    ensures Owned(b) && Agree(b, PrivateStep(views, MapEv(who, page, init)))
  {
    hide FrameOf, PageAgrees;
    var views' := PrivateStep(views, MapEv(who, page, init));
    UserAdded(a.dirs, a.tabs, b.dirs, b.tabs, a.taken, b.taken, who, page);
    forall d, v | d in b.dirs
      ensures PageAgrees(b, views'[d], d, v)
    {
      assert PageAgrees(a, views[d], d, v);
      CarriedPage(a, b, who, page, views[d], d, v);
      if d == who { MapPage(b, who, page, init, views[d], v); }
    }
  }

  /** A page that is carried over agrees as before. */
  lemma CarriedPage(a: World, b: World, who: word, page: nat, view: View, d: word, v: nat)
    requires Carried(a, b, who, page) && d in a.dirs && PageAgrees(a, view, d, v)
    ensures d != who || v != page ==> PageAgrees(b, view, d, v)
  {
    hide FrameOf;
  }

  lemma MapPage(b: World, who: word, page: nat, init: Bytes, view: View, v: nat)
    requires Complete(b.ram) && UserFrame(b, who, page) != 0 && b.ram[UserFrame(b, who, page)] == init
    requires v != page ==> PageAgrees(b, view, who, v)
    ensures PageAgrees(b, WithPage(view, page, init), who, v)
  {
    hide FrameOf;
  }

  lemma ForkAgrees(a: World, parent: word, child: word, b: World, views: Views)
    requires Owned(a) && ForkStep(a, parent, child, b) && Agree(a, views)
    ensures Owned(b) && Agree(b, PrivateStep(views, ForkEv(parent, child)))
  {
    hide FrameOf, PageAgrees, Owned, ChildPage;
    var views' := PrivateStep(views, ForkEv(parent, child));
    ForkOwns(a, parent, child, b);
    forall d, v | d in b.dirs
      ensures PageAgrees(b, views'[d], d, v)
    {
      if d == child {
        assert PageAgrees(a, views[parent], parent, v);
        ForkPage(a, parent, child, b, views[parent], v);
      } else {
        assert PageAgrees(a, views[d], d, v);
        CarriedPage(a, b, child, 0, views[d], d, v);
      }
    }
  }

  lemma ForkPage(a: World, parent: word, child: word, b: World, view: View, v: nat)
    requires ForkStep(a, parent, child, b) && PageAgrees(a, view, parent, v)
    ensures PageAgrees(b, view, child, v)
  {
    hide FrameOf;
    if v < USER_PAGES && UserFrame(a, parent, v) != 0 { assert ChildPage(a, parent, child, b, v); }
  }

  lemma ForkOwns(a: World, parent: word, child: word, b: World)
    requires Owned(a) && ForkStep(a, parent, child, b)
    ensures Owned(b)
  {
    hide FrameOf;
    var k :| k in a.dirs && forall v :: USER_PAGES <= v < PAGES ==>
      FrameOf(b.dirs[child], b.tabs, v) == FrameOf(b.dirs[k], b.tabs, v);
    forall d, v | d in b.dirs && 0 <= v < PAGES && FrameOf(b.dirs[d], b.tabs, v) != 0
      ensures FrameOf(b.dirs[d], b.tabs, v) in b.taken
      ensures d != child || v >= USER_PAGES ==> FrameOf(b.dirs[d], b.tabs, v) in a.taken
    {
      ForkFrame(a, parent, child, b, k, d, v);
    }
    forall d, u, e, v | d in b.dirs && e in b.dirs && 0 <= u < USER_PAGES && 0 <= v < PAGES && (d != e || u != v)
      ensures FrameOf(b.dirs[d], b.tabs, u) == 0 || FrameOf(b.dirs[d], b.tabs, u) != FrameOf(b.dirs[e], b.tabs, v)
    {
      ForkFrame(a, parent, child, b, k, d, u);
      ForkFrame(a, parent, child, b, k, e, v);
      if d == child && e == child && v < USER_PAGES { ChildApart(a, parent, child, b, u, v); }
    }
  }

  /** Where the frame of a page comes from. */
  lemma ForkFrame(a: World, parent: word, child: word, b: World, k: word, d: word, v: nat)
    requires ForkStep(a, parent, child, b) && d in b.dirs && v < PAGES && k in a.dirs
    requires forall v :: USER_PAGES <= v < PAGES ==>
      FrameOf(b.dirs[child], b.tabs, v) == FrameOf(b.dirs[k], b.tabs, v)
    ensures d != child ==> FrameOf(b.dirs[d], b.tabs, v) == FrameOf(a.dirs[d], a.tabs, v)
    ensures d == child && v >= USER_PAGES ==> FrameOf(b.dirs[d], b.tabs, v) == FrameOf(a.dirs[k], a.tabs, v)
    ensures d == child && v < USER_PAGES && FrameOf(b.dirs[d], b.tabs, v) != 0 ==>
      FrameOf(b.dirs[d], b.tabs, v) !in a.taken && FrameOf(b.dirs[d], b.tabs, v) in b.taken
  {
    hide FrameOf;
    if d == child && v < USER_PAGES {
      assert UserFrame(b, child, v) == FrameOf(b.dirs[d], b.tabs, v);
      if UserFrame(a, parent, v) != 0 { assert ChildPage(a, parent, child, b, v); }
    }
  }

  lemma ChildApart(a: World, parent: word, child: word, b: World, u: nat, v: nat)
    requires ForkStep(a, parent, child, b) && u < USER_PAGES && v < USER_PAGES && u != v
    ensures var dir := b.dirs[child];
      FrameOf(dir, b.tabs, u) == 0 || FrameOf(dir, b.tabs, u) != FrameOf(dir, b.tabs, v)
  {
    hide FrameOf, ChildPage;
    assert UserFrame(b, child, u) == FrameOf(b.dirs[child], b.tabs, u);
    assert UserFrame(b, child, v) == FrameOf(b.dirs[child], b.tabs, v);
  }

  /** Each step of the machine is the step on private memories. */
  lemma StepAgrees(a: World, e: Event, b: World, views: Views)
    requires Owned(a) && StepOf(a, e, b) && Agree(a, views)
    ensures Owned(b) && Agree(b, PrivateStep(views, e))
  {
    hide Owned, Agree, WriteStep, MapStep, ForkStep, PrivateStep;
    match e {
      case WriteEv(w) => WriteAgrees(a, w, b, views);
      case MapEv(who, page, init) => MapAgrees(a, who, page, init, b, views);
      case ForkEv(parent, child) => ForkAgrees(a, parent, child, b, views);
    }
  }

  // ------------------------------------------------------------------ runs

  ghost predicate RunOf(ws: seq<World>, es: seq<Event>) {
    |ws| == |es| + 1 && forall i :: 0 <= i < |es| ==> StepOf(ws[i], es[i], ws[i + 1])
  }

  /** Over every run of writes by any processes, new pages and forks, in any order, each
      process sees what it would see in a private memory, its parent's at the fork. */
  lemma {:induction false} Refines(ws: seq<World>, es: seq<Event>, views: Views)
    requires RunOf(ws, es) && Owned(ws[0]) && Agree(ws[0], views)
    ensures Owned(ws[|es|]) && Agree(ws[|es|], PrivateRun(views, es))
    decreases |es|
  {
    hide Owned, Agree, StepOf, PrivateStep;
    if es != [] {
      assert StepOf(ws[0], es[0], ws[1]);
      StepAgrees(ws[0], es[0], ws[1], views);
      RunRest(ws, es);
      Refines(ws[1..], es[1..], PrivateStep(views, es[0]));
    }
  }

  lemma RunRest(ws: seq<World>, es: seq<Event>)
    requires RunOf(ws, es) && es != []
    ensures RunOf(ws[1..], es[1..]) && ws[1..][0] == ws[1] && ws[1..][|es[1..]|] == ws[|es|]
  {
    hide StepOf;
    forall i | 0 <= i < |es[1..]|
      ensures StepOf(ws[1..][i], es[1..][i], ws[1..][i + 1])
    {
      assert StepOf(ws[i + 1], es[i + 1], ws[i + 2]);
    }
  }

  // -------------------------------------------------- the kernel's own steps

  ghost function WorldOf(vm: VirtualMemory): World
    reads vm, vm.frames, vm.frames.frames, vm.frames.frames.bits
  {
    World(vm.dirs, vm.tabs, vm.Taken(), vm.ram)
  }

  /** A store by the current process. */
  method StoreByte(vm: VirtualMemory, page: nat, off: nat, b: byte)
    requires vm.currentDir in vm.dirs && page < USER_PAGES && off < PG_SZ
    requires FrameOf(vm.dirs[vm.currentDir], vm.tabs, page) != 0
    requires Running(vm)
    modifies vm`ram
    ensures StepOf(old(WorldOf(vm)), WriteEv(Write(vm.currentDir, page, off, b)), WorldOf(vm)) && Complete(vm.ram)
  {
    hide SpacesApart, Walkable, VirtualMemory.Valid, Sound;
    var f := FrameOf(vm.dirs[vm.currentDir], vm.tabs, page);
    vm.ram := vm.ram[f := vm.ram[f][off := b]];
  }

  /** `copy_pg_dir` is the fork of a private memory. */
  method ForkProcess(vm: VirtualMemory) returns (child: word)
    requires vm.currentDir in vm.dirs && MayFork(vm, vm.currentDir)
    requires Running(vm)
    modifies vm`allocPtr, vm`dirs, vm`tabs, vm`ram, vm.heap, vm.frames.frames.bits
    ensures Running(vm) && StepOf(old(WorldOf(vm)), ForkEv(vm.currentDir, child), WorldOf(vm))
  {
    hide SpacesApart, Walkable, VirtualMemory.Valid, MayFork, Forked, Undisturbed, ForkStep, SourcesOwn, Rest, Total;
    hide Sound;
    ForkSources(vm, vm.currentDir);
    ghost var d, s0 := vm.currentDir, Now(vm, vm.currentDir, vm.currentDir);
    child := CopyPgDir(vm, vm.currentDir);
    ghost var s := Now(vm, d, child);
    ForkIsStep(s0, s, d, child, vm.kernDir);
    assert Complete(vm.ram) by { ForkedComplete(s0, s, s.dirs[vm.kernDir]); }
  }

  lemma ForkedComplete(s0: State, s: State, kern: PageDir)
    requires Forked(s0, s, kern)
    ensures Complete(s.ram)
  {
  }

  lemma ForkIsStep(s0: State, s: State, d: word, child: word, k: word)
    requires Forked(s0, s, if k in s.dirs then s.dirs[k] else s.copy)
    requires Undisturbed(s0.dirs, s0.tabs, s.dirs, s.tabs, d, child)
    requires d in s0.dirs && s0.dir == s0.dirs[d] && child !in s0.dirs && s.dirs.Keys == s0.dirs.Keys + {child}
    requires s.copy == s.dirs[child] && k in s0.dirs && SpacesApart(s0.dirs, s0.tabs, s0.taken)
    ensures ForkStep(World(s0.dirs, s0.tabs, s0.taken, s0.ram), d, child, World(s.dirs, s.tabs, s.taken, s.ram))
  {
    hide EntryOf, FrameOf, TablesApart, SameTables, Kept;
    var a, b := World(s0.dirs, s0.tabs, s0.taken, s0.ram), World(s.dirs, s.tabs, s.taken, s.ram);
    KernelSame(s.copy, s.dirs[k], s.tabs);
    forall e, v | e in s0.dirs && 0 <= v < PAGES
      ensures FrameOf(s.dirs[e], s.tabs, v) == FrameOf(s0.dirs[e], s0.tabs, v)
    {
      assert SameSpace(s0.dirs[e], s0.tabs, s.dirs[e], s.tabs);
      if v != WINDOW_PG { KeptAt(s0.dirs[e], s0.tabs, s.dirs[e], s.tabs, WINDOW_PG, v); }
    }
    forall e, v | e in s0.dirs && 0 <= v < USER_PAGES && UserFrame(a, e, v) != 0
      ensures s.ram[UserFrame(a, e, v)] == s0.ram[UserFrame(a, e, v)]
    {
      OwnedUser(a, e, v, e, v);
      assert !BacksKernel(s0, UserFrame(a, e, v));
    }
    forall v | 0 <= v < USER_PAGES && UserFrame(a, d, v) != 0
      ensures ChildPage(a, d, child, b, v)
    {
      assert Source(s0, v) == UserFrame(a, d, v) && Target(s, v) == UserFrame(b, child, v);
      assert PageCopied(s0, s, v);
    }
    forall v | 0 <= v < USER_PAGES
      ensures Source(s0, v) == UserFrame(a, d, v) && Target(s, v) == UserFrame(b, child, v)
    {
    }
  }

  /** A new page of the current process is a page of its private memory; what it holds is
      what the frame held. */
  method MapProcess(vm: VirtualMemory, va: word) returns (ghost init: Bytes)
    requires vm.currentDir in vm.dirs && va / PG_SZ < USER_PAGES && PdIdx(va) < ENTRIES && PtIdx(va) < ENTRIES
    requires FrameOf(vm.dirs[vm.currentDir], vm.tabs, va / PG_SZ) == 0
    requires Get(vm.Taken(), vm.frames.Count()).0 != NO_FRAME
    requires vm.dirs[vm.currentDir].tables[PdIdx(va)] == 0 ==> vm.Room() > 0
    requires Running(vm)
    modifies vm`allocPtr, vm`dirs, vm`tabs, vm.heap, vm.frames.frames.bits
    ensures Running(vm) && StepOf(old(WorldOf(vm)), MapEv(vm.currentDir, va / PG_SZ, init), WorldOf(vm))
  {
    hide SpacesApart, Walkable, VirtualMemory.Valid, MapPte, Changed, Sees, Rooms, Paged, PagePtr, MapStep, FrameOf;
    hide Get;
    hide EntryOf, Complete, AllOk, SameTables, Physical, WithTable, Sound, Fine;
    ghost var a, d, v, n := WorldOf(vm), vm.currentDir, va / PG_SZ, vm.frames.Count();
    CountFits(vm);
    ValidDirs(vm);
    NoDirZero(vm);
    ApartZero(a.dirs, a.tabs, a.taken);
    IndexSplit(va, 0, 0);
    var page := vm.MapAt(va, true, true, 0, vm.currentDir);
    ghost var b := WorldOf(vm);
    MapKeepsApart(a.dirs, a.tabs, a.taken, b.dirs, b.tabs, n, d, v, page.tab);
    UserPageWalk(a.dirs, a.tabs, b.dirs, b.tabs, vm.kernDir, d, d, v, page.tab);
    init := NewContents(a, b, n, d, v);
    NewFine(a.dirs[d], a.tabs, b.dirs[d], b.tabs, a.taken, n, v);
  }

  lemma NewFine(dir: PageDir, tabs: Tabs, dir': PageDir, tabs': Tabs, taken: set<nat>, n: nat, v: nat)
    requires v < PAGES && FrameOf(dir, tabs, v) == 0 && n <= FRAME_CNT && 0 in taken && Get(taken, n).0 != NO_FRAME
    requires Changed(dir, tabs, dir', tabs', v, MapPte(EntryOf(dir, tabs, v), true, true, 0, taken, n).0)
    ensures Fine(EntryOf(dir', tabs', v))
  {
    hide EntryOf, Get, Changed;
    GetFresh(taken, n);
    ChangedHere(dir, tabs, dir', tabs', v, MapPte(EntryOf(dir, tabs, v), true, true, 0, taken, n).0);
  }

  lemma ApartZero(dirs: Dirs, tabs: Tabs, taken: set<nat>)
    requires SpacesApart(dirs, tabs, taken)
    ensures 0 in taken
  {
  }

  lemma NewContents(a: World, b: World, n: nat, d: word, v: nat) returns (init: Bytes)
    requires Complete(a.ram) && b.ram == a.ram && n <= FRAME_CNT && 0 in a.taken && b.dirs.Keys == a.dirs.Keys
    requires d in a.dirs && v < USER_PAGES && FrameOf(a.dirs[d], a.tabs, v) == 0 && Get(a.taken, n).0 != NO_FRAME
    requires var r := MapPte(EntryOf(a.dirs[d], a.tabs, v), true, true, 0, a.taken, n);
      b.taken == r.1 && Changed(a.dirs[d], a.tabs, b.dirs[d], b.tabs, v, r.0)
    requires forall e, u :: e in a.dirs && 0 <= u < PAGES && (e != d || u != v) ==>
      FrameOf(b.dirs[e], b.tabs, u) == FrameOf(a.dirs[e], a.tabs, u)
    ensures MapStep(a, d, v, init, b)
  {
    hide FrameOf, EntryOf, Get, Changed;
    GetFresh(a.taken, n);
    EntryFrame(a.dirs[d], a.tabs, v);
    ChangedAt(a.dirs[d], a.tabs, b.dirs[d], b.tabs, v,
      MapPte(EntryOf(a.dirs[d], a.tabs, v), true, true, 0, a.taken, n).0, v);
    init := b.ram[UserFrame(b, d, v)];
  }
}
