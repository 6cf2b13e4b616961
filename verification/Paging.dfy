/** Two-level page tables as values, and the flat map they stand for. */
module Paging {
  import opened Memory
  import opened Pmm

  const ENTRIES: nat := 1024
  const PAGES: nat := 0x10_0000
  /** The kernel half of a directory starts here. */
  const KERN_IDX: nat := 768

  /** A page entry; the bits the kernel never touches are left out. */
  datatype Pte = Pte(present: bool, rw: bool, usr: bool, addr: Frame)

  const NO_PAGE := Pte(false, false, false, 0)

  /** No frame, and no bit set. */
  predicate Vacant(p: Pte) { !p.present && !p.rw && !p.usr && p.addr == 0 }

  /** Present and writable, and not for user mode. */
  predicate Shown(p: Pte) { p.present && p.rw && !p.usr }

  /** A page that has a frame is shown, and one that has none is clear. */
  predicate Fine(p: Pte) { if p.addr == 0 then Vacant(p) else Shown(p) }

  type PageTab = t: seq<Pte> | |t| == ENTRIES witness seq(ENTRIES, _ => NO_PAGE)

  /** A cleared table. */
  function ZeroTab(): (t: PageTab)
    ensures forall i :: 0 <= i < ENTRIES ==> t[i] == NO_PAGE && Vacant(t[i])
  {
    seq(ENTRIES, _ => NO_PAGE)
  }

  /** Table pointers for the kernel and physical table words for the CPU; 0 is none. */
  datatype PageDirOf = PageDir(tables: seq<word>, physTabs: seq<word>, phys: word)

  type PageDir = d: PageDirOf | |d.tables| == ENTRIES && |d.physTabs| == ENTRIES
    witness PageDir(seq(ENTRIES, _ => 0), seq(ENTRIES, _ => 0), 0)

  function ZeroDir(phys: word): PageDir {
    PageDir(seq(ENTRIES, _ => 0), seq(ENTRIES, _ => 0), phys)
  }

  type Tabs = map<word, PageTab>

  // ----------------------------------------------------------- index split

  function PdIdx(va: word): nat { va / 0x40_0000 }

  function PtIdx(va: word): nat { va / PG_SZ % ENTRIES }

  function Idx2Pg(d: nat, t: nat): word
    requires d < ENTRIES && t < ENTRIES
  {
    d * 0x40_0000 + t * PG_SZ
  }

  /** The two indices and the offset determine the address and back. */
  lemma IndexSplit(va: word, d: nat, t: nat)
    requires d < ENTRIES && t < ENTRIES
    ensures PdIdx(va) < ENTRIES && PtIdx(va) < ENTRIES
    ensures Idx2Pg(PdIdx(va), PtIdx(va)) + va % PG_SZ == va
    ensures PdIdx(Idx2Pg(d, t)) == d && PtIdx(Idx2Pg(d, t)) == t
    ensures PdIdx(va) * ENTRIES + PtIdx(va) == va / PG_SZ
  {
    IndexJoin(va);
    IndexPage(d, t);
  }

  lemma IndexJoin(va: word)
    ensures PdIdx(va) < ENTRIES && PtIdx(va) < ENTRIES && PdIdx(va) * ENTRIES + PtIdx(va) == va / PG_SZ
    ensures PdIdx(va) * 0x40_0000 + PtIdx(va) * PG_SZ + va % PG_SZ == va
  {
    assert va / PG_SZ / ENTRIES == va / 0x40_0000;
  }

  lemma IndexPage(d: nat, t: nat)
    requires d < ENTRIES && t < ENTRIES
    ensures PdIdx(Idx2Pg(d, t)) == d && PtIdx(Idx2Pg(d, t)) == t
  {
    assert Idx2Pg(d, t) / PG_SZ == d * ENTRIES + t;
  }

  // -------------------------------------------------------------- flat map

  /** The table that maps page number v, or 0. */
  function TableOf(dir: PageDir, v: nat): word
    requires v < PAGES
  {
    dir.tables[v / ENTRIES]
  }

  /** The entry of page number v; a page without a table has a clear one. */
  function EntryOf(dir: PageDir, tabs: Tabs, v: nat): Pte
    requires v < PAGES
  {
    if TableOf(dir, v) != 0 && TableOf(dir, v) in tabs then tabs[TableOf(dir, v)][v % ENTRIES] else NO_PAGE
  }

  /** The frame of page number v, or 0. */
  function FrameOf(dir: PageDir, tabs: Tabs, v: nat): Frame
    requires v < PAGES
  {
    EntryOf(dir, tabs, v).addr
  }

  /** Every table pointer leads to a table, and to its own. */
  ghost predicate DirOk(dir: PageDir, tabs: Tabs) {
    && (forall i :: 0 <= i < ENTRIES && dir.tables[i] != 0 ==> dir.tables[i] in tabs)
    && (forall i, j :: 0 <= i < j < ENTRIES && dir.tables[i] != 0 ==> dir.tables[i] != dir.tables[j])
  }

  function SetPte(tabs: Tabs, t: word, i: nat, p: Pte): Tabs
    requires t in tabs && i < ENTRIES
  {
    tabs[t := tabs[t][i := p]]
  }

  function AddTable(dir: PageDir, i: nat, t: word, phys: word): PageDir
    requires i < ENTRIES
  {
    PageDir(dir.tables[i := t], dir.physTabs[i := phys], dir.phys)
  }

  /** The directories agree except on the table at index `but`. */
  ghost predicate SameTables(dir: PageDir, dir': PageDir, but: nat) {
    && dir'.phys == dir.phys
    && forall i :: 0 <= i < ENTRIES && i != but ==>
      dir'.tables[i] == dir.tables[i] && dir'.physTabs[i] == dir.physTabs[i]
  }

  /** The indices from lo up to hi that have no table. */
  ghost function Absent(dir: PageDir, lo: nat, hi: nat): set<nat>
    requires hi <= ENTRIES
  {
    set i: nat | lo <= i < hi && dir.tables[i] == 0
  }

  /** Page v has the entry p, all others are what they were. */
  ghost predicate Changed(dir: PageDir, tabs: Tabs, dir': PageDir, tabs': Tabs, v: nat, p: Pte) {
    forall u :: 0 <= u < PAGES ==> EntryOf(dir', tabs', u) == if u == v then p else EntryOf(dir, tabs, u)
  }

  /** Writing one entry changes that of one page number and no other. */
  lemma SetPteFlat(dir: PageDir, tabs: Tabs, i: nat, j: nat, p: Pte)
    requires DirOk(dir, tabs) && i < ENTRIES && j < ENTRIES && dir.tables[i] != 0
    ensures DirOk(dir, SetPte(tabs, dir.tables[i], j, p))
    ensures Changed(dir, tabs, dir, SetPte(tabs, dir.tables[i], j, p), i * ENTRIES + j, p)
  {
    var tabs' := SetPte(tabs, dir.tables[i], j, p);
    forall v | 0 <= v < PAGES
      ensures EntryOf(dir, tabs', v) == if v == i * ENTRIES + j then p else EntryOf(dir, tabs, v)
    {
      assert v == (v / ENTRIES) * ENTRIES + v % ENTRIES;
      assert (i * ENTRIES + j) / ENTRIES == i && (i * ENTRIES + j) % ENTRIES == j;
      if v / ENTRIES != i { assert TableOf(dir, v) != dir.tables[i]; }
    }
  }

  /** The pages that show entry j of table t differ, all others are what they were. */
  ghost predicate Sees(dir: PageDir, tabs: Tabs, tabs': Tabs, t: word, j: nat)
    requires t in tabs' && j < ENTRIES
  {
    forall v :: 0 <= v < PAGES ==>
      EntryOf(dir, tabs', v) ==
        if TableOf(dir, v) == t != 0 && v % ENTRIES == j then tabs'[t][j] else EntryOf(dir, tabs, v)
  }

  /** Every directory that holds the table sees the write, and no other does. */
  lemma SetPteSeen(dir: PageDir, tabs: Tabs, t: word, j: nat, p: Pte)
    requires DirOk(dir, tabs) && t in tabs && j < ENTRIES
    ensures DirOk(dir, SetPte(tabs, t, j, p)) && Sees(dir, tabs, SetPte(tabs, t, j, p), t, j)
  {
  }

  /** A new table, all entries clear, changes no page's entry in any directory. */
  lemma AddTableFlat(dir: PageDir, tabs: Tabs, i: nat, t: word, phys: word)
    requires DirOk(dir, tabs) && i < ENTRIES && dir.tables[i] == 0 && t != 0 && t !in tabs
    ensures DirOk(AddTable(dir, i, t, phys), tabs[t := ZeroTab()])
    ensures forall v :: 0 <= v < PAGES ==>
      EntryOf(AddTable(dir, i, t, phys), tabs[t := ZeroTab()], v) == EntryOf(dir, tabs, v)
  {
    var dir', tabs' := AddTable(dir, i, t, phys), tabs[t := ZeroTab()];
    forall v | 0 <= v < PAGES
      ensures EntryOf(dir', tabs', v) == EntryOf(dir, tabs, v)
    {
      if v / ENTRIES == i { assert EntryOf(dir', tabs', v) == NO_PAGE; }
    }
  }

  lemma AddTableElsewhere(dir: PageDir, tabs: Tabs, t: word)
    requires DirOk(dir, tabs) && t !in tabs
    ensures DirOk(dir, tabs[t := ZeroTab()])
    ensures forall v :: 0 <= v < PAGES ==> EntryOf(dir, tabs[t := ZeroTab()], v) == EntryOf(dir, tabs, v)
  {
  }

  // ---------------------------------------------------- mapping and unmapping

  /** `map_page` on an entry: the entry and the taken frames afterwards. */
  ghost function MapPte(p: Pte, usr: bool, write: bool, addr: word, taken: set<nat>, n: nat): (Pte, set<nat>) {
    if p.addr != 0 then (Pte(true, write, !usr, p.addr), taken)
    else if addr != 0 then
      if addr / PG_SZ < n then (Pte(true, write, !usr, addr / PG_SZ), taken + {addr / PG_SZ})
      else (Pte(false, write, !usr, 0), taken)
    else if Get(taken, n).0 != NO_FRAME then (Pte(true, write, !usr, Get(taken, n).0 / PG_SZ), Get(taken, n).1)
    else (Pte(true, write, !usr, 0), taken)
  }

  /** What `map_page` promises of an entry p that becomes q: the bits asked for, `present`
      unless a frame was given that does not exist, and, where there was no frame, the one
      given or the lowest free one. */
  ghost predicate Mapped(p: Pte, q: Pte, usr: bool, write: bool, addr: word, taken: set<nat>, taken': set<nat>,
                         n: nat) {
    && q.rw == write && q.usr == !usr
    && (!q.present <==> p.addr == 0 && addr != 0 && addr / PG_SZ >= n)
    && (p.addr != 0 ==> q.addr == p.addr && taken' == taken)
    && (p.addr == 0 && addr != 0 && addr / PG_SZ >= n ==> q.addr == 0 && taken' == taken)
    && (p.addr == 0 && addr != 0 && addr / PG_SZ < n ==> q.addr == addr / PG_SZ && taken' == taken + {q.addr as nat})
    && (p.addr == 0 && addr == 0 && (forall f: nat :: f < n ==> f in taken) ==> q.addr == 0 && taken' == taken)
    && (p.addr == 0 && addr == 0 && !(forall f: nat :: f < n ==> f in taken) ==>
          && q.addr < n && q.addr !in taken && taken' == taken + {q.addr as nat}
          && forall f: nat :: f < q.addr ==> f in taken)
  }

  lemma MapExact(p: Pte, usr: bool, write: bool, addr: word, taken: set<nat>, n: nat)
    requires n <= FRAME_CNT
    ensures var r := MapPte(p, usr, write, addr, taken, n); Mapped(p, r.0, usr, write, addr, taken, r.1, n)
  {
    hide Get;
    GetFull(taken, n);
    if Least(taken, n) < n { GetExact(taken, n); }
  }

  /** Every entry of every table is as it should be. */
  ghost predicate Sound(tabs: Tabs) {
    forall t, i {:trigger tabs[t][i]} :: t in tabs && 0 <= i < ENTRIES ==> Fine(tabs[t][i])
  }

  lemma SoundNone()
    ensures Sound(map[])
  {
  }

  /** Then a page of any directory is present exactly when it has a frame. */
  lemma SoundPage(dir: PageDir, tabs: Tabs, v: nat)
    requires Sound(tabs) && v < PAGES
    ensures Fine(EntryOf(dir, tabs, v)) && (EntryOf(dir, tabs, v).present <==> FrameOf(dir, tabs, v) != 0)
  {
  }

  lemma SoundSet(tabs: Tabs, t: word, i: nat, p: Pte)
    requires Sound(tabs) && t in tabs && i < ENTRIES && Fine(p)
    ensures Sound(SetPte(tabs, t, i, p))
  {
  }

  /** An entry is written, in a table that may be new. */
  lemma SoundStep(tabs: Tabs, tabs1: Tabs, t: word, i: nat, p: Pte)
    requires tabs1 == tabs || tabs1 == tabs[t := ZeroTab()]
    requires t in tabs1 && i < ENTRIES
    ensures Sound(tabs) && Fine(p) ==> Sound(SetPte(tabs1, t, i, p))
  {
    if Sound(tabs) && Fine(p) { SoundSet(tabs1, t, i, p); }
  }

  /** The taken frames after `unmap_page` on an entry, which clears it. */
  ghost function UnmapPte(p: Pte, taken: set<nat>, n: nat): set<nat> {
    if p.addr != 0 && p.addr < n then taken - {p.addr} else taken
  }

  /** Frame 0 is taken, every frame in an entry is taken, and by that entry only. */
  ghost predicate Owned(tabs: Tabs, taken: set<nat>) {
    && 0 in taken
    && (forall t, i {:trigger tabs[t][i]} :: t in tabs && 0 <= i < ENTRIES && tabs[t][i].addr != 0 ==>
      tabs[t][i].addr in taken)
    && (forall t, i, u, j {:trigger tabs[t][i], tabs[u][j]} ::
          t in tabs && u in tabs && 0 <= i < ENTRIES && 0 <= j < ENTRIES && (t != u || i != j) ==>
            tabs[t][i].addr == 0 || tabs[t][i].addr != tabs[u][j].addr)
  }

  /** What programs do to page entries. */
  datatype PageOp = MapOp(t: word, i: nat, usr: bool, write: bool) | UnmapOp(t: word, i: nat) | TableOp(t: word)

  ghost predicate OpOk(tabs: Tabs, op: PageOp) {
    if op.TableOp? then op.t !in tabs else op.t in tabs && op.i < ENTRIES
  }

  ghost function OpStep(tabs: Tabs, taken: set<nat>, n: nat, op: PageOp): (Tabs, set<nat>)
    requires OpOk(tabs, op)
  {
    if op.MapOp? then
      (SetPte(tabs, op.t, op.i, MapPte(tabs[op.t][op.i], op.usr, op.write, 0, taken, n).0),
       MapPte(tabs[op.t][op.i], op.usr, op.write, 0, taken, n).1)
    else if op.UnmapOp? then
      (SetPte(tabs, op.t, op.i, NO_PAGE), UnmapPte(tabs[op.t][op.i], taken, n))
    else
      (tabs[op.t := ZeroTab()], taken)
  }

  /** Mapping, unmapping and new tables keep ownership. */
  lemma OwnedStep(tabs: Tabs, taken: set<nat>, n: nat, op: PageOp)
    requires Owned(tabs, taken) && n <= FRAME_CNT && OpOk(tabs, op)
    ensures Owned(OpStep(tabs, taken, n, op).0, OpStep(tabs, taken, n, op).1)
  {
    hide Get, Least;
    match op {
      case MapOp(t, i, usr, write) =>
        GetFresh(taken, n);
      case UnmapOp(t, i) =>
      case TableOp(t) =>
    }
  }

  /** The frame handed out was free and is not frame 0, once frame 0 is taken. */
  lemma GetFresh(taken: set<nat>, n: nat)
    requires n <= FRAME_CNT && 0 in taken
    ensures Get(taken, n).0 != NO_FRAME ==>
      var f := Get(taken, n).0 / PG_SZ; 0 < f < n && f !in taken && Get(taken, n) == (f * PG_SZ, taken + {f})
    ensures Get(taken, n).0 == NO_FRAME ==> Get(taken, n).1 == taken
  {
    if Least(taken, n) < n { GetExact(taken, n); }
  }

  ghost predicate OpsOk(tabs: Tabs, taken: set<nat>, n: nat, ops: seq<PageOp>)
    decreases |ops|
  {
    || ops == []
    || (OpOk(tabs, ops[0]) && OpsOk(OpStep(tabs, taken, n, ops[0]).0, OpStep(tabs, taken, n, ops[0]).1, n, ops[1..]))
  }

  ghost function OpRun(tabs: Tabs, taken: set<nat>, n: nat, ops: seq<PageOp>): (Tabs, set<nat>)
    requires OpsOk(tabs, taken, n, ops)
    decreases |ops|
  {
    if ops == [] then (tabs, taken)
    else OpRun(OpStep(tabs, taken, n, ops[0]).0, OpStep(tabs, taken, n, ops[0]).1, n, ops[1..])
  }

  /** Over every run of mappings without a given address, unmappings and new tables
      no two entries ever share a frame, and what entries hold is taken. */
  lemma {:induction false} OwnedRun(tabs: Tabs, taken: set<nat>, n: nat, ops: seq<PageOp>)
    requires Owned(tabs, taken) && n <= FRAME_CNT && OpsOk(tabs, taken, n, ops)
    ensures Owned(OpRun(tabs, taken, n, ops).0, OpRun(tabs, taken, n, ops).1)
    decreases |ops|
  {
    hide Owned, OpStep;
    if ops != [] {
      OwnedStep(tabs, taken, n, ops[0]);
      OwnedRun(OpStep(tabs, taken, n, ops[0]).0, OpStep(tabs, taken, n, ops[0]).1, n, ops[1..]);
    }
  }

  /** Unmapping releases exactly the frame of that entry: no other entry loses its own. */
  lemma UnmapExact(tabs: Tabs, taken: set<nat>, n: nat, t: word, i: nat, u: word, j: nat)
    requires Owned(tabs, taken) && t in tabs && i < ENTRIES && u in tabs && j < ENTRIES
    requires forall f :: f in taken ==> f < n
    ensures UnmapPte(tabs[t][i], taken, n) == if tabs[t][i].addr != 0 then taken - {tabs[t][i].addr} else taken
    ensures (t != u || i != j) && tabs[u][j].addr != 0 ==> tabs[u][j].addr in UnmapPte(tabs[t][i], taken, n)
  {
    assert tabs[t][i].addr != 0 ==> tabs[t][i].addr in taken;
    assert tabs[u][j].addr != 0 ==> tabs[u][j].addr in taken;
  }

  /** A mapping to a given address keeps ownership exactly when no other entry holds
      that frame: the code does not ask. */
  lemma FixedExact(tabs: Tabs, taken: set<nat>, n: nat, t: word, i: nat, usr: bool, write: bool, addr: word)
    requires Owned(tabs, taken) && t in tabs && i < ENTRIES && tabs[t][i].addr == 0
    requires PG_SZ <= addr && addr / PG_SZ < n
    ensures var r := MapPte(tabs[t][i], usr, write, addr, taken, n);
      Owned(SetPte(tabs, t, i, r.0), r.1) <==>
        forall u, j :: u in tabs && 0 <= j < ENTRIES ==> tabs[u][j].addr != addr / PG_SZ
  {
    var r := MapPte(tabs[t][i], usr, write, addr, taken, n);
    var tabs' := SetPte(tabs, t, i, r.0);
    if u, j :| u in tabs && 0 <= j < ENTRIES && tabs[u][j].addr == addr / PG_SZ {
      assert tabs'[t][i].addr == tabs'[u][j].addr && (t != u || i != j);
    }
  }
}
