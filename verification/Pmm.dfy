/** The physical frame allocator over the bitset. */
module Pmm {
  import opened Memory
  import opened Bitset

  /** Frames whose address fits in 32 bits. */
  const FRAME_CNT: nat := 0x10_0000
  const NO_FRAME: word := 0xffff_ffff
  /** The kernel sees physical address p at p + KERN_OFFSET. */
  const KERN_OFFSET: word := 0xC000_0000

  /** A frame number of 20 bits. */
  type Frame = n: nat | n < FRAME_CNT

  // ------------------------------------------------- the allocator on sets

  /** The least index from i on that is not in `e`, or n. */
  ghost function LeastFrom(e: set<nat>, n: nat, i: nat): (f: nat)
    requires i <= n
    ensures i <= f <= n
    ensures forall j :: i <= j < f ==> j in e
    ensures f < n ==> f !in e
    decreases n - i
  {
    if i < n && i in e then LeastFrom(e, n, i + 1) else i
  }

  ghost function Least(e: set<nat>, n: nat): (f: nat)
    ensures f <= n
    ensures forall j :: 0 <= j < f ==> j in e
    ensures f < n ==> f !in e
  {
    LeastFrom(e, n, 0)
  }

  /** `get_frame` on sets: the address it returns and the frames taken afterwards.
      Both the address and the frame number derived from it are cut to 32 bits. */
  ghost function Get(e: set<nat>, n: nat): (r: (word, set<nat>)) {
    var f := Least(e, n);
    if f == n then (NO_FRAME, e)
    else (f * PG_SZ % SPACE, if f * PG_SZ % SPACE / PG_SZ < n then e + {f * PG_SZ % SPACE / PG_SZ} else e)
  }

  /** `get_frame` returns and takes the lowest free frame exactly when that frame's
      address fits in 32 bits; with more frames it hands out a taken one. */
  lemma GetExact(e: set<nat>, n: nat)
    requires Least(e, n) < n
    ensures Get(e, n) == (Least(e, n) * PG_SZ % SPACE, e + {Least(e, n) % FRAME_CNT})
    ensures Get(e, n) == (Least(e, n) * PG_SZ, e + {Least(e, n)}) <==> Least(e, n) < FRAME_CNT
    ensures Least(e, n) >= FRAME_CNT ==> Get(e, n).0 / PG_SZ in e && Get(e, n).1 == e
  {
    var f := Least(e, n);
    assert f * PG_SZ % SPACE == (f % FRAME_CNT) * PG_SZ by {
      assert f * PG_SZ == (f / FRAME_CNT) * SPACE + (f % FRAME_CNT) * PG_SZ;
    }
    assert f % FRAME_CNT <= f;
    if f >= FRAME_CNT {
      assert f % FRAME_CNT < f;
      assert e + {f % FRAME_CNT} == e;
    }
  }

  /** No frame is left exactly when every frame is taken. */
  lemma GetFull(e: set<nat>, n: nat)
    ensures Get(e, n).0 == NO_FRAME <==> forall j: nat :: j < n ==> j in e
  {
    var f := Least(e, n);
    if f < n {
      assert f !in e;
      assert f * PG_SZ % SPACE % PG_SZ == 0 by {
        assert f * PG_SZ % SPACE == f * PG_SZ - (f * PG_SZ / SPACE) * SPACE;
        assert f * PG_SZ % SPACE == (f - (f * PG_SZ / SPACE) * FRAME_CNT) * PG_SZ;
      }
    }
  }

  // ------------------------------------------------------------------ runs

  /** What the kernel does with frames: take the lowest, take a given one, release one. */
  datatype FrameOp = GetOp | SetOp(addr: word) | FreeOp(frame: word)

  ghost function FrameStep(e: set<nat>, n: nat, op: FrameOp): set<nat> {
    match op
    case GetOp => Get(e, n).1
    case SetOp(addr) => if addr / PG_SZ < n then e + {addr / PG_SZ} else e
    case FreeOp(frame) => if frame < n then e - {frame} else e
  }

  /** The frames taken after a run. */
  ghost function FrameRun(e: set<nat>, n: nat, ops: seq<FrameOp>): set<nat>
    decreases |ops|
  {
    if ops == [] then e else FrameRun(FrameStep(e, n, ops[0]), n, ops[1..])
  }

  /** The addresses that the calls of `get_frame` in a run return, in order. */
  ghost function Returned(e: set<nat>, n: nat, ops: seq<FrameOp>): seq<word>
    decreases |ops|
  {
    if ops == [] then []
    else (if ops[0].GetOp? then [Get(e, n).0] else []) + Returned(FrameStep(e, n, ops[0]), n, ops[1..])
  }

  ghost predicate NoFrees(ops: seq<FrameOp>) {
    forall i :: 0 <= i < |ops| ==> !ops[i].FreeOp?
  }

  lemma LeastGrows(e: set<nat>, n: nat, op: FrameOp)
    requires n <= FRAME_CNT && !op.FreeOp?
    ensures e <= FrameStep(e, n, op) && Least(e, n) <= Least(FrameStep(e, n, op), n)
    ensures op.GetOp? && Least(e, n) < n ==> Least(e, n) < Least(FrameStep(e, n, op), n)
    ensures op.GetOp? && Least(e, n) == n ==> Get(e, n).0 == NO_FRAME
  {
    if op.GetOp? && Least(e, n) < n { GetExact(e, n); }
    var e' := FrameStep(e, n, op);
    assert forall j :: 0 <= j < Least(e, n) ==> j in e';
  }

  /** The addresses climb strictly from `lo` on, and nothing follows a failure. */
  ghost predicate Climbing(r: seq<word>, lo: int) {
    && (forall i :: 0 <= i < |r| && r[i] != NO_FRAME ==> lo <= r[i])
    && (forall i, j :: 0 <= i < j < |r| && r[j] != NO_FRAME ==> r[i] != NO_FRAME && r[i] < r[j])
  }

  /** In every run without frees, whatever is taken by address in between, the frames
      handed out climb strictly from the lowest free one on, until there is none left;
      so no frame is handed out twice. */
  lemma {:induction false} RunClimbs(e: set<nat>, n: nat, ops: seq<FrameOp>)
    requires n <= FRAME_CNT && NoFrees(ops)
    ensures Climbing(Returned(e, n, ops), Least(e, n) * PG_SZ)
    ensures Least(e, n) == n ==> forall i :: 0 <= i < |Returned(e, n, ops)| ==> Returned(e, n, ops)[i] == NO_FRAME
    decreases |ops|
  {
    hide Get, Least, FrameStep;
    if ops != [] {
      hide Climbing;
      var e', rest := FrameStep(e, n, ops[0]), Returned(FrameStep(e, n, ops[0]), n, ops[1..]);
      assert ops[0] in ops;
      RunClimbs(e', n, ops[1..]);
      LeastGrows(e, n, ops[0]);
      if ops[0].GetOp? {
        if Least(e, n) < n { GetExact(e, n); }
        ClimbFront(Get(e, n).0, rest, Least(e, n) * PG_SZ, Least(e', n) * PG_SZ);
      } else {
        ClimbLower(rest, Least(e, n) * PG_SZ, Least(e', n) * PG_SZ);
      }
    }
  }

  lemma ClimbLower(r: seq<word>, lo: int, lo': int)
    requires Climbing(r, lo') && lo <= lo'
    ensures Climbing(r, lo)
  {
  }

  lemma ClimbFront(a: word, rest: seq<word>, lo: int, lo': int)
    requires Climbing(rest, lo') && lo <= lo'
    requires (a == NO_FRAME && forall i :: 0 <= i < |rest| ==> rest[i] == NO_FRAME) || (a != NO_FRAME && lo <= a < lo')
    ensures Climbing([a] + rest, lo)
  {
    var r := [a] + rest;
    assert r[0] == a && forall i :: 0 < i < |r| ==> r[i] == rest[i - 1];
  }

  /** A frame that is taken, a reserved one for instance, is not handed out before it is
      released, whatever else is taken and released. */
  lemma {:induction false} TakenStays(e: set<nat>, n: nat, ops: seq<FrameOp>, f: nat)
    requires n <= FRAME_CNT && f in e && f < FRAME_CNT && FreeOp(f) !in ops
    ensures f in FrameRun(e, n, ops) && f * PG_SZ !in Returned(e, n, ops)
    decreases |ops|
  {
    hide Least;
    if ops != [] {
      var op := ops[0];
      assert op in ops;
      if Least(e, n) < n { GetExact(e, n); } else { LeastFull(e, n); }
      assert Get(e, n).0 != f * PG_SZ;
      TakenStays(FrameStep(e, n, op), n, ops[1..], f);
    }
  }

  lemma LeastFull(e: set<nat>, n: nat)
    requires Least(e, n) >= n
    ensures Get(e, n) == (NO_FRAME, e)
  {
  }

  /** In a run without frees, what is handed out is in range and was free before. */
  lemma RunFresh(e: set<nat>, n: nat, ops: seq<FrameOp>, i: nat)
    requires n <= FRAME_CNT && NoFrees(ops) && i < |Returned(e, n, ops)| && Returned(e, n, ops)[i] != NO_FRAME
    ensures var f := Returned(e, n, ops)[i] / PG_SZ; Returned(e, n, ops)[i] == f * PG_SZ && f < n && f !in e
  {
    RunInRange(e, n, ops, i);
    var f := Returned(e, n, ops)[i] / PG_SZ;
    if f in e { TakenStays(e, n, ops, f); }
  }

  lemma {:induction false} RunInRange(e: set<nat>, n: nat, ops: seq<FrameOp>, i: nat)
    requires n <= FRAME_CNT && i < |Returned(e, n, ops)| && Returned(e, n, ops)[i] != NO_FRAME
    ensures var f := Returned(e, n, ops)[i] / PG_SZ; Returned(e, n, ops)[i] == f * PG_SZ && f < n
    decreases |ops|
  {
    hide Least;
    if Least(e, n) < n { GetExact(e, n); } else { LeastFull(e, n); }
    var e' := FrameStep(e, n, ops[0]);
    if ops[0].GetOp? {
      if i > 0 { RunInRange(e', n, ops[1..], i - 1); }
    } else {
      RunInRange(e', n, ops[1..], i);
    }
  }

  // ------------------------------------------------------- calls in a row

  /** The run of k calls of `get_frame`. */
  ghost function GetOps(k: nat): (r: seq<FrameOp>)
    ensures |r| == k && NoFrees(r)
  {
    seq(k, _ => GetOp)
  }

  ghost function Gets(e: set<nat>, n: nat, k: nat): (r: seq<word>) { Returned(e, n, GetOps(k)) }

  ghost function TakenAfter(e: set<nat>, n: nat, k: nat): set<nat> { FrameRun(e, n, GetOps(k)) }

  lemma GetsNext(e: set<nat>, n: nat, k: nat)
    ensures Gets(e, n, 0) == [] && TakenAfter(e, n, 0) == e
    ensures k > 0 ==> Gets(e, n, k) == [Get(e, n).0] + Gets(Get(e, n).1, n, k - 1)
    ensures k > 0 ==> TakenAfter(e, n, k) == TakenAfter(Get(e, n).1, n, k - 1)
  {
    hide Get;
    if k > 0 { assert GetOps(k)[1..] == GetOps(k - 1); }
  }

  /** The k-th call of a row sees what the k calls before it took. */
  lemma {:induction false} GetsAt(e: set<nat>, n: nat, k: nat, m: nat)
    requires k < m
    ensures |Gets(e, n, m)| == m && Gets(e, n, m)[k] == Get(TakenAfter(e, n, k), n).0
    ensures TakenAfter(e, n, k + 1) == Get(TakenAfter(e, n, k), n).1
    decreases m
  {
    hide Get, Gets, TakenAfter;
    GetsNext(e, n, m);
    GetsNext(e, n, k);
    GetsNext(e, n, k + 1);
    GetsNext(Get(e, n).1, n, 0);
    if k > 0 {
      GetsAt(Get(e, n).1, n, k - 1, m - 1);
    } else if m > 1 {
      GetsAt(Get(e, n).1, n, 0, m - 1);
    }
  }

  /** What calls of a row return is taken afterwards. */
  lemma {:induction false} GetsTaken(e: set<nat>, n: nat, k: nat, i: nat)
    requires n <= FRAME_CNT && i < k && |Gets(e, n, k)| == k && Gets(e, n, k)[i] != NO_FRAME
    ensures Gets(e, n, k)[i] / PG_SZ in TakenAfter(e, n, k)
    decreases k
  {
    hide Get, Gets, TakenAfter;
    GetsNext(e, n, k);
    if i > 0 {
      GetsTaken(Get(e, n).1, n, k - 1, i - 1);
    } else {
      if Least(e, n) < n { GetExact(e, n); } else { LeastFull(e, n); }
      AfterKeeps(Get(e, n).1, n, k - 1, Gets(e, n, k)[i] / PG_SZ);
    }
  }

  lemma AfterKeeps(e: set<nat>, n: nat, k: nat, f: nat)
    requires n <= FRAME_CNT && f in e && f < FRAME_CNT
    ensures f in TakenAfter(e, n, k)
  {
    hide Get;
    TakenStays(e, n, GetOps(k), f);
  }

  ghost function FreeFrames(taken: set<nat>, n: nat): set<nat> {
    set f: nat | f < n && f !in taken
  }

  /** Of calls in a row exactly as many succeed as there are free frames. */
  lemma {:induction false} GetsEnough(e: set<nat>, n: nat, k: nat, i: nat)
    requires n <= FRAME_CNT && i < k
    ensures |Gets(e, n, k)| == k && (Gets(e, n, k)[i] != NO_FRAME <==> i < |FreeFrames(e, n)|)
    decreases k
  {
    hide Get, Gets, Least;
    GetsAt(e, n, i, k);
    GetsNext(e, n, k);
    FreeShrinks(e, n);
    if i > 0 { GetsEnough(Get(e, n).1, n, k - 1, i - 1); }
  }

  /** `get_frame` succeeds exactly when a frame is free, and then one less is. */
  lemma FreeShrinks(e: set<nat>, n: nat)
    requires n <= FRAME_CNT
    ensures Get(e, n).0 != NO_FRAME <==> |FreeFrames(e, n)| > 0
    ensures |FreeFrames(Get(e, n).1, n)| == if |FreeFrames(e, n)| > 0 then |FreeFrames(e, n)| - 1 else 0
  {
    hide Get;
    GetFull(e, n);
    var f := Least(e, n);
    if f < n {
      GetExact(e, n);
      assert FreeFrames(e, n) == FreeFrames(e + {f}, n) + {f};
    } else {
      LeastFull(e, n);
      assert FreeFrames(e, n) == {};
    }
  }

  /** After i of them the calls of a row have used up i free frames. */
  lemma {:induction false} FreeAfter(e: set<nat>, n: nat, k: nat)
    requires n <= FRAME_CNT && k <= |FreeFrames(e, n)|
    ensures |FreeFrames(TakenAfter(e, n, k), n)| == |FreeFrames(e, n)| - k && e <= TakenAfter(e, n, k)
    decreases k
  {
    hide Get, TakenAfter, FreeFrames;
    GetsNext(e, n, k);
    if k > 0 {
      FreeShrinks(e, n);
      LeastGrows(e, n, GetOp);
      FreeAfter(Get(e, n).1, n, k - 1);
    }
  }

  // ------------------------------------------------------------ memory map

  /** An entry of the boot loader's memory map; `size` does not count itself. */
  datatype MmapEntry = MmapEntry(size: word, base: nat, length: nat, kind: word)

  const RESERVED: word := 2

  /** The frame of the region's k-th page step, cut to 32 bits as the code does. */
  function StepFrame(e: MmapEntry, k: nat): nat { (e.base + k * PG_SZ) % SPACE / PG_SZ }

  /** The frames that the first `c` steps over a region mark. */
  ghost function Marked(e: MmapEntry, c: nat): set<nat> {
    set k: nat | k < c :: StepFrame(e, k)
  }

  function Steps(length: nat): nat { (length + PG_SZ - 1) / PG_SZ }

  ghost function MarkedBy(e: MmapEntry): set<nat> {
    if e.kind == RESERVED then Marked(e, Steps(e.length)) else {}
  }

  /** Frame f holds a byte of the region. */
  ghost predicate Meets(e: MmapEntry, f: nat) {
    e.length > 0 && e.base < (f + 1) * PG_SZ && f * PG_SZ < e.base + e.length
  }

  /** The map as it lies in memory: entries by address, each followed by the next. */
  ghost predicate WellFormed(mmap: map<int, MmapEntry>, p: int, end: int)
    decreases end - p
  {
    p < end ==>
      && p in mmap && p + mmap[p].size + 4 < SPACE
      && mmap[p].length <= 0x1_0000_0000_0000_0000 - PG_SZ
      && WellFormed(mmap, p + mmap[p].size + 4, end)
  }

  /** The entries from address p up to `end`. */
  ghost function Entries(mmap: map<int, MmapEntry>, p: int, end: int): seq<MmapEntry>
    requires WellFormed(mmap, p, end)
    decreases end - p
  {
    if p < end then [mmap[p]] + Entries(mmap, p + mmap[p].size + 4, end) else []
  }

  /** Addresses of entries, each behind the one before, from `start` on and below `end`. */
  ghost predicate Chained(mmap: map<int, MmapEntry>, start: int, end: int, q: seq<int>) {
    && q != [] && q[0] == start
    && (forall i :: 0 <= i < |q| ==> q[i] < end && q[i] in mmap)
    && (forall i :: 0 < i < |q| ==> q[i] == q[i - 1] + mmap[q[i - 1]].size + 4)
  }

  /** The entry that a chain ends with. */
  ghost function EndOf(mmap: map<int, MmapEntry>, q: seq<int>): MmapEntry
    requires q != [] && q[|q| - 1] in mmap
  {
    mmap[q[|q| - 1]]
  }

  /** Where every chain ends, there is an entry of the list. */
  lemma {:induction false} ChainListed(mmap: map<int, MmapEntry>, p: int, end: int, q: seq<int>)
    requires WellFormed(mmap, p, end) && Chained(mmap, p, end, q)
    ensures EndOf(mmap, q) in Entries(mmap, p, end)
    decreases |q|
  {
    if |q| > 1 {
      var next := p + mmap[p].size + 4;
      ChainRest(mmap, p, end, q);
      ChainListed(mmap, next, end, q[1..]);
      assert EndOf(mmap, q[1..]) == EndOf(mmap, q);
    }
  }

  lemma ChainRest(mmap: map<int, MmapEntry>, p: int, end: int, q: seq<int>)
    requires Chained(mmap, p, end, q) && |q| > 1
    ensures p in mmap && Chained(mmap, p + mmap[p].size + 4, end, q[1..])
  {
    assert q[1] == q[0] + mmap[q[0]].size + 4;
    forall i | 0 < i < |q[1..]|
      ensures q[1..][i] == q[1..][i - 1] + mmap[q[1..][i - 1]].size + 4
    {
      assert q[i + 1] == q[i] + mmap[q[i]].size + 4;
    }
  }

  /** The list holds no other entries: each is where some chain ends. */
  lemma {:induction false} ListedChain(mmap: map<int, MmapEntry>, p: int, end: int, e: MmapEntry) returns (q: seq<int>)
    requires WellFormed(mmap, p, end) && e in Entries(mmap, p, end)
    ensures Chained(mmap, p, end, q) && EndOf(mmap, q) == e
    decreases end - p
  {
    if e == mmap[p] {
      q := [p];
    } else {
      var rest := ListedChain(mmap, p + mmap[p].size + 4, end, e);
      q := [p] + rest;
      assert forall i :: 0 < i < |q| ==> q[i] == rest[i - 1];
    }
  }

  /** All frames that a list of entries marks. */
  ghost function AllMarked(l: seq<MmapEntry>): set<nat> {
    if l == [] then {} else MarkedBy(l[0]) + AllMarked(l[1..])
  }

  ghost function Below(s: set<nat>, n: nat): set<nat> { set f | f in s && f < n }

  lemma {:induction false} MarkedAll(l: seq<MmapEntry>, i: nat, f: nat)
    requires i < |l| && f in MarkedBy(l[i])
    ensures f in AllMarked(l)
  {
    if i > 0 { MarkedAll(l[1..], i - 1, f); }
  }

  lemma {:induction false} AllMarkedOnly(l: seq<MmapEntry>, f: nat) returns (e: MmapEntry)
    requires f in AllMarked(l)
    ensures e in l && f in MarkedBy(e)
  {
    if f in MarkedBy(l[0]) { e := l[0]; } else { e := AllMarkedOnly(l[1..], f); }
  }

  /** A step of k pages into a reserved region, its address cut to 32 bits, is in frame f. */
  ghost predicate StepsOn(e: MmapEntry, k: nat, f: nat) {
    e.kind == RESERVED && k * PG_SZ < e.length && (e.base + k * PG_SZ) % SPACE / PG_SZ == f
  }

  lemma MarkedIs(e: MmapEntry, f: nat)
    ensures f in MarkedBy(e) <==> exists k: nat :: StepsOn(e, k, f)
  {
    hide Steps, StepFrame;
    forall k: nat
      ensures StepsOn(e, k, f) <==> e.kind == RESERVED && k < Steps(e.length) && StepFrame(e, k) == f
    {
      StepsReach(e.length, k);
      StepFrameOf(e, k, k * PG_SZ, (e.base + k * PG_SZ) % SPACE);
    }
    if f in MarkedBy(e) {
      var k: nat :| k < Steps(e.length) && StepFrame(e, k) == f;
      assert StepsOn(e, k, f);
    }
  }

  /** Some reserved entry of the map steps on frame f. */
  ghost predicate MapMarks(mmap: map<int, MmapEntry>, start: int, end: int, f: nat) {
    exists q, k: nat :: Chained(mmap, start, end, q) && StepsOn(EndOf(mmap, q), k, f)
  }

  /** What the list marks is what the entries at the chain's addresses mark. */
  lemma MapMarksAll(mmap: map<int, MmapEntry>, start: int, end: int, f: nat)
    requires WellFormed(mmap, start, end)
    ensures f in AllMarked(Entries(mmap, start, end)) <==> MapMarks(mmap, start, end, f)
  {
    hide StepsOn, MarkedBy, WellFormed, AllMarked, Entries;
    var l := Entries(mmap, start, end);
    if f in AllMarked(l) {
      var e := AllMarkedOnly(l, f);
      var q := ListedChain(mmap, start, end, e);
      MarkedIs(e, f);
      var k: nat :| StepsOn(e, k, f);
    }
    if MapMarks(mmap, start, end, f) {
      var q, k: nat :| Chained(mmap, start, end, q) && StepsOn(EndOf(mmap, q), k, f);
      ChainListed(mmap, start, end, q);
      MarkedIs(EndOf(mmap, q), f);
      var i :| 0 <= i < |l| && l[i] == EndOf(mmap, q);
      MarkedAll(l, i, f);
    }
  }

  /** Page steps count frames modulo the number of frames. */
  lemma StepIs(e: MmapEntry, k: nat)
    ensures StepFrame(e, k) == (e.base / PG_SZ + k) % FRAME_CNT
  {
    var f, r := e.base / PG_SZ + k, e.base % PG_SZ;
    assert e.base + k * PG_SZ == (f / FRAME_CNT) * SPACE + ((f % FRAME_CNT) * PG_SZ + r);
    assert 0 <= (f % FRAME_CNT) * PG_SZ + r < SPACE;
    ModPlus((f % FRAME_CNT) * PG_SZ + r, f / FRAME_CNT);
  }

  lemma ModPlus(x: nat, t: nat)
    requires x < SPACE
    ensures (t * SPACE + x) % SPACE == x
  {
  }

  /** The steps of one page from the base reach the page of the region's last byte, or
      that page is out of range anyway; so it is with page-aligned regions. */
  predicate Coverable(e: MmapEntry)
    requires 0 < e.length
  {
    e.base % PG_SZ + (e.length - 1) % PG_SZ < PG_SZ || e.base + e.length > SPACE
  }

  /** Every frame with a byte of a reserved region is marked exactly when the steps of
      one page from its base reach the page of its last byte, or that page is out of
      range anyway; page-aligned regions always are. */
  lemma RegionCovered(e: MmapEntry)
    requires e.kind == RESERVED && 0 < e.length
    ensures (forall f: nat :: f < FRAME_CNT && Meets(e, f) ==> f in MarkedBy(e))
      <==> Coverable(e)
  {
    var q, n := e.base / PG_SZ, (e.length - 1) / PG_SZ;
    var last := (e.base + e.length - 1) / PG_SZ;
    assert Steps(e.length) == n + 1;
    assert last == if e.base % PG_SZ + (e.length - 1) % PG_SZ < PG_SZ then q + n else q + n + 1;
    forall f: nat | q <= f <= q + n && f < FRAME_CNT
      ensures f in MarkedBy(e)
    {
      StepIs(e, f - q);
      assert f == StepFrame(e, f - q);
    }
    if last == q + n + 1 && last < FRAME_CNT {
      assert Meets(e, last);
      forall k: nat | k < n + 1
        ensures StepFrame(e, k) != last
      {
        StepIs(e, k);
      }
    }
  }

  /** Only frames with a byte of the region are marked, exactly when no step leaves
      the 32 bits, or the region starts in the first frame. Otherwise a step cut to 32
      bits marks a frame outside it. */
  lemma RegionInside(e: MmapEntry)
    requires e.kind == RESERVED && 0 < e.length
    ensures (forall f :: f in MarkedBy(e) ==> Meets(e, f))
      <==> e.base + (e.length - 1) / PG_SZ * PG_SZ < SPACE || e.base < PG_SZ
  {
    var q, n := e.base / PG_SZ, (e.length - 1) / PG_SZ;
    assert Steps(e.length) == n + 1;
    forall f | f in MarkedBy(e) && (e.base + n * PG_SZ < SPACE || e.base < PG_SZ)
      ensures Meets(e, f)
    {
      var k: nat :| k < n + 1 && f == StepFrame(e, k);
      StepIs(e, k);
    }
    if q >= FRAME_CNT {
      assert StepFrame(e, 0) in MarkedBy(e) && StepFrame(e, 0) < FRAME_CNT;
      assert !Meets(e, StepFrame(e, 0));
    } else if q + n >= FRAME_CNT && q > 0 {
      StepIs(e, FRAME_CNT - q);
      assert 0 == StepFrame(e, FRAME_CNT - q);
      assert 0 in MarkedBy(e);
      assert !Meets(e, 0);
    }
  }

  /** A frame that a coverable reserved entry of the map meets, once the map's frames are
      taken, stays taken and is not handed out, as long as it is not released. */
  lemma ReservedForGood(mmap: map<int, MmapEntry>, start: int, end: int, q: seq<int>, f: nat, taken: set<nat>, n: nat,
                        ops: seq<FrameOp>)
    requires WellFormed(mmap, start, end) && Chained(mmap, start, end, q) && f < n && f < FRAME_CNT
    requires EndOf(mmap, q).kind == RESERVED && Meets(EndOf(mmap, q), f) && Coverable(EndOf(mmap, q))
    requires (forall g: nat :: g < n && MapMarks(mmap, start, end, g) ==> g in taken) && FreeOp(f) !in ops
    ensures f in taken
    ensures n <= FRAME_CNT ==> f in FrameRun(taken, n, ops) && f * PG_SZ !in Returned(taken, n, ops)
  {
    hide MarkedBy, FrameRun, Returned, WellFormed, StepsOn;
    var e := EndOf(mmap, q);
    RegionCovered(e);
    MarkedIs(e, f);
    var k: nat :| StepsOn(e, k, f);
    assert MapMarks(mmap, start, end, f);
    if n <= FRAME_CNT { TakenStays(taken, n, ops, f); }
  }

  /** Frames that coverable reserved entries of the map meet are taken, and every later
      run that does not release one leaves it taken and does not hand it out. */
  ghost predicate KeptBack(mmap: map<int, MmapEntry>, start: int, end: int, taken: set<nat>, n: nat) {
    forall q, f: nat | Chained(mmap, start, end, q) && f < n && f < FRAME_CNT
      && EndOf(mmap, q).kind == RESERVED && Meets(EndOf(mmap, q), f) && Coverable(EndOf(mmap, q))
      :: f in taken && (n <= FRAME_CNT ==> NeverReturned(taken, n, f))
  }

  ghost predicate NeverReturned(taken: set<nat>, n: nat, f: word) {
    forall ops :: FreeOp(f) !in ops ==> f in FrameRun(taken, n, ops) && f * PG_SZ !in Returned(taken, n, ops)
  }

  lemma KeepsBack(mmap: map<int, MmapEntry>, start: int, end: int, taken: set<nat>, n: nat)
    requires WellFormed(mmap, start, end) && forall g: nat :: g < n && MapMarks(mmap, start, end, g) ==> g in taken
    ensures KeptBack(mmap, start, end, taken, n)
  {
    hide Coverable, Returned, MapMarks, WellFormed;
    forall q, f: nat | Chained(mmap, start, end, q) && f < n && f < FRAME_CNT
      && EndOf(mmap, q).kind == RESERVED && Meets(EndOf(mmap, q), f) && Coverable(EndOf(mmap, q))
      ensures f in taken && (n <= FRAME_CNT ==> NeverReturned(taken, n, f))
    {
      ReservedForGood(mmap, start, end, q, f, taken, n, []);
      forall ops | n <= FRAME_CNT && FreeOp(f) !in ops
        ensures f in FrameRun(taken, n, ops) && f * PG_SZ !in Returned(taken, n, ops)
      {
        ReservedForGood(mmap, start, end, q, f, taken, n, ops);
      }
    }
  }

  class FrameAllocator {
    const frames: BitSet

    ghost predicate Valid()
      reads this, frames
    {
      frames.Valid()
    }

    ghost function Taken(): set<nat>
      reads this, frames, frames.bits
    {
      frames.Contents()
    }

    ghost function Count(): nat
      reads this, frames
    {
      frames.Capacity()
    }

    /** `sz` is the memory size in KB; four make a frame. */
    constructor (sz: word)
      ensures Valid() && fresh(frames) && fresh(frames.bits)
      ensures Count() == (sz / 4 / 32 + 1) * 32
    {
      frames := new BitSet(sz / 4);
    }

    /** Marks the frame of a byte address; tells whether there is such a frame. */
    method SetFrame(addr: word) returns (ok: word)
      requires Valid()
      modifies frames.bits
      ensures ok == if addr / PG_SZ < Count() then 1 else 0
      ensures Taken() == if addr / PG_SZ < Count() then old(Taken()) + {addr / PG_SZ} else old(Taken())
    {
      var idx := addr / PG_SZ;
      var n := frames.GetSize();
      if idx < n {
        frames.Set(idx);
        ok := 1;
      } else {
        ok := 0;
      }
    }

    /** Releases a frame by its number, unlike `SetFrame`. */
    method FreeFrame(frame: word)
      requires Valid()
      modifies frames.bits
      ensures Taken() == old(Taken()) - (if frame < Count() then {frame} else {})
    {
      frames.Clear(frame);
    }

    method GetFrame() returns (addr: word)
      requires Valid()
      modifies frames.bits
      ensures (addr, Taken()) == Get(old(Taken()), Count())
    {
      var idx := frames.FirstClear();
      assert idx == Least(Taken(), Count());
      var n := frames.GetSize();
      if idx == n {
        return NO_FRAME;
      }
      addr := idx * PG_SZ % SPACE;
      var ok := SetFrame(addr);
    }

    /** Any run of calls is the run on sets. */
    method Serve(ops: seq<FrameOp>) returns (rs: seq<word>)
      requires Valid()
      modifies frames.bits
      ensures Taken() == FrameRun(old(Taken()), Count(), ops) && rs == Returned(old(Taken()), Count(), ops)
      decreases |ops|
    {
      hide Get;
      rs := [];
      if ops != [] {
        ghost var taken := Taken();
        match ops[0] {
          case GetOp =>
            var addr := GetFrame();
            rs := [addr];
          case SetOp(addr) =>
            var ok := SetFrame(addr);
          case FreeOp(frame) =>
            FreeFrame(frame);
        }
        assert Taken() == FrameStep(taken, Count(), ops[0]);
        var rest := Serve(ops[1..]);
        rs := rs + rest;
      }
    }

    /** Marks every frame that the reserved regions of the memory map step on. */
    method Reserve(mmap: map<int, MmapEntry>, addr: word, length: word)
      requires Valid() && addr + length < SPACE && WellFormed(mmap, addr, addr + length)
      modifies frames.bits
      ensures forall f: nat ::
        f in Taken() <==> f in old(Taken()) || (f < Count() && MapMarks(mmap, addr, addr + length, f))
    {
      hide Marked, StepFrame, Steps, MapMarks;
      var p: word := addr;
      ghost var done: set<nat> := {};
      while p < addr + length
        invariant WellFormed(mmap, p, addr + length)
        invariant AllMarked(Entries(mmap, addr, addr + length)) == done + AllMarked(Entries(mmap, p, addr + length))
        invariant Taken() == old(Taken()) + Below(done, Count())
        decreases addr + length - p
      {
        var e := mmap[p];
        if e.kind == RESERVED {
          MarkRegion(e);
        }
        done := done + MarkedBy(e);
        assert Entries(mmap, p, addr + length)[1..] == Entries(mmap, p + e.size + 4, addr + length);
        p := p + e.size + 4;
      }
      forall f: nat {:trigger MapMarks(mmap, addr, addr + length, f)}
        ensures f in AllMarked(Entries(mmap, addr, addr + length)) <==> MapMarks(mmap, addr, addr + length, f)
      {
        MapMarksAll(mmap, addr, addr + length, f);
      }
    }

    method MarkRegion(e: MmapEntry)
      requires Valid() && e.length <= 0x1_0000_0000_0000_0000 - PG_SZ
      modifies frames.bits
      ensures Taken() == old(Taken()) + Below(Marked(e, Steps(e.length)), Count())
    {
      hide Marked, StepFrame, Below, Steps;
      var i := 0;
      StepsReach(e.length, 0);
      ghost var c: nat := 0;
      MarkedNone(e, Count());
      while i < e.length
        invariant i == c * PG_SZ && c <= Steps(e.length)
        invariant Taken() == old(Taken()) + Below(Marked(e, c), Count())
        decreases e.length - i
      {
        var addr: word := (e.base + i) % SPACE;
        PageBase(addr);
        StepFrameOf(e, c, i, addr);
        StepsReach(e.length, c);
        frames.Set((addr - addr % PG_SZ) / PG_SZ);
        MarkedStep(e, c, Count());
        i := i + PG_SZ;
        c := c + 1;
      }
      StepsReach(e.length, c);
    }
  }

  /** Sets the frames up from the memory sizes in KB and the memory map. Every frame that a
      coverable reserved entry meets is taken, and no later run that does not release it
      hands it out. */
  method Init(memLower: word, memUpper: word, mmapAddr: word, mmapLength: word, mmap: map<int, MmapEntry>)
    returns (p: FrameAllocator)
    requires (mmapAddr + KERN_OFFSET) % SPACE + mmapLength < SPACE
    requires WellFormed(mmap, (mmapAddr + KERN_OFFSET) % SPACE, (mmapAddr + KERN_OFFSET) % SPACE + mmapLength)
    ensures p.Valid() && fresh(p) && p.Count() == ((memUpper + memLower) % SPACE / 4 / 32 + 1) * 32
    ensures (memUpper + memLower) % SPACE < 4 * p.Count() <= (memUpper + memLower) % SPACE + 128
    ensures var start := (mmapAddr + KERN_OFFSET) % SPACE;
      && (forall f: nat :: f < p.Count() && MapMarks(mmap, start, start + mmapLength, f) ==> f in p.Taken())
      && KeptBack(mmap, start, start + mmapLength, p.Taken(), p.Count())
  {
    hide KeptBack, AllMarked, WellFormed, MapMarks;
    p := new FrameAllocator((memUpper + memLower) % SPACE);
    var start: word := (mmapAddr + KERN_OFFSET) % SPACE;
    p.Reserve(mmap, start, mmapLength);
    KeepsBack(mmap, start, start + mmapLength, p.Taken(), p.Count());
  }

  lemma MarkedNone(e: MmapEntry, n: nat)
    ensures Below(Marked(e, 0), n) == {}
  {
    assert Marked(e, 0) == {};
  }

  lemma MarkedStep(e: MmapEntry, c: nat, n: nat)
    ensures Below(Marked(e, c + 1), n) ==
      Below(Marked(e, c), n) + (if StepFrame(e, c) < n then {StepFrame(e, c)} else {})
  {
    hide StepFrame;
    assert Marked(e, c + 1) == Marked(e, c) + {StepFrame(e, c)};
  }

  lemma PageBase(addr: nat)
    ensures (addr - addr % PG_SZ) / PG_SZ == addr / PG_SZ
  {
  }

  lemma StepFrameOf(e: MmapEntry, c: nat, i: nat, addr: nat)
    requires i == c * PG_SZ && addr == (e.base + i) % SPACE
    ensures StepFrame(e, c) == addr / PG_SZ
  {
  }

  /** `c` steps are enough for a region exactly when they reach its length. */
  lemma StepsReach(length: nat, c: nat)
    ensures length <= c * PG_SZ <==> Steps(length) <= c
  {
  }
}
