/** What holds over whole runs of the heap: exact tiling, best fit, and the bound
    on neighbouring holes that coalescing guarantees. */
module HeapRuns {
  import opened BinIndex
  import opened HeapSpec
  import opened HeapInvariant
  import opened Sets
  import Memory

  // ---------------------------------------------------------------- tiling

  /** The blocks from `a` on, in address order. */
  ghost function Walk(start: int, end: int, size: Sizes, a: int): seq<int>
    requires Tiled(start, end, size) && a in size
    decreases end - a
  {
    assert Succ(size, a) <= end;
    if Succ(size, a) == end then [a] else [a] + Walk(start, end, size, Succ(size, a))
  }

  /** The bytes a list of blocks takes, headers and footers included. */
  ghost function Span(l: seq<int>, size: Sizes): int {
    if l == [] then 0 else At(size, l[0]) + OVERHEAD + Span(l[1..], size)
  }

  /** The blocks from `a` on are exactly those at `a` or higher, and they fill
      [a, end) without a gap. */
  lemma {:induction false} WalkTiles(start: int, end: int, size: Sizes, a: int)
    requires Tiled(start, end, size) && a in size
    ensures forall b :: b in Walk(start, end, size, a) <==> b in size && a <= b
    ensures Span(Walk(start, end, size, a), size) == end - a
    decreases end - a
  {
    hide Tiled;
    var n := Succ(size, a);
    Beyond(start, end, size, a);
    if n == end {
      assert Span([a], size) == size[a] + OVERHEAD + Span([], size);
    } else {
      WalkTiles(start, end, size, n);
      assert ([a] + Walk(start, end, size, n))[1..] == Walk(start, end, size, n);
    }
  }

  /** Nothing lies between a block and the next. */
  lemma Beyond(start: int, end: int, size: Sizes, a: int)
    requires Tiled(start, end, size) && a in size
    ensures a < Succ(size, a) <= end
    ensures Succ(size, a) == end ==> forall b :: b in size && a <= b ==> b == a
    ensures Succ(size, a) != end ==>
      Succ(size, a) in size && forall b :: b in size && a <= b ==> b == a || Succ(size, a) <= b
  {
    forall b | b in size && a < b
      ensures Succ(size, a) <= b < end
    {
      assert Succ(size, b) <= end;
    }
  }

  /** Conservation: in every heap that satisfies the invariant the blocks, taken
      in address order, are all there is and add up to the whole heap. */
  lemma Conserved(h: Heap)
    requires Inv(h)
    ensures forall b :: b in Walk(h.start, h.end, h.size, h.start) <==> b in h.size
    ensures Span(Walk(h.start, h.end, h.size, h.start), h.size) == h.end - h.start
  {
    hide Binned, Walk, Span;
    WalkTiles(h.start, h.end, h.size, h.start);
  }

  // -------------------------------------------------------------- best fit

  /** The search over bins is a global best fit. */
  lemma BestFit(h: Heap, sz: nat, a: int)
    requires Inv(h) && Fits(h, sz)
    requires a in h.free && sz <= h.size[a]
    ensures h.size[Found(h, sz)] <= h.size[a]
  {
    hide Tiled, FitPos, FindBin, NoDup, BinOf;
    FitsInBin(h, sz);
    BinGrows(sz, h.size[a]);
    var k, c := FindBin(h.size, h.bins, sz, BinOf(sz)), BinOf(h.size[a]);
    var j :| 0 <= j < |h.bins[c]| && h.bins[c][j] == a;
    assert FitPos(h.bins[c], sz, h.size) <= j && k <= c;
    if c == k {
      assert At(h.size, h.bins[k][FitPos(h.bins[k], sz, h.size)]) <= At(h.size, h.bins[k][j]);
    } else if h.size[a] < h.size[Found(h, sz)] {
      BinGrows(h.size[a], h.size[Found(h, sz)]);
    }
  }

  /** Of the smallest holes that fit, the one that lies first in its bin is chosen; it has
      been there longest, as equal ones are entered behind each other. */
  lemma FirstOfEqual(h: Heap, sz: nat, b: int)
    requires Inv(h) && Fits(h, sz)
    requires b in h.free && b != Found(h, sz) && h.size[b] == h.size[Found(h, sz)]
    ensures var bin := h.bins[BinOf(h.size[b])];
      Found(h, sz) in bin && b in bin && IndexOf(bin, Found(h, sz)) < IndexOf(bin, b)
  {
    hide Tiled, FitPos, FindBin, NoDup, SortedBy, BinOf;
    FitsInBin(h, sz);
    var k := FindBin(h.size, h.bins, sz, BinOf(sz));
    var p := FitPos(h.bins[k], sz, h.size);
    assert h.bins[k][p] == Found(h, sz);
    assert IndexOf(h.bins[k], Found(h, sz)) <= p;
    assert b in h.bins[k];
  }

  // ---------------------------------------------------------- exact splits

  /** What an allocation of sz bytes from hole `a` makes of the blocks and holes. A hole of
      more than sz + 24 bytes is cut: the block has exactly what was asked for, and a hole
      of the rest, less 20 bytes for its header and footer, follows. A smaller one is
      handed out whole, so that nobody gets more than 24 bytes too many. */
  ghost predicate Allotted(h: Heap, sz: nat, a: int, h': Heap) {
    && a in h.free && a in h.size && a in h'.size && a !in h'.free
    && sz <= h'.size[a] <= sz + 24
    && (h.size[a] > sz + 24 ==>
          && a + sz + 20 !in h.size && h'.size == h.size[a := sz][a + sz + 20 := h.size[a] - sz - 20]
          && h'.free == h.free - {a} + {a + sz + 20})
    && (h.size[a] <= sz + 24 ==> h'.size == h.size && h'.free == h.free - {a})
  }

  lemma AllocExact(h: Heap, sz: nat)
    requires Inv(h) && Fits(h, sz)
    ensures Allotted(h, sz, Found(h, sz), Alloc(h, sz))
  {
    hide Found, Fits, Binned, Alloc, Tiled;
    var a := Found(h, sz);
    AllocBlocks(h, sz, a, Alloc(h, sz));
    if Splits(h, sz) { SplitTiled(h.start, h.end, h.size, a, sz); }
  }

  /** What a page-aligned allocation of sz bytes makes of the last block w: a hole up to the
      block, the block, whose pointer p is the page boundary next behind w, and a hole of
      what is left. */
  ghost predicate Carved(h: Heap, w: int, sz: nat, p: int, h': Heap) {
    && w in h.size && p % Memory.PG_SZ == 0 && w < p <= w + Memory.PG_SZ
    && h'.size == h.size[w := p - w - 28][p - 8 := sz][p + sz + 12 := h.size[w] - (p - w) - sz - 12]
    && h'.free == h.free + {p + sz + 12} && w in h.free && p - 8 !in h.free && p - 8 !in h.size
  }

  lemma AllocAExact(h: Heap, w: int, sz: nat)
    requires Inv(h) && FitsAligned(h, w, sz)
    ensures Carved(h, w, sz, w + Extra(w), AllocA(h, w, sz))
  {
    hide BinAdd, BinRemove, BinOf, NoDup, SortedBy, Extra;
    var n := Extra(w) - OVERHEAD - OFFSET;
    CarveTiled(h.start, h.end, h.size, w, n, sz);
    NextBoundary(w);
    var ret, wild := w + OVERHEAD + n, w + OVERHEAD + n + OVERHEAD + sz;
    assert Carve(h.size, w, n, sz) == h.size[w := n][ret := sz][wild := h.size[w] - n - sz - 2 * OVERHEAD];
  }

  lemma NextBoundary(w: int)
    ensures (w + Extra(w)) % Memory.PG_SZ == 0 && w < w + Extra(w) <= w + Memory.PG_SZ
  {
  }

  // ------------------------------------------------------------------ runs

  datatype Op = AllocOp(sz: nat) | AllocAOp(sz: nat) | FreeOp(p: int)

  /** The last block, whose footer ends the heap. */
  ghost function Wilderness(h: Heap): (w: int)
    requires Inv(h)
    ensures IsLast(h, w)
  {
    LastExists(h, h.start);
    var w :| IsLast(h, w);
    w
  }

  lemma {:induction false} LastExists(h: Heap, from: int)
    requires Inv(h) && from in h.size
    ensures exists w :: IsLast(h, w)
    decreases h.end - from
  {
    hide Binned;
    assert Succ(h.size, from) <= h.end;
    if Succ(h.size, from) == h.end {
      assert IsLast(h, from);
    } else {
      LastExists(h, Succ(h.size, from));
    }
  }

  /** What each call demands of its caller. */
  ghost predicate Enabled(h: Heap, op: Op)
    requires Inv(h)
  {
    match op
    case AllocOp(sz) => Fits(h, sz)
    case AllocAOp(sz) => FitsAligned(h, Wilderness(h), sz)
    case FreeOp(p) => p - OFFSET in h.size && p - OFFSET !in h.free
  }

  ghost function Step(h: Heap, op: Op): (h': Heap)
    requires Inv(h) && Enabled(h, op)
    ensures Inv(h') && h'.start == h.start && h'.end == h.end
  {
    hide Tiled, Binned, Alloc, AllocA;
    match op
    case AllocOp(sz) => AllocKeeps(h, sz); AllocFrame(h, sz); Alloc(h, sz)
    case AllocAOp(sz) =>
      AllocAKeeps(h, Wilderness(h), sz); AllocAFrame(h, Wilderness(h), sz); AllocA(h, Wilderness(h), sz)
    case FreeOp(p) => FreeKeeps(h, p - OFFSET); Free(h, p - OFFSET)
  }

  lemma AllocFrame(h: Heap, sz: nat)
    requires Inv(h) && Fits(h, sz)
    ensures Alloc(h, sz).start == h.start && Alloc(h, sz).end == h.end
  {
    hide Inv, Found, Fits, Splits, BinAdd, BinRemove, Split;
  }

  lemma AllocAFrame(h: Heap, w: int, sz: nat)
    requires Inv(h) && FitsAligned(h, w, sz)
    ensures AllocA(h, w, sz).start == h.start && AllocA(h, w, sz).end == h.end
  {
    hide Inv, FitsAligned, BinAdd, BinRemove, Carve;
  }

  /** Every call of the run is one its caller may make. */
  ghost predicate Legal(h: Heap, ops: seq<Op>)
    requires Inv(h)
    decreases |ops|
  {
    ops == [] || (Enabled(h, ops[0]) && Legal(Step(h, ops[0]), ops[1..]))
  }

  /** The heap after a run; its contract is the invariant over every run. */
  ghost function Run(h: Heap, ops: seq<Op>): (h': Heap)
    requires Inv(h) && Legal(h, ops)
    ensures Inv(h') && h'.start == h.start && h'.end == h.end
    decreases |ops|
  {
    if ops == [] then h else Run(Step(h, ops[0]), ops[1..])
  }

  // ------------------------------------------------------------ coalescing

  /** The holes whose successor is a hole too. */
  ghost function Pairs(h: Heap): set<int> {
    set a | a in h.free && a in h.size && Succ(h.size, a) in h.free
  }

  /** The blocks after an allocation, in one step. */
  lemma AllocBlocks(h: Heap, sz: nat, a: int, h': Heap)
    requires Inv(h) && Fits(h, sz) && a == Found(h, sz) && h' == Alloc(h, sz)
    ensures a in h'.size && a !in h'.free && a in h.size && a in h.free
    ensures h'.start == h.start && h'.end == h.end
    ensures h'.size == (if Splits(h, sz) then Split(h.size, a, sz) else h.size)
    ensures h'.free == h.free - {a} + (if Splits(h, sz) then {a + OVERHEAD + sz} else {})
  {
    hide Found, Fits, Binned, BinAdd, BinRemove;
    if Splits(h, sz) { SplitTiled(h.start, h.end, h.size, a, sz); }
  }

  lemma FoundFree(h: Heap, sz: nat)
    requires Inv(h) && Fits(h, sz)
    ensures Found(h, sz) in h.free
  {
    hide Inv, Fits;
  }

  lemma AllocPairs(h: Heap, sz: nat)
    requires Inv(h) && Fits(h, sz)
    ensures |Pairs(Alloc(h, sz))| <= |Pairs(h)|
  {
    hide Found, Fits, Alloc, Binned, Split;
    var a := Found(h, sz);
    var h' := Alloc(h, sz);
    var rest := a + OVERHEAD + sz;
    AllocBlocks(h, sz, a, h');
    assert Succ(h.size, a) <= h.end;
    if Splits(h, sz) {
      SplitTiled(h.start, h.end, h.size, a, sz);
      assert Succ(h'.size, rest) == Succ(h.size, a);
      forall b | b in Pairs(h') && b != rest
        ensures b in Pairs(h) - {a}
      {
        assert Succ(h'.size, b) == Succ(h.size, b);
      }
      TradeSize(Pairs(h'), Pairs(h), a, rest);
    } else {
      SubsetSize(Pairs(h'), Pairs(h));
    }
  }

  lemma AllocAPairs(h: Heap, w: int, sz: nat)
    requires Inv(h) && FitsAligned(h, w, sz)
    ensures |Pairs(AllocA(h, w, sz))| <= |Pairs(h)|
  {
    hide BinAdd, BinRemove, BinOf, NoDup, SortedBy, Extra;
    var h' := AllocA(h, w, sz);
    var n := Extra(w) - OVERHEAD - OFFSET;
    var ret := w + OVERHEAD + n;
    CarveTiled(h.start, h.end, h.size, w, n, sz);
    assert h.end !in h'.free by { assert h.end in h.size ==> Succ(h.size, h.end) <= h.end; }
    forall b | b in Pairs(h')
      ensures b in Pairs(h)
    {
      assert Succ(h'.size, ret + OVERHEAD + sz) == h.end;
      assert Succ(h'.size, w) == ret;
      assert b != w && b != ret + OVERHEAD + sz;
      assert Succ(h'.size, b) == Succ(h.size, b);
      assert Succ(h.size, b) <= w by { assert b < w by { assert Succ(h.size, b) <= h.end; } }
    }
    SubsetSize(Pairs(h'), Pairs(h));
  }

  /** The blocks after a coalescing free, in one step. */
  lemma FreeSizes(h: Heap, a: int, p: int, n: int, b: int, h': Heap)
    requires Inv(h) && a in h.size && a !in h.free && a != h.start
    requires p == Pred(h.start, h.end, h.size, a) && n == Succ(h.size, a)
    requires b == (if p in h.free then p else a) && h' == Free(h, a)
    ensures h'.free == h.free - {p, n} + {b} && h'.start == h.start && h'.end == h.end
    ensures h'.size.Keys == h.size.Keys - (if p in h.free then {a} else {}) - (if n in h.free then {n} else {})
    ensures b in h'.size && Succ(h'.size, b) == (if n in h.free then Succ(h.size, n) else n)
    ensures forall c :: c in h'.size && c != b ==> h'.size[c] == h.size[c]
  {
    hide BinAdd, BinRemove, BinOf, NoDup, SortedBy;
    FreeFacts(h, a, p, n);
    if p in h.free { MergeTiled(h.start, h.end, h.size, p); }
  }

  /** Freeing the first block does not coalesce: it adds a pair exactly when the
      block behind it is a hole. */
  lemma FreeFirstPairs(h: Heap)
    requires Inv(h) && h.start !in h.free && h.start in h.size
    ensures |Pairs(Free(h, h.start))| == |Pairs(h)| + if Succ(h.size, h.start) in h.free then 1 else 0
  {
    hide BinAdd, BinOf, Binned;
    var h' := Free(h, h.start);
    assert Succ(h.size, h.start) != h.start;
    forall b | b in h.free && b in h.size
      ensures Succ(h.size, b) != h.start
    {
    }
    if Succ(h.size, h.start) in h.free {
      assert Pairs(h') == Pairs(h) + {h.start};
    } else {
      assert Pairs(h') == Pairs(h);
    }
  }

  /** Every other free coalesces on both sides and adds none. */
  lemma FreePairs(h: Heap, a: int)
    requires Inv(h) && a in h.size && a !in h.free && a != h.start
    ensures |Pairs(Free(h, a))| <= |Pairs(h)|
  {
    hide Free, Binned;
    var h' := Free(h, a);
    var p := Pred(h.start, h.end, h.size, a);
    var n := Succ(h.size, a);
    var b := if p in h.free then p else a;
    FreeFacts(h, a, p, n);
    FreeSizes(h, a, p, n, b, h');
    forall c | c in Pairs(h') && c != b
      ensures c in Pairs(h) && c != n
    {
      assert Succ(h'.size, c) == Succ(h.size, c);
      if Succ(h.size, c) == a { PredUnique(h.start, h.end, h.size, c, p); }
    }
    if n in h.free {
      assert b in Pairs(h') ==> n in Pairs(h);
      TradeSize(Pairs(h'), Pairs(h), n, b);
    } else {
      assert b !in Pairs(h');
      SubsetSize(Pairs(h'), Pairs(h));
    }
  }

  /** How often a run frees the first block. */
  function FirstFrees(start: int, ops: seq<Op>): nat {
    if ops == [] then 0
    else (if ops[0] == FreeOp(start + OFFSET) then 1 else 0) + FirstFrees(start, ops[1..])
  }

  lemma StepPairs(h: Heap, op: Op)
    requires Inv(h) && Enabled(h, op)
    ensures |Pairs(Step(h, op))| <= |Pairs(h)| + if op == FreeOp(h.start + OFFSET) then 1 else 0
  {
    hide Inv, Pairs, Alloc, AllocA, Free, Fits, FitsAligned;
    match op {
      case AllocOp(sz) => AllocPairs(h, sz);
      case AllocAOp(sz) => AllocAPairs(h, Wilderness(h), sz);
      case FreeOp(p) =>
        if p == h.start + OFFSET {
          assert h.start in h.size && h.start !in h.free;
          FreeFirstPairs(h);
        } else {
          FreePairs(h, p - OFFSET);
        }
    }
  }

  /** Over every run the pairs of neighbouring holes grow by no more than the
      number of times the first block was freed. */
  lemma {:induction false} RunPairs(h: Heap, ops: seq<Op>)
    requires Inv(h) && Legal(h, ops)
    ensures |Pairs(Run(h, ops))| <= |Pairs(h)| + FirstFrees(h.start, ops)
    decreases |ops|
  {
    hide Inv, Pairs, Enabled, Step;
    if ops != [] {
      StepPairs(h, ops[0]);
      RunPairs(Step(h, ops[0]), ops[1..]);
    }
  }

  /** Two neighbouring holes do occur: in a fresh heap of one page, allocating four bytes
      and freeing them leaves the first block a hole in front of a hole. */
  lemma TwoHolesOccur()
    ensures Inv(Init(0x1000, 0x2000)) && Legal(Init(0x1000, 0x2000), [AllocOp(4), FreeOp(0x1000 + OFFSET)])
    ensures Pairs(Run(Init(0x1000, 0x2000), [AllocOp(4), FreeOp(0x1000 + OFFSET)])) == {0x1000}
  {
    hide Tiled, Binned, BinAdd, BinRemove, Found, Alloc;
    InitKeeps(0x1000, 0x2000);
    var h, ops := Init(0x1000, 0x2000), [AllocOp(4), FreeOp(0x1000 + OFFSET)];
    assert 0x1000 in h.free && Fits(h, 4);
    FoundFree(h, 4);
    var h1 := Step(h, ops[0]);
    AllocBlocks(h, 4, 0x1000, h1);
    assert ops[1..] == [ops[1]] && Enabled(h1, ops[1]);
    var h2 := Step(h1, ops[1]);
    assert ops[1..][1..] == [];
    assert Legal(h2, []) && Legal(h1, ops[1..]) && Legal(h, ops);
    assert Run(h2, []) == h2 && Run(h1, ops[1..]) == h2;
    assert Pairs(h2) == {0x1000};
  }

  /** From the initial heap, a run that never frees the first block never has two
      neighbouring holes. */
  lemma NeverTwoHoles(start: int, end: int, ops: seq<Op>, a: int)
    requires 0 < start && start + OVERHEAD <= end && end + HEADER <= Memory.SPACE
    requires Inv(Init(start, end)) && Legal(Init(start, end), ops)
    requires FirstFrees(start, ops) == 0
    requires a in Run(Init(start, end), ops).free && a in Run(Init(start, end), ops).size
    ensures Succ(Run(Init(start, end), ops).size, a) !in Run(Init(start, end), ops).free
  {
    hide Inv, Legal, Run, BinAdd;
    var h := Init(start, end);
    RunPairs(h, ops);
    assert Pairs(h) == {};
    var last := Pairs(Run(h, ops));
    assert |last| == 0;
    assert a !in last;
  }

  /** Without neighbouring holes, once every block but the first is free no more
      than two blocks are left. */
  lemma AtMostTwoLeft(h: Heap)
    requires Inv(h) && Pairs(h) == {}
    requires forall a :: a in h.size && a != h.start ==> a in h.free
    ensures |h.size| <= 2
  {
    hide Binned;
    var n := Succ(h.size, h.start);
    forall a | a in h.size
      ensures a in {h.start, n}
    {
      if a != h.start {
        var p := Pred(h.start, h.end, h.size, a);
        assert a in h.free && p !in Pairs(h);
        assert p == h.start;
      }
    }
    SubsetSize(h.size.Keys, {h.start, n});
  }

  // ----------------------------------------------------- aligned allocation

  /** What the 32-bit subtraction a - b leaves. */
  function Minus32(a: int, b: int): int { (a - b) % Memory.SPACE }

  /** The sizes `kheap_alloc_a` computes for the piece in front of the page boundary
      and for the new wilderness, with unsigned wrap-around. */
  function FrontSize(w: int): int { Minus32(Extra(w), OVERHEAD + OFFSET) }

  function RestSize(w: int, oldSz: int, sz: int): int { Minus32(oldSz, FrontSize(w) + sz + 2 * OVERHEAD) }

  /** The three pieces fill the old wilderness exactly when neither size wraps. */
  lemma AlignedExact(w: int, oldSz: int, sz: int)
    requires 0 < w && 0 <= oldSz && w + oldSz + OVERHEAD <= Memory.SPACE && 0 <= sz < Memory.SPACE
    ensures FrontSize(w) + sz + RestSize(w, oldSz, sz) + 2 * OVERHEAD == oldSz
      <==> Extra(w) >= OVERHEAD + OFFSET && oldSz >= Extra(w) + sz + 12
    ensures Extra(w) >= OVERHEAD + OFFSET ==> (w + OVERHEAD + FrontSize(w) + OFFSET) % Memory.PG_SZ == 0
  {
    var e := Extra(w);
    assert 1 <= e <= Memory.PG_SZ;
    if e >= OVERHEAD + OFFSET {
      assert FrontSize(w) == e - OVERHEAD - OFFSET;
      assert w + e == Memory.PG_SZ * (w / Memory.PG_SZ + 1);
    } else {
      assert FrontSize(w) == e - OVERHEAD - OFFSET + Memory.SPACE;
    }
  }
}
