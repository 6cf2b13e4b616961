/** What the heap and its clients may rely on of each other. */
module HeapClient {
  import opened Memory
  import opened BinIndex
  import opened HeapSpec
  import opened HeapInvariant
  import opened HeapRuns
  import opened BinLists
  import opened HeapMemory
  import opened HeapSteps
  import opened KHeap

  /** Byte x belongs to the client of live block `c`. */
  ghost predicate InPayload(h: Heap, c: int, x: int) {
    c in h.size && c !in h.free && c + NEXT_AT <= x < c + HEADER + h.size[c]
  }

  /** Byte x belongs to the heap: a flag, size word or footer of any block, or a link
      of a hole. */
  ghost predicate InTags(h: Heap, c: int, x: int) {
    && c in h.size
    && (|| c <= x < c + NEXT_AT
        || c + HEADER + h.size[c] <= x < Succ(h.size, c)
        || (c in h.free && c + NEXT_AT <= x < c + HEADER))
  }

  /** No byte has two owners: payloads are disjoint from each other and from all
      that the heap keeps for itself. */
  lemma Separated(h: Heap, c: int, d: int, x: int)
    requires Inv(h) && InPayload(h, c, x)
    ensures InPayload(h, d, x) ==> d == c
    ensures !InTags(h, d, x)
  {
    hide Binned, Tiled;
    if d in h.size && d != c {
      TiledApart(h.start, h.end, h.size, c, d);
      TiledSizes(h, c);
      TiledSizes(h, d);
    }
  }

  /** Whatever a client stores in its payload, the heap stays what it is. */
  lemma ClientStore(m: Ram, heads: seq<word>, h: Heap, c: int, x: int, v: byte)
    requires Rep(m, heads, h) && InPayload(h, c, x) && 0 <= x < SPACE
    ensures Rep(m[x := v], heads, h)
  {
    hide Load32, SizeWord, Tiled, Binned, Lists, Within, Record, Kept, Flagged, SameOutside;
    var m' := m[x := v];
    RepHoles(m, heads, h);
    TiledSizes(h, c);
    RepRecord(m, heads, h, c);
    StoreFlag(m, heads, h, c);
    OneByte(m, x, v, c, Succ(h.size, c));
    BytesWithin(m, m', {}, c, Succ(h.size, c), c, Succ(h.size, c));
    OneByte(m, x, v, x, x + 1);
    assert Same(m, m', c, c + NEXT_AT) && Same(m, m', c + HEADER + h.size[c], Succ(h.size, c)) by {
      SameParts(m, m', x, c, Succ(h.size, c), h.size[c]);
    }
    RecordQuiet(m, m', c, h.size[c]);
    ClientLists(m, m', heads, h, c);
    forall d | d in h.size
      ensures Kept(h.size, c, h, h, d) || Written(m', h, d)
    {
      if d != c { KeptSame(h, c, d); }
    }
    Rebuild(m, heads, h, m', heads, h, {}, h.size, c);
  }

  lemma OneByte(m: Ram, x: int, v: byte, lo: int, hi: int)
    requires 0 <= x < SPACE && lo <= x < hi
    ensures SameOutside(m, m[x := v], lo, hi)
  {
  }

  lemma SameParts(m: Ram, m': Ram, x: int, c: int, end: int, n: int)
    requires SameOutside(m, m', x, x + 1) && c + NEXT_AT <= x < c + HEADER + n
    ensures Same(m, m', c, c + NEXT_AT) && Same(m, m', c + HEADER + n, end)
  {
  }

  lemma KeptSame(h: Heap, c: int, d: int)
    requires d in h.size && d != c
    ensures Kept(h.size, c, h, h, d)
  {
  }

  lemma StoreFlag(m: Ram, heads: seq<word>, h: Heap, c: int)
    requires Rep(m, heads, h) && c in h.size && c !in h.free && IsHeader(c)
    ensures m[c] == 0
  {
    hide Inv, Lists, Record;
  }

  lemma ClientLists(m: Ram, m': Ram, heads: seq<word>, h: Heap, c: int)
    requires Rep(m, heads, h) && c in h.size && c !in h.free && SameOutside(m, m', c, Succ(h.size, c))
    ensures Lists(m', heads, h.bins, h.free)
  {
    hide Load32, Tiled, Binned, Linked, NoDup, Record;
    RepHoles(m, heads, h);
    BinsInNodes(m, heads, h.bins, h.free);
    forall a | a in h.free
      ensures Same(m, m', a + NEXT_AT, a + HEADER)
    {
      TiledApart(h.start, h.end, h.size, c, a);
      TiledSizes(h, a);
    }
    ListsQuiet(m, m', heads, h.bins, h.free, h.free);
  }

  // ------------------------------------------------------------------ runs

  /** Block `c` is live in both heaps, with the same size. */
  ghost predicate StaysLive(h: Heap, h': Heap, c: int) {
    c in h.size && c !in h.free && c in h'.size && c !in h'.free && h'.size[c] == h.size[c]
  }

  lemma AllocLive(h: Heap, sz: nat, c: int)
    requires Inv(h) && Fits(h, sz) && c in h.size && c !in h.free
    ensures StaysLive(h, Alloc(h, sz), c)
  {
    hide Tiled, Binned, Alloc, Fits, Found;
    var a := Found(h, sz);
    AllocBlocks(h, sz, a, Alloc(h, sz));
    if Splits(h, sz) { SplitTiled(h.start, h.end, h.size, a, sz); }
  }

  lemma AllocALive(h: Heap, w: int, sz: nat, c: int)
    requires Inv(h) && FitsAligned(h, w, sz) && c in h.size && c !in h.free
    ensures StaysLive(h, AllocA(h, w, sz), c)
  {
    hide Tiled, Binned, AllocA, FitsAligned;
    var n := Extra(w) - OVERHEAD - OFFSET;
    var wild := w + OVERHEAD + n + OVERHEAD + sz;
    AllocAShape(h, w, sz, n, w + OVERHEAD + n, wild, h.free + {wild}, AllocA(h, w, sz));
    assert Kept(h.size, w, h, AllocA(h, w, sz), c);
  }

  lemma FreeLive(h: Heap, a: int, c: int)
    requires Inv(h) && a in h.size && a !in h.free && c in h.size && c !in h.free && c != a
    ensures StaysLive(h, Free(h, a), c)
  {
    if a == h.start {
      FreeFirstLive(h, c);
    } else {
      FreeInnerLive(h, a, c);
    }
  }

  lemma FreeFirstLive(h: Heap, c: int)
    requires Inv(h) && h.start in h.size && h.start !in h.free && c in h.size && c !in h.free && c != h.start
    ensures StaysLive(h, Free(h, h.start), c)
  {
    hide Inv, BinAdd;
  }

  lemma FreeInnerLive(h: Heap, a: int, c: int)
    requires Inv(h) && a in h.size && a !in h.free && a != h.start && c in h.size && c !in h.free && c != a
    ensures StaysLive(h, Free(h, a), c)
  {
    hide Tiled, Binned, Free, FreeSize1;
    var p, n := Pred(h.start, h.end, h.size, a), Succ(h.size, a);
    var b := if p in h.free then p else a;
    FreeLayout(h, a, p, n, b, FreeSize1(h, p), Free(h, a));
    FreeKept(h, a, p, n, b, FreeSize1(h, p), Free(h, a));
  }

  /** Only its own free ends a block's life. */
  lemma StepKeepsLive(h: Heap, op: Op, c: int)
    requires Inv(h) && Enabled(h, op) && c in h.size && c !in h.free && op != FreeOp(c + OFFSET)
    ensures StaysLive(h, Step(h, op), c)
  {
    hide Inv, Alloc, AllocA, Free, Fits, FitsAligned, StaysLive;
    match op {
      case AllocOp(sz) => AllocLive(h, sz, c);
      case AllocAOp(sz) => AllocALive(h, Wilderness(h), sz, c);
      case FreeOp(p) => FreeLive(h, p - OFFSET, c);
    }
  }

  /** The page-aligned addresses a run hands out, in order. */
  ghost function PagesOf(h: Heap, ops: seq<Op>): seq<int>
    requires Inv(h) && Legal(h, ops)
    decreases |ops|
  {
    if ops == [] then []
    else (if ops[0].AllocAOp? then [Wilderness(h) + Extra(Wilderness(h))] else []) + PagesOf(Step(h, ops[0]), ops[1..])
  }

  /** An aligned block begins where no block began, on a page boundary behind it. */
  lemma AlignedFresh(h: Heap, sz: nat)
    requires Inv(h) && Enabled(h, AllocAOp(sz))
    ensures var p := Wilderness(h) + Extra(Wilderness(h)); var h' := Step(h, AllocAOp(sz));
      && p % PG_SZ == 0 && h.start < p < h.end
      && p - OFFSET !in h.size && p - OFFSET in h'.size && p - OFFSET !in h'.free && At(h'.size, p - OFFSET) == sz
  {
    hide Tiled, Binned, AllocA, Wilderness;
    var w := Wilderness(h);
    var n := Extra(w) - OVERHEAD - OFFSET;
    var wild := w + OVERHEAD + n + OVERHEAD + sz;
    TiledSizes(h, w);
    AllocAShape(h, w, sz, n, w + OVERHEAD + n, wild, h.free + {wild}, AllocA(h, w, sz));
    CarveTiled(h.start, h.end, h.size, w, n, sz);
    BinnedFree(h);
    PageAbove(w);
  }

  lemma PageAbove(w: int)
    ensures (w + Extra(w)) % PG_SZ == 0
  {
    assert w + Extra(w) == PG_SZ * (w / PG_SZ + 1);
  }

  /** The address of a live block is not handed out while the block lives. */
  lemma {:induction false} LiveNotHandedOut(h: Heap, ops: seq<Op>, c: int)
    requires Inv(h) && Legal(h, ops) && c in h.size && c !in h.free && FreeOp(c + OFFSET) !in ops
    ensures c + OFFSET !in PagesOf(h, ops)
    decreases |ops|
  {
    hide Inv, Step, Enabled, StaysLive;
    if ops != [] {
      assert ops[0] in ops && Enabled(h, ops[0]);
      StepKeepsLive(h, ops[0], c);
      LiveStays(h, Step(h, ops[0]), c);
      LiveNotHandedOut(Step(h, ops[0]), ops[1..], c);
      if ops[0].AllocAOp? { AlignedFresh(h, ops[0].sz); }
    }
  }

  lemma LiveStays(h: Heap, h': Heap, c: int)
    requires StaysLive(h, h', c)
    ensures c in h'.size && c !in h'.free
  {
  }

  /** A run that frees none of its aligned blocks hands out distinct pages of the
      heap; whatever else it allocates and frees in between. */
  lemma {:induction false} PagesDistinct(h: Heap, ops: seq<Op>)
    requires Inv(h) && Legal(h, ops)
    requires forall p :: p in PagesOf(h, ops) ==> FreeOp(p) !in ops
    ensures forall i :: 0 <= i < |PagesOf(h, ops)| ==>
      PagesOf(h, ops)[i] % PG_SZ == 0 && h.start < PagesOf(h, ops)[i] < h.end
    ensures forall i, j :: 0 <= i < j < |PagesOf(h, ops)| ==> PagesOf(h, ops)[i] != PagesOf(h, ops)[j]
    decreases |ops|
  {
    hide Inv, Step, Enabled;
    if ops != [] {
      assert Enabled(h, ops[0]);
      var h', rest := Step(h, ops[0]), PagesOf(Step(h, ops[0]), ops[1..]);
      assert forall p :: p in rest ==> p in PagesOf(h, ops);
      PagesDistinct(h', ops[1..]);
      if ops[0].AllocAOp? {
        var p := Wilderness(h) + Extra(Wilderness(h));
        assert PagesOf(h, ops) == [p] + rest && p in PagesOf(h, ops);
        AlignedFresh(h, ops[0].sz);
        LiveNotHandedOut(h', ops[1..], p - OFFSET);
        assert forall i :: 0 <= i < |rest| ==> rest[i] in rest;
      }
    }
  }

  /** The block an allocation hands out. */
  ghost function NewBlock(h: Heap, op: Op): int
    requires Inv(h) && Enabled(h, op) && !op.FreeOp?
  {
    match op
    case AllocOp(sz) => Found(h, sz)
    case AllocAOp(sz) => Wilderness(h) + Extra(Wilderness(h)) - OFFSET
  }

  ghost predicate ZeroBlock(m: Ram, h: Heap, b: int) {
    b in h.size && PayloadZero(m, h.size, b)
  }

  function Operand(op: Op): int {
    match op
    case AllocOp(sz) => sz
    case AllocAOp(sz) => sz
    case FreeOp(p) => p
  }

  /** What a caller may ask for fits a machine word. */
  lemma EnabledIsWord(h: Heap, op: Op)
    requires Inv(h) && Enabled(h, op)
    ensures 0 <= Operand(op) < SPACE
  {
    hide Tiled, Binned;
    BinnedFree(h);
    match op {
      case AllocOp(sz) =>
        var a :| a in h.free && sz <= h.size[a];
        TiledSizes(h, a);
      case AllocAOp(sz) =>
        TiledSizes(h, Wilderness(h));
      case FreeOp(p) =>
        TiledSizes(h, p - OFFSET);
    }
  }

  lemma RepInv(m: Ram, heads: seq<word>, h: Heap)
    requires Rep(m, heads, h)
    ensures Inv(h)
  {
  }

  /** A block that a run does not free stays live with its size and every byte. */
  ghost predicate Survives(m: Ram, m': Ram, h: Heap, h': Heap, ops: seq<Op>) {
    forall c :: c in h.size && c !in h.free && FreeOp(c + OFFSET) !in ops ==>
      StaysLive(h, h', c) && Same(m, m', c, Succ(h.size, c))
  }

  /** One call on real memory is one step of the specification. */
  method Call(k: KernelHeap, op: Op)
    requires k.Valid() && Enabled(k.heap, op)
    modifies k
    ensures k.Valid() && k.heap == Step(old(k.heap), op)
    ensures Survives(old(k.ram), k.ram, old(k.heap), k.heap, [op])
    ensures !op.FreeOp? ==> ZeroBlock(k.ram, k.heap, NewBlock(old(k.heap), op))
  {
    hide Rep, Inv, Alloc, AllocA, Free, Found, FitsAligned, StaysLive, Same, PayloadZero;
    ghost var h, m := k.heap, k.ram;
    RepInv(m, k.heads, h);
    EnabledIsWord(h, op);
    match op {
      case AllocOp(sz) =>
        var p := k.Allocate(sz);
      case AllocAOp(sz) =>
        var p := k.AllocateAligned(sz);
      case FreeOp(p) =>
        k.Release(p);
    }
    forall c | c in h.size && c !in h.free && FreeOp(c + OFFSET) !in [op]
      ensures StaysLive(h, k.heap, c) && Same(m, k.ram, c, Succ(h.size, c))
    {
      assert op in [op];
      StepKeepsLive(h, op, c);
    }
  }

  /** Any legal sequence of calls on real memory is the run of the specification,
      and what it does not free survives byte for byte. */
  method Serve(k: KernelHeap, ops: seq<Op>)
    requires k.Valid() && Legal(k.heap, ops)
    modifies k
    ensures k.Valid() && k.heap == Run(old(k.heap), ops)
    ensures Survives(old(k.ram), k.ram, old(k.heap), k.heap, ops)
    decreases |ops|
  {
    hide Rep, Inv, Step, Enabled;
    ghost var h, m := k.heap, k.ram;
    RepInv(m, k.heads, h);
    if ops != [] {
      Call(k, ops[0]);
      ghost var h1, m1 := k.heap, k.ram;
      Serve(k, ops[1..]);
      SurvivesTrans(m, m1, k.ram, h, h1, k.heap, ops);
    }
  }

  lemma SurvivesTrans(m: Ram, m1: Ram, m2: Ram, h: Heap, h1: Heap, h2: Heap, ops: seq<Op>)
    requires ops != [] && Survives(m, m1, h, h1, [ops[0]]) && Survives(m1, m2, h1, h2, ops[1..])
    ensures Survives(m, m2, h, h2, ops)
  {
    forall c | c in h.size && c !in h.free && FreeOp(c + OFFSET) !in ops
      ensures StaysLive(h, h2, c) && Same(m, m2, c, Succ(h.size, c))
    {
      assert FreeOp(c + OFFSET) !in [ops[0]] && FreeOp(c + OFFSET) !in ops[1..];
      assert StaysLive(h, h1, c);
    }
  }

  // ------------------------------------------------- runs with client stores

  /** What kernel code does with the heap: a call, or a byte stored in a live payload. */
  datatype Act = CallAct(op: Op) | StoreAct(x: word, v: byte)

  ghost predicate ActOk(h: Heap, act: Act)
    requires Inv(h)
  {
    match act
    case CallAct(op) => Enabled(h, op)
    case StoreAct(x, v) => exists c :: InPayload(h, c, x)
  }

  ghost function ActStep(h: Heap, act: Act): (h': Heap)
    requires Inv(h) && ActOk(h, act)
    ensures Inv(h')
  {
    if act.CallAct? then Step(h, act.op) else h
  }

  ghost predicate ActsOk(h: Heap, acts: seq<Act>)
    requires Inv(h)
    decreases |acts|
  {
    acts == [] || (ActOk(h, acts[0]) && ActsOk(ActStep(h, acts[0]), acts[1..]))
  }

  ghost function ActsRun(h: Heap, acts: seq<Act>): (h': Heap)
    requires Inv(h) && ActsOk(h, acts)
    ensures Inv(h')
    decreases |acts|
  {
    if acts == [] then h else ActsRun(ActStep(h, acts[0]), acts[1..])
  }

  ghost function Zeroed(m: Ram, lo: int, hi: int): Ram {
    seq(SPACE, x requires 0 <= x < SPACE => if lo <= x < hi then 0 else m[x])
  }

  /** Memory as clients see it, in which no heap lives: an allocation clears its payload,
      a free does nothing, a store stores. */
  ghost function ClientView(m: Ram, h: Heap, act: Act): Ram
    requires Inv(h) && ActOk(h, act)
  {
    match act
    case StoreAct(x, v) => m[x := v]
    case CallAct(op) =>
      if op.FreeOp? || NewBlock(h, op) !in Step(h, op).size then m
      else var b := NewBlock(h, op); Zeroed(m, b + NEXT_AT, b + HEADER + Step(h, op).size[b])
  }

  ghost function ClientRun(m: Ram, h: Heap, acts: seq<Act>): Ram
    requires Inv(h) && ActsOk(h, acts)
    decreases |acts|
  {
    if acts == [] then m else ClientRun(ClientView(m, h, acts[0]), ActStep(h, acts[0]), acts[1..])
  }

  /** The memories agree on every live payload. */
  ghost predicate Agree(m: Ram, m': Ram, h: Heap) {
    forall c, x :: InPayload(h, c, x) && 0 <= x < SPACE ==> m[x] == m'[x]
  }

  /** Live after a step is only what was live before and was not freed, and the block just
      handed out. */
  lemma StepLive(h: Heap, op: Op, c: int)
    requires Inv(h) && Enabled(h, op) && c in Step(h, op).size && c !in Step(h, op).free
    ensures (c in h.size && c !in h.free && op != FreeOp(c + OFFSET)) || (!op.FreeOp? && c == NewBlock(h, op))
  {
    hide Tiled, Binned, Alloc, AllocA, Free, Found, FitsAligned, Fits;
    match op {
      case AllocOp(sz) =>
        AllocBlocks(h, sz, Found(h, sz), Alloc(h, sz));
        if Splits(h, sz) { SplitTiled(h.start, h.end, h.size, Found(h, sz), sz); }
      case AllocAOp(sz) =>
        AllocALiveOnly(h, Wilderness(h), sz, c);
      case FreeOp(p) =>
        if p - OFFSET == h.start { FirstFreed(h, c); } else { InnerFreed(h, p - OFFSET, c); }
    }
  }

  lemma AllocALiveOnly(h: Heap, w: int, sz: nat, c: int)
    requires Inv(h) && FitsAligned(h, w, sz) && c in AllocA(h, w, sz).size && c !in AllocA(h, w, sz).free
    ensures (c in h.size && c !in h.free) || c == w + Extra(w) - OFFSET
  {
    hide Tiled, Binned, BinAdd, BinRemove, Split;
    var n := Extra(w) - OVERHEAD - OFFSET;
    TiledSizes(h, w);
    CarveTiled(h.start, h.end, h.size, w, n, sz);
  }

  lemma FirstFreed(h: Heap, c: int)
    requires Inv(h) && h.start in h.size && h.start !in h.free
    requires c in Free(h, h.start).size && c !in Free(h, h.start).free
    ensures c in h.size && c !in h.free && c != h.start
  {
    hide Inv, BinAdd;
  }

  lemma InnerFreed(h: Heap, a: int, c: int)
    requires Inv(h) && a in h.size && a !in h.free && a != h.start && c in Free(h, a).size && c !in Free(h, a).free
    ensures c in h.size && c !in h.free && c != a
  {
    hide Tiled, Binned, Free;
    var p, n := Pred(h.start, h.end, h.size, a), Succ(h.size, a);
    var b := if p in h.free then p else a;
    FreeSizes(h, a, p, n, b, Free(h, a));
  }

  /** A call keeps memory and the clients' view in agreement. */
  lemma CallAgrees(m: Ram, m': Ram, view: Ram, h: Heap, op: Op)
    requires Inv(h) && Enabled(h, op) && Agree(m, view, h)
    requires Survives(m, m', h, Step(h, op), [op])
    requires !op.FreeOp? ==> ZeroBlock(m', Step(h, op), NewBlock(h, op))
    ensures Agree(m', ClientView(view, h, CallAct(op)), Step(h, op))
  {
    hide Inv, Step, Enabled, NewBlock;
    var h' := Step(h, op);
    forall c, x | InPayload(h', c, x) && 0 <= x < SPACE
      ensures m'[x] == ClientView(view, h, CallAct(op))[x]
    {
      StepLive(h, op, c);
      if !op.FreeOp? && c == NewBlock(h, op) {
        assert m'[x] == 0;
      } else {
        StepKeepsLive(h, op, c);
        assert FreeOp(c + OFFSET) !in [op];
        assert InPayload(h, c, x);
        assert m'[x] == m[x];
        if !op.FreeOp? { OthersPayload(h', c, NewBlock(h, op), x); }
      }
    }
  }

  lemma OthersPayload(h: Heap, c: int, b: int, x: int)
    requires Inv(h) && InPayload(h, c, x) && b in h.size && c != b
    ensures !(b + NEXT_AT <= x < b + HEADER + h.size[b])
  {
    hide Tiled, Binned;
    TiledApart(h.start, h.end, h.size, c, b);
    TiledSizes(h, c);
    TiledSizes(h, b);
  }

  lemma StoreAgrees(m: Ram, view: Ram, h: Heap, x: word, v: byte)
    requires Agree(m, view, h)
    ensures Agree(m[x := v], view[x := v], h)
  {
  }

  /** Calls and stores in any order: the heap is that of the specification, and every live
      payload holds what its clients last stored, or zeros where they stored nothing since
      it was handed out, as if the heap kept none of its data in memory. */
  method Interleave(k: KernelHeap, acts: seq<Act>, ghost view: Ram)
    requires k.Valid() && ActsOk(k.heap, acts) && Agree(k.ram, view, k.heap)
    modifies k
    ensures k.Valid() && k.heap == ActsRun(old(k.heap), acts)
    ensures Agree(k.ram, ClientRun(view, old(k.heap), acts), k.heap)
    decreases |acts|
  {
    hide Rep, Inv, Step, Enabled, InPayload, Agree, ClientView, Survives, NewBlock;
    ghost var h, m := k.heap, k.ram;
    RepInv(m, k.heads, h);
    if acts != [] {
      match acts[0] {
        case CallAct(op) =>
          Call(k, op);
          CallAgrees(m, k.ram, view, h, op);
        case StoreAct(x, v) =>
          ghost var c :| InPayload(h, c, x);
          ClientStore(m, k.heads, h, c, x, v);
          StoreAgrees(m, view, h, x, v);
          ViewOfStore(view, h, x, v);
          k.ram := k.ram[x := v];
      }
      Interleave(k, acts[1..], ClientView(view, h, acts[0]));
    }
  }

  lemma ViewOfStore(m: Ram, h: Heap, x: word, v: byte)
    requires Inv(h) && ActOk(h, StoreAct(x, v))
    ensures ClientView(m, h, StoreAct(x, v)) == m[x := v]
  {
  }
}
