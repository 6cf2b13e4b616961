/** The kernel heap over real memory. */
module KHeap {
  import opened Memory
  import opened BinIndex
  import opened HeapSpec
  import opened HeapInvariant
  import opened BinLists
  import opened HeapMemory
  import opened HeapSteps
  import opened HeapRuns

  class KernelHeap {
    var ram: Ram
    var heads: seq<word>      // the heads of the nine bins
    const start: word
    const end: word
    ghost var heap: Heap      // the blocks, holes and bins that the memory represents

    constructor (ram: Ram, start: word, end: word)
      ensures this.ram == ram && this.start == start && this.end == end && heads == seq(BIN_CNT, _ => 0)
    {
      this.ram := ram;
      this.start := start;
      this.end := end;
      heads := seq(BIN_CNT, _ => 0);
      heap := Heap(start, end, map[], {}, []);
    }

    // -------------------------------------------------------------- fields

    method SetNext(a: word, v: word, ghost nodes: set<int>)
      requires Apart(nodes) && a in nodes
      modifies this`ram
      ensures forall c {:trigger NextLink(ram, c)} :: c in nodes ==>
        NextLink(ram, c) == if c == a then v else NextLink(old(ram), c)
      ensures forall c {:trigger PrevLink(ram, c)} :: c in nodes ==> PrevLink(ram, c) == PrevLink(old(ram), c)
      ensures forall c {:trigger SizeWord(ram, c)} :: c in nodes ==> SizeWord(ram, c) == SizeWord(old(ram), c)
      ensures LinksOnly(old(ram), ram, nodes)
    {
      hide Load32, Store32, NextLink, PrevLink, SizeWord, LinksOnly;
      ghost var m := ram;
      ram := Store32(ram, a + NEXT_AT, v);
      StoreNext(m, a, v, nodes, ram);
    }

    method SetPrev(a: word, v: word, ghost nodes: set<int>)
      requires Apart(nodes) && a in nodes
      modifies this`ram
      ensures forall c {:trigger PrevLink(ram, c)} :: c in nodes ==>
        PrevLink(ram, c) == if c == a then v else PrevLink(old(ram), c)
      ensures forall c {:trigger NextLink(ram, c)} :: c in nodes ==> NextLink(ram, c) == NextLink(old(ram), c)
      ensures forall c {:trigger SizeWord(ram, c)} :: c in nodes ==> SizeWord(ram, c) == SizeWord(old(ram), c)
      ensures LinksOnly(old(ram), ram, nodes)
    {
      hide Load32, Store32, NextLink, PrevLink, SizeWord, LinksOnly;
      ghost var m := ram;
      ram := Store32(ram, a + PREV_AT, v);
      StorePrev(m, a, v, nodes, ram);
    }

    // ---------------------------------------------------------------- bins

    /** Enters block `b` behind the last block of bin k that is not larger. */
    method AddBlockSorted(k: nat, b: word, ghost bins: Bins, ghost nodes: set<int>, ghost size: Sizes)
      requires k < BIN_CNT && Apart(nodes) && b in nodes
      requires Lists(ram, heads, bins, nodes) && Sized(ram, nodes, size)
      requires forall i :: 0 <= i < BIN_CNT ==> b !in bins[i]
      modifies this`ram, this`heads
      ensures Lists(ram, heads, bins[k := Insert(bins[k], b, size)], nodes)
      ensures k == BinOf(At(size, b)) ==> Lists(ram, heads, BinAdd(bins, b, size), nodes)
      ensures Sized(ram, nodes, size)
      ensures LinksOnly(old(ram), ram, nodes)
    {
      hide NextLink, PrevLink, SizeWord, NoDup, At, FitPos, Linked, BinOf;
      ghost var l := bins[k];
      ghost var m := ram;
      SetNext(b, 0, nodes);
      SetPrev(b, 0, nodes);
      ListsUpdate(m, ram, heads, bins, nodes, k, heads[k], l, b) by { LinkedSame(m, ram, heads[k], l); }
      assert heads[k := heads[k]] == heads && bins[k := bins[k]] == bins;

      if heads[k] == 0 {
        LinkFirst(k, b, bins, nodes, size);
        return;
      }

      assert l != [] by { LinkedHead(ram, heads[k], l); }
      ListNodes(ram, heads, bins, nodes, k);
      var prev, temp, p := FindPlace(k, b, l, nodes, size);
      ghost var m1, heads1 := ram, heads;
      LinkBetween(k, prev, temp, b, p, l, nodes);
      InsertNoDup(l, b, size);
      ListsUpdate(m1, ram, heads1, bins, nodes, k, heads[k], Insert(l, b, size), b);
    }

    /** The first block of bin k that is larger than `b`, and the one before it. */
    method FindPlace(k: nat, b: word, ghost l: seq<int>, ghost nodes: set<int>, ghost size: Sizes)
      returns (prev: word, temp: word, ghost p: nat)
      requires k < BIN_CNT == |heads| && Apart(nodes) && b in nodes
      requires Linked(ram, heads[k], l) && Sized(ram, nodes, size) && forall j :: 0 <= j < |l| ==> l[j] in nodes
      ensures p <= |l| && p == FitPos(l, At(size, b) + 1, size)
      ensures temp == if p < |l| then l[p] else 0
      ensures prev == if 0 < p then l[p - 1] else 0
    {
      hide NextLink, PrevLink, SizeWord, At, FitPos, Linked, Sized;
      temp := heads[k];
      prev := 0;
      p := 0;
      LinkedHead(ram, heads[k], l);
      NodeSize(ram, nodes, size, b);
      if temp != 0 { NodeSize(ram, nodes, size, temp); }
      while temp != 0 && SizeWord(ram, temp) <= SizeWord(ram, b)
        invariant p <= |l|
        invariant temp == if p < |l| then l[p] else 0
        invariant prev == if 0 < p then l[p - 1] else 0
        invariant forall j :: 0 <= j < p ==> At(size, l[j]) <= At(size, b)
        invariant temp != 0 <==> p < |l|
        invariant temp != 0 ==> temp in nodes && SizeWord(ram, temp) == At(size, temp)
        decreases |l| - p
      {
        LinkedNext(ram, heads[k], l, p);
        prev := temp;
        temp := NextLink(ram, temp);
        p := p + 1;
        if p < |l| { NodeSize(ram, nodes, size, temp); }
      }
    }

    /** An empty bin gets its first block, whose links are clear. */
    method LinkFirst(k: nat, b: word, ghost bins: Bins, ghost nodes: set<int>, ghost size: Sizes)
      requires k < BIN_CNT && Apart(nodes) && b in nodes
      requires Lists(ram, heads, bins, nodes) && heads[k] == 0
      requires forall i :: 0 <= i < BIN_CNT ==> b !in bins[i]
      requires NextLink(ram, b) == 0
      modifies this`heads
      ensures Lists(ram, heads, bins[k := Insert(bins[k], b, size)], nodes)
    {
      hide NextLink, PrevLink;
      ghost var l := bins[k];
      ghost var heads0 := heads;
      assert l == [];
      heads := heads[k := b];
      assert Insert(l, b, size) == [b];
      ListsUpdate(ram, ram, heads0, bins, nodes, k, b, [b], b);
    }

    /** Block `b`, whose links are clear, goes between `prev` and `temp`, which are
        neighbours in bin k; 0 stands for the missing neighbour at either end. */
    method LinkBetween(k: nat, prev: word, temp: word, b: word, ghost p: nat, ghost l: seq<int>, ghost nodes: set<int>)
      requires k < BIN_CNT == |heads| && Apart(nodes) && b in nodes
      requires Linked(ram, heads[k], l) && l != [] && p <= |l|
      requires forall j :: 0 <= j < |l| ==> l[j] in nodes && l[j] != b
      requires NoDup(l)
      requires NextLink(ram, b) == 0
      requires temp == if p < |l| then l[p] else 0
      requires prev == if 0 < p then l[p - 1] else 0
      modifies this`ram, this`heads
      ensures heads == old(heads)[k := if p == 0 then b else old(heads)[k]]
      ensures Linked(ram, heads[k], l[..p] + [b] + l[p..])
      ensures forall c :: c in nodes && c !in l && c != b ==>
        NextLink(ram, c) == NextLink(old(ram), c) && PrevLink(ram, c) == PrevLink(old(ram), c)
      ensures forall c {:trigger SizeWord(ram, c)} :: c in nodes ==> SizeWord(ram, c) == SizeWord(old(ram), c)
      ensures LinksOnly(old(ram), ram, nodes)
    {
      hide NextLink, PrevLink, SizeWord, Linked, NoDup;
      ghost var m := ram;
      ghost var head := heads[k];
      assert head == l[0] by { LinkedHead(m, head, l); }
      assert forall c :: c in l ==> c in nodes && c != b;
      if temp == 0 {
        SetNext(prev, b, nodes);
        SetPrev(b, prev, nodes);
      } else if prev != 0 {
        SetNext(b, temp, nodes);
        SetNext(prev, b, nodes);
        SetPrev(b, prev, nodes);
        SetPrev(temp, b, nodes);
      } else {
        SetNext(b, heads[k], nodes);
        SetPrev(heads[k], b, nodes);
        heads := heads[k := b];
      }
      LinkedInsert(m, ram, head, l, b, p);
    }

    /** Takes block `a` out of bin k; a block that is not there is left alone. */
    method RemoveBlock(k: nat, a: word, ghost bins: Bins, ghost nodes: set<int>)
      requires k < BIN_CNT && Apart(nodes) && a in nodes
      requires Lists(ram, heads, bins, nodes)
      modifies this`ram, this`heads
      ensures k < |bins| && Lists(ram, heads, BinRemove(bins, k, a), nodes)
      ensures forall c {:trigger SizeWord(ram, c)} :: c in nodes ==> SizeWord(ram, c) == SizeWord(old(ram), c)
      ensures LinksOnly(old(ram), ram, nodes)
    {
      hide NextLink, PrevLink, SizeWord, NoDup;
      ghost var l := bins[k];
      assert forall j :: 0 <= j < |l| ==> l[j] in l;
      if heads[k] == 0 {
        assert BinRemove(bins, k, a) == bins;
        return;
      }
      if heads[k] == a {
        assert l[0] == a;
        UnlinkFirst(k, a, bins, nodes);
        return;
      }
      var temp: word := NextLink(ram, heads[k]);
      ghost var p: nat := 1;
      while temp != 0
        invariant 1 <= p <= |l|
        invariant temp == if p < |l| then l[p] else 0
        invariant forall j :: 0 <= j < p ==> l[j] != a
        decreases |l| - p
      {
        if temp == a {
          assert p == IndexOf(l, a);
          UnlinkInner(k, a, p, bins, nodes);
          return;
        }
        assert IsHeader(l[p]);
        temp := NextLink(ram, temp);
        p := p + 1;
      }
      assert a !in l;
      assert BinRemove(bins, k, a) == bins;
    }

    /** The head of bin k leaves; the new head keeps a stale prev link. */
    method UnlinkFirst(k: nat, a: word, ghost bins: Bins, ghost nodes: set<int>)
      requires k < BIN_CNT && Apart(nodes) && a in nodes
      requires Lists(ram, heads, bins, nodes) && bins[k] != [] && bins[k][0] == a
      modifies this`ram, this`heads
      ensures Lists(ram, heads, bins[k := Remove(bins[k], a)], nodes)
      ensures forall c {:trigger SizeWord(ram, c)} :: c in nodes ==> SizeWord(ram, c) == SizeWord(old(ram), c)
      ensures LinksOnly(old(ram), ram, nodes)
    {
      hide NextLink, PrevLink, SizeWord, At;
      ghost var l := bins[k];
      ghost var m, heads0 := ram, heads;
      assert forall c :: c in l ==> c in nodes;
      heads := heads[k := NextLink(ram, heads[k])];
      SetNext(a, 0, nodes);
      SetPrev(a, 0, nodes);
      LinkedRemove(m, ram, heads0[k], l, 0);
      assert l[..0] + l[1..] == Remove(l, a);
      RemoveKeeps(l, a, map[]);
      ListsUpdate(m, ram, heads0, bins, nodes, k, heads[k], Remove(l, a), a);
    }

    /** A later block leaves: its neighbours are linked to each other. */
    method UnlinkInner(k: nat, a: word, ghost p: nat, ghost bins: Bins, ghost nodes: set<int>)
      requires k < BIN_CNT && Apart(nodes) && a in nodes
      requires Lists(ram, heads, bins, nodes) && 0 < p < |bins[k]| && bins[k][p] == a && p == IndexOf(bins[k], a)
      modifies this`ram
      ensures Lists(ram, heads, bins[k := Remove(bins[k], a)], nodes)
      ensures forall c {:trigger SizeWord(ram, c)} :: c in nodes ==> SizeWord(ram, c) == SizeWord(old(ram), c)
      ensures LinksOnly(old(ram), ram, nodes)
    {
      hide NextLink, PrevLink, SizeWord, At, NoDup, SortedBy;
      ghost var l := bins[k];
      ghost var m := ram;
      assert forall j :: 0 <= j < |l| ==> l[j] in l && l[j] in nodes;
      assert forall c :: c in l ==> c in nodes;
      if NextLink(ram, a) == 0 {
        SetNext(PrevLink(ram, a), 0, nodes);
      } else {
        SetNext(PrevLink(ram, a), NextLink(ram, a), nodes);
        SetPrev(NextLink(ram, a), PrevLink(ram, a), nodes);
      }
      SetNext(a, 0, nodes);
      SetPrev(a, 0, nodes);
      LinkedRemove(m, ram, heads[k], l, p);
      RemoveKeeps(l, a, map[]);
      ListsUpdate(m, ram, heads, bins, nodes, k, heads[k], Remove(l, a), a);
      assert heads[k := heads[k]] == heads;
    }

    /** The first block of bin k with at least `sz` bytes, or 0. */
    method GetFirstFit(k: nat, sz: word, ghost bins: Bins, ghost nodes: set<int>, ghost size: Sizes)
      returns (found: word)
      requires k < BIN_CNT && Apart(nodes)
      requires Lists(ram, heads, bins, nodes) && Sized(ram, nodes, size)
      ensures var p := FitPos(bins[k], sz, size); found == if p < |bins[k]| then bins[k][p] else 0
      ensures found != 0 <==> FitPos(bins[k], sz, size) < |bins[k]|
    {
      hide NextLink, PrevLink, SizeWord, NoDup, At;
      ghost var l := bins[k];
      assert forall j :: 0 <= j < |l| ==> l[j] in l && l[j] in nodes;
      if heads[k] == 0 { return 0; }
      var temp: word := heads[k];
      ghost var p: nat := 0;
      while temp != 0
        invariant p <= |l|
        invariant temp == if p < |l| then l[p] else 0
        invariant forall j :: 0 <= j < p ==> At(size, l[j]) < sz
        decreases |l| - p
      {
        assert IsHeader(l[p]);
        if SizeWord(ram, temp) >= sz {
          assert p == FitPos(l, sz, size);
          return temp;
        }
        temp := NextLink(ram, temp);
        p := p + 1;
      }
      assert p == FitPos(l, sz, size);
      return 0;
    }

    // -------------------------------------------------------------- blocks

    ghost predicate Valid()
      reads this
    {
      heap.start == start && heap.end == end && Rep(ram, heads, heap)
    }

    method SetSize(a: word, v: word)
      requires IsHeader(a)
      modifies this`ram
      ensures SizeWord(ram, a) == v
      ensures SameOutside(old(ram), ram, a + SIZE_AT, a + NEXT_AT)
    {
      hide Load32, Store32;
      StoreLoad(ram, a + SIZE_AT, v);
      ram := Store32(ram, a + SIZE_AT, v);
    }

    method SetHole(a: word, v: byte)
      requires IsHeader(a)
      modifies this`ram
      ensures ram[a] == v
      ensures SameOutside(old(ram), ram, a, a + 1)
    {
      ram := ram[a := v];
    }

    /** The footer's place follows from the size in the header. */
    method GetFoot(a: word) returns (f: word)
      requires IsHeader(a) && a + SizeWord(ram, a) + OVERHEAD <= SPACE
      ensures f == a + HEADER + SizeWord(ram, a)
    {
      f := a + HEADER + SizeWord(ram, a);
    }

    method CreateFoot(a: word)
      requires IsHeader(a) && a + SizeWord(ram, a) + OVERHEAD <= SPACE
      modifies this`ram
      ensures Load32(ram, a + HEADER + SizeWord(old(ram), a)) == a
      ensures SizeWord(ram, a) == SizeWord(old(ram), a)
      ensures SameOutside(old(ram), ram, a + HEADER + SizeWord(old(ram), a), a + OVERHEAD + SizeWord(old(ram), a))
    {
      hide Load32, Store32;
      var f := GetFoot(a);
      ghost var m := ram;
      StoreLoad(ram, f, a);
      ram := Store32(ram, f, a);
      LoadSame(m, ram, a + SIZE_AT);
    }

    /** Sets the size of block `a` and writes its footer. */
    method Resize(a: word, v: word)
      requires IsHeader(a) && a + v + OVERHEAD <= SPACE
      modifies this`ram
      ensures Record(ram, a, v)
      ensures RecordOnly(old(ram), ram, a, v)
    {
      hide Load32, SizeWord;
      SetSize(a, v);
      CreateFoot(a);
    }

    method Memset(a: word, n: word)
      requires a + n <= SPACE
      modifies this`ram
      ensures forall x :: a <= x < a + n ==> ram[x] == 0
      ensures SameOutside(old(ram), ram, a, a + n)
    {
      var i: word := 0;
      while i < n
        invariant i <= n
        invariant forall x :: a <= x < a + i ==> ram[x] == 0
        invariant SameOutside(old(ram), ram, a, a + i)
      {
        ram := ram[a + i := 0];
        i := i + 1;
      }
    }

    // --------------------------------------------------------- kheap_alloc

    /** Cuts the bytes of hole `a` beyond `sz` off as a new hole and bins it; `a` is
        still in its bin when its size changes. */
    method CutRemainder(a: word, sz: word)
      requires Valid() && a in heap.free && a in heap.size && sz + OVERHEAD <= heap.size[a]
      modifies this`ram, this`heads
      ensures Cut(old(ram), ram, heads, heap, a, sz)
    {
      hide Load32, SizeWord, NextLink, PrevLink, Tiled, Binned, NoDup, SortedBy, Linked, Lists, Flagged;
      ghost var h, m0 := heap, ram;
      ghost var nodes := h.free + {a + OVERHEAD + sz};
      ghost var grown := h.size[a + OVERHEAD + sz := h.size[a] - sz - OVERHEAD];
      assert Record(ram, a, h.size[a]);
      var rest: word := a + OVERHEAD + sz;
      Resize(rest, SizeWord(ram, a) - sz - OVERHEAD);
      ghost var r := ram;
      SetHole(rest, 1);
      RecordQuiet(r, ram, rest, h.size[a] - sz - OVERHEAD);
      ghost var m1 := ram;
      assert SameOutside(m0, m1, a + HEADER, Succ(h.size, a));
      CutOpen(m0, m1, heads, h, a, sz);
      var k := GetBinIndex(SizeWord(ram, rest));
      AddBlockSorted(k, rest, h.bins, nodes, grown);
      ghost var m2 := ram;
      Resize(a, sz);
      CutClose(m0, m1, m2, ram, heads, h, a, sz, rest, nodes, BinAdd(h.bins, rest, grown));
    }

    /** The search over the bins; it needs a hole that fits. */
    method FindHole(sz: word) returns (idx: word, found: word)
      requires Valid() && Fits(heap, sz)
      ensures found == Found(heap, sz) && idx == BinOf(heap.size[found])
    {
      hide Load32, SizeWord, NextLink, PrevLink, Tiled, Binned, NoDup, SortedBy, Linked, Lists, Flagged, FitPos, Record;
      RepHoles(ram, heads, heap);
      FitsInBin(heap, sz);
      BinnedFree(heap);
      idx := GetBinIndex(sz);
      found := GetFirstFit(idx, sz, heap.bins, heap.free, heap.size);
      while found == 0
        invariant BinOf(sz) <= idx < BIN_CNT
        invariant FindBin(heap.size, heap.bins, sz, idx) == FindBin(heap.size, heap.bins, sz, BinOf(sz))
        invariant var p := FitPos(heap.bins[idx], sz, heap.size);
          found == if p < |heap.bins[idx]| then heap.bins[idx][p] else 0
        invariant found != 0 <==> FitPos(heap.bins[idx], sz, heap.size) < |heap.bins[idx]|
        decreases BIN_CNT - idx
      {
        idx := idx + 1;
        found := GetFirstFit(idx, sz, heap.bins, heap.free, heap.size);
      }
    }

    /** Allocates `sz` bytes. There is no failure path: some hole must fit. */
    method Allocate(sz: word) returns (p: word)
      requires Valid() && Fits(heap, sz)
      modifies this`ram, this`heads, this`heap
      ensures Valid()
      ensures heap == Alloc(old(heap), sz) && p == Found(old(heap), sz) + OFFSET
      ensures Allotted(old(heap), sz, p - OFFSET, heap)
      ensures forall b :: b in old(heap).free && b in old(heap).size && sz <= old(heap).size[b] ==>
        p - OFFSET in old(heap).size && old(heap).size[p - OFFSET] <= old(heap).size[b]
      ensures p - OFFSET in heap.size && PayloadZero(ram, heap.size, p - OFFSET)
      ensures LiveSame(old(ram), ram, old(heap))
    {
      hide Load32, SizeWord, NextLink, PrevLink, Tiled, Binned, Linked, Lists, Flagged, Found, Fits, BinAdd, Alloc;
      hide Cut, Within, LinksOnly, SameOutside, Kept;
      hide LiveSame, Inv, BinOf, Sized, Apart, AllocNodes, AllocBinsNow, Allotted;
      ghost var h, m0, heads0 := heap, ram, heads;
      var idx, found := FindHole(sz);
      ghost var nodes := AllocNodes(h, sz);
      AllocShape(h, sz, found, found + OVERHEAD + sz, nodes);
      assert Record(ram, found, h.size[found]);
      if SizeWord(ram, found) - sz > OVERHEAD + MIN_ALLOC_SZ {
        CutRemainder(found, sz);
        CutMeans(m0, ram, heads, h, found, sz);
      } else {
        NotCut(ram, heads, h, found, sz);
      }
      ghost var m1 := ram;
      SetHole(found, 0);
      ghost var m2 := ram;
      FlagKeepsLists(m1, m2, heads, AllocBinsNow(h, sz), nodes, found);
      RecordQuiet(m1, m2, found, Alloc(h, sz).size[found]);
      RemoveBlock(idx, found, AllocBinsNow(h, sz), nodes);
      ghost var m3 := ram;
      Memset(found + NEXT_AT, SizeWord(ram, found) + 8);
      heap := Alloc(h, sz);
      AllocDone(m0, heads0, m1, m2, m3, ram, heads, h, sz, found, heap.size[found], nodes);
      p := found + OFFSET;
      AllocExact(h, sz);
      forall b | b in h.free && b in h.size && sz <= h.size[b]
        ensures h.size[found] <= h.size[b]
      {
        BestFit(h, sz, b);
      }
    }

    // ------------------------------------------------------- kheap_alloc_a

    /** The last footer names the last block. */
    method GetWilderness() returns (w: word)
      requires Valid()
      ensures IsLast(heap, w)
    {
      hide Load32, SizeWord, Lists, Binned, Flagged;
      ghost var g := Wilderness(heap);
      assert Record(ram, g, heap.size[g]);
      w := Load32(ram, end - FOOTER);
    }

    /** The wilderness leaves its bin, keeps `n` bytes and is binned again. */
    method ShrinkWilderness(wild: word, n: word, ghost h': Heap)
      requires Valid() && wild in heap.size && wild in heap.free
      requires n + OVERHEAD <= heap.size[wild] && wild in h'.size && h'.size[wild] == n
      requires Tiled(heap.start, heap.end, h'.size) && Apart(heap.free)
      requires heap.free <= heap.size.Keys && heap.free <= h'.size.Keys
      requires forall c :: c in heap.free && c != wild ==> c in h'.size && h'.size[c] == heap.size[c]
      modifies this`ram, this`heads
      ensures Shrunk(old(ram), ram, heads, heap, wild, n, h'.size)
    {
      hide Load32, SizeWord, NextLink, PrevLink, Tiled, Binned, NoDup, SortedBy, Linked, Lists, Flagged, LinksOnly;
      hide Within, BinRemove;
      ghost var h, m0 := heap, ram;
      ghost var nodes := h.free;
      RepHoles(ram, heads, h);
      BinnedFree(h);
      RemovedGone(h.size, h.free, h.bins, wild);
      assert Record(ram, wild, h.size[wild]);
      SetHole(wild, 1);
      ghost var m1 := ram;
      StoresKeepLists(m0, m1, heads, h.bins, h.start, h.end, h.size, nodes, wild);
      SizeSame(m0, m1, wild);
      var k := GetBinIndex(SizeWord(ram, wild));
      ghost var bins := BinRemove(h.bins, k, wild);
      RemoveBlock(k, wild, h.bins, nodes);
      ghost var m2 := ram;
      Resize(wild, n);
      ghost var r := ram;
      SetHole(wild, 1);
      ghost var m3 := ram;
      RecordQuiet(r, m3, wild, n);
      StoresKeepLists(m2, m3, heads, bins, h.start, h.end, h.size, nodes, wild);
      k := GetBinIndex(SizeWord(ram, wild));
      AddBlockSorted(k, wild, bins, nodes, h'.size);
      ShrunkWithin(m0, m1, m2, m3, ram, nodes, wild, Succ(h.size, wild), n);
      RecordAfter(m3, ram, ram, h.start, h.end, h'.size, nodes, wild, wild, wild);
    }

    /** The live block and the new wilderness are laid out behind the shrunk one. */
    method LayBlocks(ret: word, sz: word, wild: word, n: word)
      requires IsHeader(ret) && wild == ret + OVERHEAD + sz && wild + n + OVERHEAD <= SPACE
      modifies this`ram
      ensures Record(ram, ret, sz) && ram[ret] == 0
      ensures Record(ram, wild, n) && ram[wild] == 1
      ensures SameOutside(old(ram), ram, ret, wild + OVERHEAD + n)
    {
      hide Load32, SizeWord;
      Resize(ret, sz);
      ghost var m1 := ram;
      SetHole(ret, 0);
      RecordQuiet(m1, ram, ret, sz);
      ghost var m2 := ram;
      Resize(wild, n);
      ghost var m3 := ram;
      SetHole(wild, 1);
      RecordQuiet(m3, ram, wild, n);
      RecordQuiet(m2, ram, ret, sz);
    }

    /** Allocates `sz` bytes whose address is a multiple of the page size, from the
        last block. */
    method AllocateAligned(sz: word) returns (p: word)
      requires Valid() && FitsAligned(heap, Wilderness(heap), sz)
      modifies this`ram, this`heads, this`heap
      ensures Valid()
      ensures heap == AllocA(old(heap), Wilderness(old(heap)), sz)
      ensures p == Wilderness(old(heap)) + Extra(Wilderness(old(heap))) && p % PG_SZ == 0
      ensures Carved(old(heap), Wilderness(old(heap)), sz, p, heap)
      ensures p - OFFSET in heap.size && p - OFFSET !in heap.free && heap.size[p - OFFSET] == sz
      ensures PayloadZero(ram, heap.size, p - OFFSET)
      ensures LiveSame(old(ram), ram, old(heap))
    {
      hide Load32, SizeWord, NextLink, PrevLink, Tiled, Binned, Linked, Lists, Flagged, BinAdd, BinRemove, AllocA;
      hide Within, LinksOnly, SameOutside, Kept, LiveSame, Sized, Carved;
      ghost var h, m0, heads0 := heap, ram, heads;
      var wild := GetWilderness();
      LastUnique(h, wild, Wilderness(h));
      RepRecord(ram, heads, h, wild);
      var oldSz := SizeWord(ram, wild);
      // The boundary test is a logical "and" and never holds, so the front piece is
      // always cut off.
      var extra: word := PG_SZ - wild % PG_SZ;
      var n: word := extra - OVERHEAD - OFFSET;
      var ret: word := wild + n + OVERHEAD;
      var newWild: word := ret + sz + OVERHEAD;
      ghost var nodes, h' := h.free + {newWild}, AllocA(h, wild, sz);
      AllocAShape(h, wild, sz, n, ret, newWild, nodes, h');
      AllocAExact(h, wild, sz);
      ShrinkWilderness(wild, n, h');
      ghost var m1 := ram;
      LayBlocks(ret, sz, newWild, oldSz - n - sz - 2 * OVERHEAD);
      ghost var m2 := ram;
      ShrunkMore(m0, m1, m2, heads, h, wild, n, h', ret, newWild);
      var k := GetBinIndex(SizeWord(ram, newWild));
      AddBlockSorted(k, newWild, BinAdd(BinRemove(h.bins, BinOf(h.size[wild]), wild), wild, h'.size), nodes, h'.size);
      ghost var m3 := ram;
      Memset(ret + NEXT_AT, sz + 8);
      heap := h';
      AllocADone(m0, heads0, m1, m2, m3, ram, heads, h, wild, sz, n, ret, newWild, nodes, h');
      p := ret + OFFSET;
    }

    // ---------------------------------------------------------- kheap_free

    method SetFooter(f: word, a: word)
      requires f + FOOTER <= SPACE
      modifies this`ram
      ensures Load32(ram, f) == a
      ensures SameOutside(old(ram), ram, f, f + FOOTER)
    {
      hide Load32, Store32;
      StoreLoad(ram, f, a);
      ram := Store32(ram, f, a);
    }

    /** The hole in front takes the freed block in. */
    method MergePrev(prev: word, blck: word)
      requires Valid() && prev in heap.free && prev in heap.size
      requires Succ(heap.size, prev) == blck && blck in heap.size && blck !in heap.free
      modifies this`ram, this`heads
      ensures Merging(old(ram), ram, heads, heap, Merge(heap.size, prev), prev,
        BinRemove(heap.bins, BinOf(heap.size[prev]), prev), heap.free - {prev})
    {
      hide Load32, SizeWord, NextLink, PrevLink, Tiled, Binned, NoDup, SortedBy, Linked, Lists, Flagged, LinksOnly;
      hide Within, BinRemove, Merging;
      ghost var h, m0, heads0 := heap, ram, heads;
      RepHoles(ram, heads, h);
      RepRecord(ram, heads, h, prev);
      RepRecord(ram, heads, h, blck);
      TiledSizes(h, prev);
      TiledSizes(h, blck);
      MergingStart(ram, heads, h, prev);
      var k := GetBinIndex(SizeWord(ram, prev));
      RemoveBlock(k, prev, h.bins, h.free);
      ghost var m1, heads1 := ram, heads;
      LinksRecord(m0, m1, h.start, h.end, h.size, h.free, blck);
      SetSize(prev, SizeWord(ram, prev) + OVERHEAD + SizeWord(ram, blck));
      ghost var m2 := ram;
      SizeSame(m1, m2, blck);
      var foot := GetFoot(blck);
      SetFooter(foot, prev);
      SizeSame(m2, ram, prev);
      RemovedOnly(h, prev);
      MergingStep(m0, m0, heads0, h, h.size, prev, h.bins, h.free, m1, heads1, ram, BinRemove(h.bins, k, prev),
        h.free - {prev});
    }

    /** The block takes the hole behind it in. */
    method MergeNext(blck: word, next: word, ghost m0: Ram, ghost size: Sizes, ghost bins: Bins, ghost nodes: set<int>,
                     ghost nodes1: set<int>)
      requires Merging(m0, ram, heads, heap, size, blck, bins, nodes)
      requires next in nodes && next in size && Succ(size, blck) == next && Record(ram, next, size[next])
      requires nodes <= heap.free && nodes <= size.Keys && Apart(heap.free)
      requires nodes1 <= nodes && nodes1 <= Merge(size, blck).Keys
      requires |bins| == BIN_CNT
      requires forall i, c :: 0 <= i < BIN_CNT && c in BinRemove(bins, BinOf(size[next]), next)[i] ==> c in nodes1
      modifies this`ram, this`heads
      ensures Merging(m0, ram, heads, heap, Merge(size, blck), blck, BinRemove(bins, BinOf(size[next]), next), nodes1)
    {
      hide Load32, SizeWord, NextLink, PrevLink, Tiled, NoDup, Linked, Lists, LinksOnly, Within, BinRemove, Apart;
      ghost var m, heads0 := ram, heads;
      ApartFewer(heap.free, nodes);
      var k := GetBinIndex(SizeWord(ram, next));
      RemoveBlock(k, next, bins, nodes);
      ghost var m1, heads1 := ram, heads;
      LinksRecord(m, m1, heap.start, heap.end, size, nodes, blck);
      LinksRecord(m, m1, heap.start, heap.end, size, nodes, next);
      SetSize(blck, SizeWord(ram, blck) + OVERHEAD + SizeWord(ram, next));
      ghost var m2 := ram;
      SizeSame(m1, m2, next);
      var oldFoot := GetFoot(next);
      SetFooter(oldFoot, 0);
      SetSize(next, 0);
      SizeSame(m2, ram, blck);
      ghost var m3 := ram;
      var newFoot := GetFoot(blck);
      SetFooter(newFoot, blck);
      SizeSame(m3, ram, blck);
      MergingStep(m0, m, heads0, heap, size, blck, bins, nodes, m1, heads1, ram, BinRemove(bins, k, next), nodes1);
    }

    /** Sets the flag of the merged block and bins it. */
    method BinMerged(blck: word, ghost m0: Ram, ghost heads0: seq<word>, ghost a: int, ghost h': Heap,
                     ghost bins: Bins, ghost nodes: set<int>)
      requires Merged(m0, heads0, ram, heads, heap, a, blck, h', bins, nodes)
      modifies this`ram, this`heads
      ensures Rep(ram, heads, h')
      ensures blck in h'.size && Within(m0, ram, heap.free + {a}, blck, Succ(h'.size, blck))
    {
      hide Load32, SizeWord, NextLink, PrevLink, Tiled, Binned, NoDup, Linked, Flagged, LinksOnly, Within, Kept, Rep;
      hide Lists;
      ghost var m, heads1 := ram, heads;
      SetHole(blck, 1) by { MergedHeader(m0, heads0, m, heads, heap, a, blck, h', bins, nodes); }
      ghost var m1 := ram;
      MergedBin(m0, heads0, m, heads, heap, a, blck, h', bins, nodes, m1);
      var k := GetBinIndex(SizeWord(ram, blck));
      AddBlockSorted(k, blck, bins, h'.free, h'.size);
      MergedDone(m0, heads0, m, heads1, heap, a, blck, h', bins, nodes, m1, ram, heads);
    }

    /** Frees the block behind client pointer `p`. */
    method Release(p: word)
      requires Valid() && p - OFFSET in heap.size && p - OFFSET !in heap.free
      modifies this`ram, this`heads, this`heap
      ensures Valid()
      ensures heap == Free(old(heap), p - OFFSET)
      ensures OtherLiveSame(old(ram), ram, old(heap), p - OFFSET)
    {
      hide Load32, SizeWord, NextLink, PrevLink, Tiled, Binned, NoDup, SortedBy, Linked, Lists, LinksOnly, Within;
      hide BinRemove, BinAdd, Merging, Merged, Free, Kept, OtherLiveSame;
      ghost var h, m0, heads0, a := heap, ram, heads, p - OFFSET;
      ghost var h' := Free(h, a);
      FreeKeeps(h, a);
      TiledSizes(h, a);
      var blck: word := p - OFFSET;
      if blck == start {
        FirstMerged(ram, heads, h, h');
        BinMerged(blck, m0, heads0, a, h', h.bins, h.free);
        heap := h';
        FirstLive(m0, ram, h, h');
        return;
      }
      RepRecord(ram, heads, h, blck);
      ghost var q, n := Pred(h.start, h.end, h.size, a), Succ(h.size, a);
      RepRecord(ram, heads, h, q);
      TiledSizes(h, q);
      var foot := GetFoot(blck);
      var next: word := foot + FOOTER;
      var prev: word := Load32(ram, blck - FOOTER);
      assert prev == q && next == n;
      ghost var b, size1, bins1 := if q in h.free then q else a, FreeSize1(h, q), FreeBins1(h, q);
      ghost var nodes1 := if q in h.free then h.free - {q} else h.free;
      FreeLayout(h, a, q, n, b, size1, h');
      FreeKept(h, a, q, n, b, size1, h');
      FreeGone(h, a, q, n, b);
      MergingStart(ram, heads, h, a);
      if ram[prev] != 0 {
        MergePrev(prev, blck);
        blck := prev;
      }
      ghost var m1 := ram;
      NodesFewer(h'.size, b, h.free, h.free + {a});
      assert Merging(m0, m1, heads, h, size1, b, bins1, nodes1);
      FirstMergeQuiet(m0, heads0, m1, heads, h, size1, b, n, bins1, nodes1);
      assert ram[next] != 0 <==> n in h.free;
      if ram[next] != 0 {
        MergeNext(blck, next, m0, size1, bins1, nodes1, FreeNodes(h, q, n));
      } else {
        assert nodes1 == FreeNodes(h, q, n);
      }
      InnerMerged(m0, heads0, ram, heads, h, a, q, n, b, h');
      BinMerged(blck, m0, heads0, a, h', FreeBins2(h, q, n), FreeNodes(h, q, n));
      heap := h';
      OthersLive(m0, ram, h, a, b, h');
    }

    // ---------------------------------------------------------- kheap_init

    /** Makes the whole heap one hole; its flag is left as memory had it. */
    method Initialize()
      requires 0 < start && start + OVERHEAD <= end && end + HEADER <= SPACE && ram[end] == 0
      requires heads == seq(BIN_CNT, _ => 0)
      modifies this`ram, this`heads, this`heap
      ensures Valid() && heap == Init(start, end)
      ensures SameOutside(old(ram), ram, start, end)
    {
      hide Load32, SizeWord, NextLink, PrevLink, BinAdd;
      ghost var h, nodes, m0 := Init(start, end), {start as int}, ram;
      ghost var none: Bins := seq(BIN_CNT, _ => []);
      InitKeeps(start, end);
      SetSize(start, end - start - OVERHEAD);
      ghost var m1 := ram;
      SetNext(start, 0, nodes);
      SetPrev(start, 0, nodes);
      ghost var m2 := ram;
      CreateFoot(start);
      ghost var m3 := ram;
      var k := GetBinIndex(SizeWord(ram, start));
      assert Lists(ram, heads, none, nodes);
      AddBlockSorted(k, start, none, nodes, h.size);
      InitDone(m0, m1, m2, m3, ram, heads, h, start, end);
      heap := h;
    }
  }

  lemma ListNodes(m: Ram, heads: seq<word>, bins: Bins, nodes: set<int>, k: nat)
    requires Lists(m, heads, bins, nodes) && k < BIN_CNT
    ensures forall j :: 0 <= j < |bins[k]| ==> bins[k][j] in bins[k] && bins[k][j] in nodes
  {
    hide Linked, NoDup;
    var l := bins[k];
    forall j | 0 <= j < |l|
      ensures l[j] in nodes
    {
      var a := l[j];
      assert a in bins[k];
    }
  }

  lemma LinkedNext(m: Ram, head: int, l: seq<int>, p: nat)
    requires Linked(m, head, l) && p < |l|
    ensures IsHeader(l[p]) && NextLink(m, l[p]) == if p + 1 < |l| then l[p + 1] else 0
    ensures p + 1 < |l| ==> l[p + 1] != 0
  {
    hide NextLink, PrevLink;
    assert p + 1 < |l| ==> IsHeader(l[p + 1]);
  }

  lemma NodeSize(m: Ram, nodes: set<int>, size: Sizes, a: int)
    requires Apart(nodes) && Sized(m, nodes, size) && a in nodes
    ensures IsHeader(a) && SizeWord(m, a) == At(size, a)
  {
    hide SizeWord, At;
  }

  lemma InsertNoDup(l: seq<int>, a: int, size: Sizes)
    requires NoDup(l) && a !in l
    ensures NoDup(Insert(l, a, size))
    ensures forall b :: b in Insert(l, a, size) <==> b in l || b == a
  {
    hide At, FitPos, Insert;
    InsertElements(l, a, size, FitPos(l, At(size, a) + 1, size), Insert(l, a, size));
  }
}
