/** When freeing a block at once undoes its allocation. */
module HeapUndo {
  import opened BinIndex
  import opened HeapSpec
  import opened HeapInvariant
  import opened HeapRuns

  ghost function SizesOf(l: seq<int>, size: Sizes): seq<int> {
    seq(|l|, i requires 0 <= i < |l| => At(size, l[i]))
  }

  /** Taking a smallest block out of a sorted list takes its size off the front. */
  lemma SizesWithout(r: seq<int>, x: int, size: Sizes)
    requires SortedBy(r, size) && x in r && At(size, x) <= At(size, r[0])
    ensures SizesOf(r, size) == [At(size, x)] + SizesOf(Remove(r, x), size)
  {
    hide At, SortedBy, SizesOf;
    var j, rest := IndexOf(r, x), Remove(r, x);
    forall i | 0 <= i <= j
      ensures At(size, r[i]) == At(size, x)
    {
      FrontEqual(r, x, size, i, j);
    }
    FrontSizes(r, rest, x, j, size);
  }

  lemma FrontEqual(r: seq<int>, x: int, size: Sizes, i: nat, j: nat)
    requires SortedBy(r, size) && i <= j < |r| && r[j] == x && At(size, x) <= At(size, r[0])
    ensures At(size, r[i]) == At(size, x)
  {
    hide At;
    assert i == j || At(size, r[i]) <= At(size, r[j]);
    assert i == 0 || At(size, r[0]) <= At(size, r[i]);
  }

  lemma FrontSizes(r: seq<int>, rest: seq<int>, x: int, j: nat, size: Sizes)
    requires j < |r| && rest == r[..j] + r[j + 1..] && forall i :: 0 <= i <= j ==> At(size, r[i]) == At(size, x)
    ensures SizesOf(r, size) == [At(size, x)] + SizesOf(rest, size)
  {
    hide At;
    forall i | 0 < i < |r|
      ensures At(size, r[i]) == At(size, rest[i - 1])
    {
      assert rest[i - 1] == if i <= j then r[i - 1] else r[i];
    }
  }

  /** Two sorted lists of the same blocks have the same sizes in the same order. */
  lemma {:induction false} SameSizes(l: seq<int>, r: seq<int>, size: Sizes)
    requires NoDup(l) && NoDup(r) && SortedBy(l, size) && SortedBy(r, size)
    requires forall a :: a in l <==> a in r
    ensures SizesOf(l, size) == SizesOf(r, size)
    decreases |l|
  {
    hide At;
    if r != [] { assert r[0] in r; }
    if l != [] {
      var x := l[0];
      assert x in l && x in r;
      var k :| 0 <= k < |l| && l[k] == r[0];
      assert At(size, x) <= At(size, r[0]) by { assert k == 0 || At(size, l[0]) <= At(size, l[k]); }
      RemoveKeeps(l, x, size);
      RemoveKeeps(r, x, size);
      SameSizes(Remove(l, x), Remove(r, x), size);
      SizesWithout(l, x, size);
      SizesWithout(r, x, size);
    }
  }

  /** Same blocks, same holes, and in every bin the same sizes in the same order.
      Equal-sized blocks may have changed places inside a bin. */
  ghost predicate SameShape(h: Heap, h': Heap) {
    && h.start == h'.start && h.end == h'.end
    && h.size == h'.size && h.free == h'.free
    && |h.bins| == |h'.bins| == BIN_CNT
    && forall k :: 0 <= k < BIN_CNT ==> SizesOf(h.bins[k], h.size) == SizesOf(h'.bins[k], h.size)
  }

  /** The blocks and holes determine the sizes in every bin. */
  lemma ShapeFromBlocks(h: Heap, h': Heap)
    requires Inv(h) && Inv(h') && h.start == h'.start && h.end == h'.end
    requires h.size == h'.size && h.free == h'.free
    ensures SameShape(h, h')
  {
    hide Tiled, NoDup, SortedBy, SizesOf, BinOf;
    forall k | 0 <= k < BIN_CNT
      ensures SizesOf(h.bins[k], h.size) == SizesOf(h'.bins[k], h.size)
    {
      forall a
        ensures a in h.bins[k] <==> a in h'.bins[k]
      {
        assert a in h.free ==> a in h.bins[BinOf(At(h.size, a))] && a in h'.bins[BinOf(At(h.size, a))];
      }
      SameSizes(h.bins[k], h'.bins[k], h.size);
    }
  }

  lemma MergeUndoesSplit(start: int, end: int, size: Sizes, a: int, n: int)
    requires Tiled(start, end, size) && a in size && 0 <= n && n + OVERHEAD <= size[a]
    ensures Succ(Split(size, a, n), a) == a + OVERHEAD + n && a + OVERHEAD + n in Split(size, a, n)
    ensures Merge(Split(size, a, n), a) == size
  {
    hide Tiled;
    SplitTiled(start, end, size, a, n);
  }

  /** The caller can tell beforehand: the block in front is not a hole (or there is
      none) and the one behind is the remainder just split off, or no hole. */
  ghost predicate Undoable(h: Heap, sz: nat)
    requires Inv(h) && Fits(h, sz)
  {
    var a := Found(h, sz);
    if a == h.start then !Splits(h, sz)
    else Pred(h.start, h.end, h.size, a) !in h.free && (Splits(h, sz) || Succ(h.size, a) !in h.free)
  }

  ghost function AllocThenFree(h: Heap, sz: nat): Heap
    requires Inv(h) && Fits(h, sz)
  {
    AllocKeeps(h, sz);
    AllocBlocks(h, sz, Found(h, sz), Alloc(h, sz));
    Free(Alloc(h, sz), Found(h, sz))
  }

  lemma AllocFreeRestores(h: Heap, sz: nat)
    requires Inv(h) && Fits(h, sz)
    ensures SameShape(h, AllocThenFree(h, sz)) <==> Undoable(h, sz)
  {
    hide Alloc, Free, Found, Fits, Binned, Splits, SizesOf;
    var a := Found(h, sz);
    var h1 := Alloc(h, sz);
    AllocKeeps(h, sz);
    AllocBlocks(h, sz, a, h1);
    var h2 := Free(h1, a);
    FreeKeeps(h1, a);
    if a == h.start {
      FirstUndo(h, sz, a, h1, h2);
    } else {
      InnerUndo(h, sz, a, h1, h2);
    }
    if h.size == h2.size && h.free == h2.free { ShapeFromBlocks(h, h2); }
  }

  /** In a heap without neighbouring holes, freeing at once undoes every allocation
      from any hole but the first block, whether or not it split. */
  lemma AllocFreeIdentity(h: Heap, sz: nat)
    requires Inv(h) && Fits(h, sz) && Pairs(h) == {} && Found(h, sz) != h.start
    ensures SameShape(h, AllocThenFree(h, sz))
  {
    hide Tiled, Binned, Fits, Found, Splits, AllocThenFree, SameShape;
    var a := Found(h, sz);
    var p := Pred(h.start, h.end, h.size, a);
    FoundFree(h, sz);
    assert a !in Pairs(h) && p !in Pairs(h);
    AllocFreeRestores(h, sz);
  }

  lemma FirstUndo(h: Heap, sz: nat, a: int, h1: Heap, h2: Heap)
    requires Inv(h) && Fits(h, sz) && a == Found(h, sz) && h1 == Alloc(h, sz) && a == h.start
    requires Inv(h1) && a in h1.size && a !in h1.free && h2 == Free(h1, a)
    ensures h2.start == h.start && h2.end == h.end
    ensures h.size == h2.size && h.free == h2.free <==> !Splits(h, sz)
  {
    hide Found, Fits, Alloc, Binned, BinAdd;
    AllocBlocks(h, sz, a, h1);
    if Splits(h, sz) { SplitTiled(h.start, h.end, h.size, a, sz); assert h2.size.Keys != h.size.Keys; }
  }

  /** The heap around an inner block that was allocated from hole `a`. */
  lemma InnerAround(h: Heap, sz: nat, a: int, h1: Heap, p: int, n: int, n1: int)
    requires Inv(h) && Fits(h, sz) && a == Found(h, sz) && h1 == Alloc(h, sz) && a != h.start
    requires Inv(h1) && a in h1.size && a in h.size && p == Pred(h.start, h.end, h.size, a)
    requires n == Succ(h.size, a) && n1 == Succ(h1.size, a)
    ensures h1.start == h.start && h1.end == h.end && p in h1.size && p == Pred(h1.start, h1.end, h1.size, a)
    ensures p in h1.free <==> p in h.free
    ensures Splits(h, sz) ==>
      n1 in h1.free && n1 in h1.size && n1 !in h.size && Succ(h1.size, n1) == n && h1.size.Keys == h.size.Keys + {n1}
    ensures !Splits(h, sz) ==> n1 == n && h1.size == h.size && (n in h1.free <==> n in h.free)
    ensures h1.free == h.free - {a} + (if Splits(h, sz) then {n1} else {})
    ensures forall c :: c in h.size && c != a ==> h1.size[c] == h.size[c]
    ensures p < a < n && p in h.size && h.free <= h.size.Keys
  {
    hide Found, Fits, Alloc, Binned, Split;
    AllocBlocks(h, sz, a, h1);
    if Splits(h, sz) { SplitTiled(h.start, h.end, h.size, a, sz); }
    assert Succ(h1.size, p) == a;
    PredUnique(h.start, h.end, h1.size, p, Pred(h1.start, h1.end, h1.size, a));
    FreeFacts(h, a, p, n);
  }

  lemma InnerUndo(h: Heap, sz: nat, a: int, h1: Heap, h2: Heap)
    requires Inv(h) && Fits(h, sz) && a == Found(h, sz) && h1 == Alloc(h, sz) && a != h.start
    requires Inv(h1) && a in h1.size && a !in h1.free && a in h.size && h2 == Free(h1, a)
    ensures h2.start == h.start && h2.end == h.end
    ensures h.size == h2.size && h.free == h2.free <==>
      Pred(h.start, h.end, h.size, a) !in h.free && (Splits(h, sz) || Succ(h.size, a) !in h.free)
  {
    hide Found, Fits, Alloc, Free, Tiled, Binned, Splits, Pred;
    var p, n, n1 := Pred(h.start, h.end, h.size, a), Succ(h.size, a), Succ(h1.size, a);
    InnerAround(h, sz, a, h1, p, n, n1);
    FreeSizes(h1, a, p, n1, if p in h1.free then p else a, h2);
    if p in h.free {
      assert a !in h2.size;
    } else if !Splits(h, sz) && n in h.free {
      assert n !in h2.size;
    } else {
      assert a in h.free by { FoundFree(h, sz); }
      assert Succ(h2.size, a) == n;
      assert h2.size.Keys == h.size.Keys;
      assert forall c :: c in h.size ==> h2.size[c] == h.size[c];
      assert h2.free == h.free;
    }
  }
}
