/** Every heap operation keeps the heap invariant. */
module HeapInvariant {
  import opened BinIndex
  import opened HeapSpec

  // ---------------------------------------------------------------- blocks

  lemma SplitTiled(start: int, end: int, size: Sizes, a: int, n: int)
    requires Tiled(start, end, size) && a in size
    requires 0 <= n && n + OVERHEAD <= size[a]
    ensures Tiled(start, end, Split(size, a, n))
    ensures a + OVERHEAD + n !in size
    ensures Split(size, a, n).Keys == size.Keys + {a + OVERHEAD + n}
    ensures Split(size, a, n)[a] == n && Split(size, a, n)[a + OVERHEAD + n] == size[a] - n - OVERHEAD
    ensures forall b :: b in size && b != a ==> Split(size, a, n)[b] == size[b]
  {
    hide Split, Tiled, Succ;
    var size' := Split(size, a, n);
    SplitSuccs(start, end, size, a, n);
    forall b | b in size'
      ensures start <= b && 0 <= size'[b] && Succ(size', b) <= end && (Succ(size', b) == end || Succ(size', b) in size')
    {
      SplitBlock(start, end, size, a, n, b);
    }
    forall b, c | b in size' && c in size' && b < c
      ensures Succ(size', b) <= c
    {
      SplitOrder(start, end, size, a, n, b, c);
    }
    assert Tiled(start, end, size') by { Tiles(start, end, size, size'); }
  }

  lemma Tiles(start: int, end: int, size: Sizes, size': Sizes)
    requires Tiled(start, end, size) && size.Keys <= size'.Keys
    requires forall b :: b in size' ==> start <= b && 0 <= size'[b] && Succ(size', b) <= end
    requires forall b :: b in size' ==> Succ(size', b) == end || Succ(size', b) in size'
    requires forall b, c :: b in size' && c in size' && b < c ==> Succ(size', b) <= c
    ensures Tiled(start, end, size')
  {
    hide Succ;
    assert start in size.Keys;
  }

  lemma SplitBlock(start: int, end: int, size: Sizes, a: int, n: int, b: int)
    requires Tiled(start, end, size) && a in size && 0 <= n && n + OVERHEAD <= size[a] && b in Split(size, a, n)
    ensures var size' := Split(size, a, n);
      start <= b && 0 <= size'[b] && Succ(size', b) <= end && (Succ(size', b) == end || Succ(size', b) in size')
  {
    hide Split, Succ;
    SplitSuccs(start, end, size, a, n);
    SuccIs(size, a);
    assert Succ(size, a) <= end && start <= a;
    if b in size { assert Succ(size, b) <= end; }
  }

  lemma SplitSuccs(start: int, end: int, size: Sizes, a: int, n: int)
    requires Tiled(start, end, size) && a in size && 0 <= n && n + OVERHEAD <= size[a]
    ensures a + OVERHEAD + n !in size
    ensures Split(size, a, n).Keys == size.Keys + {a + OVERHEAD + n}
    ensures Split(size, a, n)[a] == n && Split(size, a, n)[a + OVERHEAD + n] == size[a] - n - OVERHEAD
    ensures Succ(Split(size, a, n), a + OVERHEAD + n) == Succ(size, a)
    ensures Succ(Split(size, a, n), a) == a + OVERHEAD + n
    ensures forall b :: b in size && b != a ==>
      Split(size, a, n)[b] == size[b] && Succ(Split(size, a, n), b) == Succ(size, b)
  {
    assert a + OVERHEAD + n in size ==> Succ(size, a) <= a + OVERHEAD + n;
  }

  lemma SplitOrder(start: int, end: int, size: Sizes, a: int, n: int, b: int, c: int)
    requires Tiled(start, end, size) && a in size && 0 <= n && n + OVERHEAD <= size[a]
    requires b in Split(size, a, n) && c in Split(size, a, n) && b < c
    ensures Succ(Split(size, a, n), b) <= c
  {
    hide Split, Succ;
    SplitSuccs(start, end, size, a, n);
    SuccIs(size, a);
    if b in size { SuccIs(size, b); }
  }

  lemma SuccIs(size: Sizes, a: int)
    requires a in size
    ensures Succ(size, a) == a + size[a] + OVERHEAD
  {
  }

  lemma CarveTiled(start: int, end: int, size: Sizes, w: int, n: int, sz: int)
    requires Tiled(start, end, size) && w in size
    requires 0 <= n && 0 <= sz && n + sz + 2 * OVERHEAD <= size[w]
    ensures Tiled(start, end, Carve(size, w, n, sz))
    ensures w + OVERHEAD + n !in size && w + 2 * OVERHEAD + n + sz !in size
    ensures Carve(size, w, n, sz).Keys == size.Keys + {w + OVERHEAD + n, w + 2 * OVERHEAD + n + sz}
    ensures forall b :: b in size && b != w ==> Carve(size, w, n, sz)[b] == size[b]
  {
    hide Tiled, Split;
    SplitTiled(start, end, size, w, n);
    SplitTiled(start, end, Split(size, w, n), w + OVERHEAD + n, sz);
  }

  lemma MergeEnds(start: int, end: int, size: Sizes, a: int, b: int)
    requires Tiled(start, end, size) && a in size && Succ(size, a) in size && b in Merge(size, a)
    ensures start <= b && 0 <= Merge(size, a)[b] && Succ(Merge(size, a), b) <= end
    ensures Succ(Merge(size, a), b) == end || Succ(Merge(size, a), b) in Merge(size, a)
    ensures b != a ==> Succ(Merge(size, a), b) == Succ(size, b)
  {
    var n := Succ(size, a);
    var size' := Merge(size, a);
    assert Succ(size', a) == Succ(size, n);
    if b != a {
      assert Succ(size', b) == Succ(size, b);
      if Succ(size, b) == n {
        PredUnique(start, end, size, a, b);
      }
    } else {
      assert Succ(size, n) == end || Succ(size, n) in size;
      assert Succ(size, n) != n;
    }
  }

  lemma MergeApart(start: int, end: int, size: Sizes, a: int, b: int, c: int)
    requires Tiled(start, end, size) && a in size && Succ(size, a) in size
    requires b in Merge(size, a) && c in Merge(size, a) && b < c
    ensures Succ(Merge(size, a), b) <= c
  {
    var n := Succ(size, a);
    assert Succ(Merge(size, a), a) == Succ(size, n);
    if b != a {
      assert Succ(Merge(size, a), b) == Succ(size, b);
    } else {
      assert n <= c;
    }
  }

  lemma MergeTiled(start: int, end: int, size: Sizes, a: int)
    requires Tiled(start, end, size) && a in size && Succ(size, a) in size
    ensures Tiled(start, end, Merge(size, a))
    ensures Merge(size, a).Keys == size.Keys - {Succ(size, a)}
    ensures Succ(Merge(size, a), a) == Succ(size, Succ(size, a))
  {
    hide Merge;
    var size' := Merge(size, a);
    MergeKeys(start, end, size, a);
    forall b | b in size'
      ensures start <= b && 0 <= size'[b] && Succ(size', b) <= end
      ensures Succ(size', b) == end || Succ(size', b) in size'
    {
      MergeEnds(start, end, size, a, b);
    }
    forall b, c | b in size' && c in size' && b < c
      ensures Succ(size', b) <= c
    {
      MergeApart(start, end, size, a, b, c);
    }
  }

  lemma MergeKeys(start: int, end: int, size: Sizes, a: int)
    requires Tiled(start, end, size) && a in size && Succ(size, a) in size
    ensures Merge(size, a).Keys == size.Keys - {Succ(size, a)}
    ensures start in Merge(size, a)
    ensures Succ(Merge(size, a), a) == Succ(size, Succ(size, a))
  {
    assert start <= a < Succ(size, a);
  }

  // ------------------------------------------------------------------ bins

  lemma InsertElements(l: seq<int>, a: int, size: Sizes, p: nat, r: seq<int>)
    requires p == FitPos(l, At(size, a) + 1, size) && r == Insert(l, a, size)
    ensures p <= |l| && |r| == |l| + 1 && r == l[..p] + [a] + l[p..]
    ensures r[p] == a && (forall j :: 0 <= j < p ==> r[j] == l[j]) && (forall j :: p < j < |r| ==> r[j] == l[j - 1])
    ensures forall b :: b in r <==> b in l || b == a
  {
    hide FitPos, At;
    assert forall j :: 0 <= j < |l| ==> l[j] == r[if j < p then j else j + 1];
  }

  lemma InsertKeeps(l: seq<int>, a: int, size: Sizes)
    requires NoDup(l) && SortedBy(l, size) && a !in l
    ensures NoDup(Insert(l, a, size)) && SortedBy(Insert(l, a, size), size)
    ensures forall b :: b in Insert(l, a, size) <==> b in l || b == a
  {
    hide Insert, At;
    var p := FitPos(l, At(size, a) + 1, size);
    var r := Insert(l, a, size);
    InsertElements(l, a, size, p, r);
    forall j | p <= j < |l|
      ensures At(size, a) < At(size, l[j])
    {
      assert At(size, l[p]) <= At(size, l[j]) || p == j;
    }
    forall i, j | 0 <= i < j < |r|
      ensures r[i] != r[j] && At(size, r[i]) <= At(size, r[j])
    {
      assert i < p ==> r[i] == l[i];
      assert i > p ==> r[i] == l[i - 1];
      assert j < p ==> r[j] == l[j];
      assert j > p ==> r[j] == l[j - 1];
    }
  }

  /** A block lands behind every block that is not larger, equal ones included, and
      in front of every larger one; taking it out again restores the list. */
  lemma InsertPlace(l: seq<int>, a: int, size: Sizes)
    requires SortedBy(l, size) && a !in l
    ensures var p := IndexOf(Insert(l, a, size), a); var r := Insert(l, a, size);
      && p < |r|
      && (forall j :: 0 <= j < p ==> At(size, r[j]) <= At(size, a))
      && (forall j :: p < j < |r| ==> At(size, a) < At(size, r[j]))
    ensures Remove(Insert(l, a, size), a) == l
  {
    hide At, Insert, Remove;
    var p := FitPos(l, At(size, a) + 1, size);
    var r := Insert(l, a, size);
    InsertElements(l, a, size, p, r);
    InsertIndex(l, a, p, r);
    forall j | p < j < |r|
      ensures At(size, a) < At(size, r[j])
    {
      assert At(size, l[p]) <= At(size, l[j - 1]) || p == j - 1;
    }
  }

  lemma InsertIndex(l: seq<int>, a: int, p: nat, r: seq<int>)
    requires a !in l && p <= |l| && r == l[..p] + [a] + l[p..]
    ensures IndexOf(r, a) == p && Remove(r, a) == l
  {
    assert r[p] == a;
    assert forall j :: 0 <= j < p ==> r[j] == l[j] && l[j] in l;
    assert r[..p] == l[..p] && r[p + 1..] == l[p..];
  }

  lemma RemoveKeeps(l: seq<int>, a: int, size: Sizes)
    requires NoDup(l)
    ensures NoDup(Remove(l, a))
    ensures SortedBy(l, size) ==> SortedBy(Remove(l, a), size)
    ensures forall b :: b in Remove(l, a) <==> b in l && b != a
  {
    var p := IndexOf(l, a);
    if p < |l| {
      hide NoDup, SortedBy;
      DropNoDup(l, p);
      DropMembers(l, p);
      if SortedBy(l, size) { DropSorted(l, p, size); }
    }
  }

  lemma DropNoDup(l: seq<int>, p: nat)
    requires p < |l| && NoDup(l)
    ensures NoDup(l[..p] + l[p + 1..])
  {
  }

  lemma DropSorted(l: seq<int>, p: nat, size: Sizes)
    requires p < |l| && SortedBy(l, size)
    ensures SortedBy(l[..p] + l[p + 1..], size)
  {
    hide At;
  }

  lemma DropMembers(l: seq<int>, p: nat)
    requires p < |l| && NoDup(l)
    ensures forall b :: b in l[..p] + l[p + 1..] <==> b in l && b != l[p]
  {
    var r := l[..p] + l[p + 1..];
    forall b
      ensures b in r <==> b in l && b != l[p]
    {
      if b in l {
        var j :| 0 <= j < |l| && l[j] == b;
        assert j < p ==> r[j] == b;
        assert j > p ==> r[j - 1] == b;
      }
    }
  }

  lemma BinAddKeeps(size: Sizes, free: set<int>, bins: Bins, a: int)
    requires Binned(size, free, bins) && a in size && a !in free
    ensures Binned(size, free + {a}, BinAdd(bins, a, size))
  {
    hide Insert, NoDup, SortedBy;
    var k := BinOf(At(size, a));
    assert a !in bins[k];
    InsertKeeps(bins[k], a, size);
  }

  lemma BinRemoveKeeps(size: Sizes, free: set<int>, bins: Bins, a: int)
    requires Binned(size, free, bins) && a in free
    ensures Binned(size, free - {a}, BinRemove(bins, BinOf(size[a]), a))
  {
    hide Remove, NoDup, SortedBy, BinOf;
    RemoveKeeps(bins[BinOf(size[a])], a, size);
  }

  /** Only the sizes of holes matter to the bins. */
  lemma BinnedResize(size: Sizes, size': Sizes, free: set<int>, bins: Bins)
    requires Binned(size, free, bins)
    requires forall a :: a in free ==> a in size' && size'[a] == size[a]
    ensures Binned(size', free, bins)
  {
    forall a | a in free ensures a in size'.Keys { assert a in size.Keys; }
    forall k | 0 <= k < BIN_CNT
      ensures NoDup(bins[k]) && SortedBy(bins[k], size')
      ensures forall a :: a in bins[k] ==> a in free && BinOf(At(size', a)) == k
    {
      forall j | 0 <= j < |bins[k]|
        ensures At(size', bins[k][j]) == At(size, bins[k][j])
      {
        assert bins[k][j] in bins[k];
      }
    }
  }

  // ------------------------------------------------------------ operations

  lemma InitKeeps(start: int, end: int)
    requires 0 < start && start + OVERHEAD <= end && end + HEADER <= Memory.SPACE
    ensures Inv(Init(start, end))
  {
    var size := map[start := end - start - OVERHEAD];
    var none: Bins := seq(BIN_CNT, _ => []);
    assert Binned(size, {}, none);
    BinAddKeeps(size, {}, none, start);
    assert {} + {start} == {start};
    assert Succ(size, start) == end;
  }

  lemma AllocKeeps(h: Heap, sz: nat)
    requires Inv(h) && Fits(h, sz)
    ensures Inv(Alloc(h, sz))
  {
    hide Tiled, Binned, Found, BinOf;
    var a := Found(h, sz);
    if Splits(h, sz) {
      var rest := a + OVERHEAD + sz;
      var size' := Split(h.size, a, sz);
      var grown := h.size[rest := h.size[a] - sz - OVERHEAD];
      SplitTiled(h.start, h.end, h.size, a, sz);
      AllocBins(h.size, grown, size', h.free, h.bins, a, rest);
    } else {
      BinRemoveKeeps(h.size, h.free, h.bins, a);
    }
  }

  lemma AllocBins(size: Sizes, grown: Sizes, size': Sizes, free: set<int>, bins: Bins, a: int, rest: int)
    requires Binned(size, free, bins) && a in free && rest !in size && a in size
    requires rest in grown && grown == size[rest := grown[rest]]
    requires size'.Keys == grown.Keys && forall b :: b in grown && b != a ==> size'[b] == grown[b]
    ensures Binned(size', free - {a} + {rest}, BinRemove(BinAdd(bins, rest, grown), BinOf(size[a]), a))
  {
    assert free <= size.Keys;
    BinnedResize(size, grown, free, bins);
    BinAddKeeps(grown, free, bins, rest);
    BinRemoveKeeps(grown, free + {rest}, BinAdd(bins, rest, grown), a);
    assert free + {rest} - {a} == free - {a} + {rest};
    BinnedResize(grown, size', free - {a} + {rest}, BinRemove(BinAdd(bins, rest, grown), BinOf(size[a]), a));
  }

  lemma AllocAKeeps(h: Heap, w: int, sz: nat)
    requires Inv(h) && FitsAligned(h, w, sz)
    ensures Inv(AllocA(h, w, sz))
  {
    hide Tiled, Binned, BinOf, Carve, BinAdd, BinRemove;
    var n := Extra(w) - OVERHEAD - OFFSET;
    var size := Carve(h.size, w, n, sz);
    CarveTiled(h.start, h.end, h.size, w, n, sz);
    AllocABins(h.size, size, h.free, h.bins, w, w + 2 * OVERHEAD + n + sz);
  }

  lemma AllocABins(size: Sizes, size': Sizes, free: set<int>, bins: Bins, w: int, wild: int)
    requires Binned(size, free, bins) && w in free && wild !in size
    requires w in size && w in size' && wild in size'
    requires forall b :: b in size && b != w ==> b in size' && size'[b] == size[b]
    ensures Binned(size', free + {wild}, BinAdd(BinAdd(BinRemove(bins, BinOf(size[w]), w), w, size'), wild, size'))
  {
    assert free <= size.Keys;
    var bins1 := BinRemove(bins, BinOf(size[w]), w);
    BinRemoveKeeps(size, free, bins, w);
    BinnedResize(size, size', free - {w}, bins1);
    BinAddKeeps(size', free - {w}, bins1, w);
    assert free - {w} + {w} == free;
    BinAddKeeps(size', free, BinAdd(bins1, w, size'), wild);
  }

  /** One of two neighbours is a hole, leaves its bin and is joined with the other. */
  lemma CoalesceKeeps(start: int, end: int, size: Sizes, free: set<int>, bins: Bins, x: int, z: int)
    requires Tiled(start, end, size) && Binned(size, free, bins) && x in size && Succ(size, x) in size
    requires z in free && (z == x || z == Succ(size, x)) && free * {x, Succ(size, x)} == {z}
    ensures z in size && Tiled(start, end, Merge(size, x))
    ensures Binned(Merge(size, x), free - {z}, BinRemove(bins, BinOf(size[z]), z))
  {
    hide Tiled, BinOf;
    MergeTiled(start, end, size, x);
    BinRemoveKeeps(size, free, bins, z);
    BinnedResize(size, Merge(size, x), free - {z}, BinRemove(bins, BinOf(size[z]), z));
  }

  lemma FreeKeeps(h: Heap, a: int)
    requires Inv(h) && a in h.size && a !in h.free
    ensures Inv(Free(h, a))
  {
    hide Tiled, BinOf, Binned;
    if a == h.start {
      BinAddKeeps(h.size, h.free, h.bins, a);
    } else {
      hide BinAdd, BinRemove, Merge;
      var p := Pred(h.start, h.end, h.size, a);
      var n := Succ(h.size, a);
      FreeFacts(h, a, p, n);
      MergeNext(h.start, h.end, h.size, p, a);
      var b := if p in h.free then p else a;
      var size1 := if p in h.free then Merge(h.size, p) else h.size;
      var bins1 := if p in h.free then BinRemove(h.bins, BinOf(h.size[p]), p) else h.bins;
      if p in h.free {
        CoalesceKeeps(h.start, h.end, h.size, h.free, h.bins, p, p);
      }
      assert Binned(size1, h.free - {p}, bins1) by {
        if p !in h.free { assert h.free - {p} == h.free; }
      }
      var size2 := if n in h.free then Merge(size1, b) else size1;
      var bins2 := if n in h.free then BinRemove(bins1, BinOf(h.size[n]), n) else bins1;
      if n in h.free {
        CoalesceKeeps(h.start, h.end, size1, h.free - {p}, bins1, b, n);
      }
      assert h.free - {p, n} == h.free - {p} - {n};
      assert Binned(size2, h.free - {p, n}, bins2) by {
        if n !in h.free { assert h.free - {p, n} == h.free - {p}; }
      }
      BinAddKeeps(size2, h.free - {p, n}, bins2, b);
    }
  }

  lemma FreeFacts(h: Heap, a: int, p: int, n: int)
    requires Inv(h) && a in h.size && p in h.size
    requires Succ(h.size, p) == a && Succ(h.size, a) == n
    ensures h.free <= h.size.Keys
    ensures p < a < n
    ensures n in h.size || n == h.end
    ensures h.end !in h.size
  {
    assert Succ(h.size, p) == a;
    assert h.end in h.size ==> Succ(h.size, h.end) <= h.end;
  }
}
