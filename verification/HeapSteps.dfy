/** Each operation's stores, taken together, lead from memory that represents the
    heap before to memory that represents the heap after. */
module HeapSteps {
  import opened Memory
  import opened BinIndex
  import opened HeapSpec
  import opened HeapInvariant
  import opened BinLists
  import opened HeapMemory

  /** Block `c` is the same block in both heaps and lies outside the region of
      block `a` in the layout `g`. */
  ghost predicate Kept(g: Sizes, a: int, h: Heap, h': Heap, c: int) {
    && c in g && c != a
    && c in h.size && h.size[c] == g[c]
    && c in h'.size && h'.size[c] == g[c]
    && (c in h.free <==> c in h'.free)
  }

  /** Block `c` has been given its record and flag. */
  ghost predicate Written(m: Ram, h': Heap, c: int) {
    && c in h'.size && Record(m, c, h'.size[c])
    && (m[c] != 0 <==> c in h'.free)
  }

  /** The list nodes that were rewired: blocks of the layout `g`, or inside block `a`. */
  ghost predicate NodesIn(g: Sizes, a: int, nodes: set<int>)
    requires a in g
  {
    forall d :: d in nodes ==> d in g || (a <= d && d + HEADER <= Succ(g, a))
  }

  lemma KeptQuiet(m0: Ram, m: Ram, heads: seq<word>, h: Heap, h': Heap, nodes: set<int>, g: Sizes, a: int, c: int)
    requires Rep(m0, heads, h) && Tiled(h.start, h.end, g) && a in g && NodesIn(g, a, nodes)
    requires Within(m0, m, nodes, a, Succ(g, a))
    requires Kept(g, a, h, h', c)
    ensures Record(m, c, h'.size[c]) && m[c] == m0[c]
  {
    hide Load32, SizeWord, Tiled, Binned, Lists, Flagged, Within;
    TiledApart(h.start, h.end, g, a, c);
    TiledSizes(h, c);
    Quiet(h.start, h.end, g, nodes, a, Succ(g, a), m0, m, c);
    RecordQuiet(m0, m, c, h.size[c]);
  }

  lemma EndQuiet(m0: Ram, m: Ram, start: int, end: int, nodes: set<int>, g: Sizes, a: int)
    requires Tiled(start, end, g) && a in g && NodesIn(g, a, nodes) && 0 <= end < SPACE
    requires Within(m0, m, nodes, a, Succ(g, a))
    ensures m[end] == m0[end]
  {
    assert Succ(g, a) <= end;
    forall d | d in nodes
      ensures d + HEADER <= end
    {
      assert d in g ==> 0 <= g[d] && Succ(g, d) <= end;
    }
  }

  lemma Rebuild(m0: Ram, heads0: seq<word>, h: Heap, m: Ram, heads: seq<word>, h': Heap, nodes: set<int>, g: Sizes,
                a: int)
    requires Rep(m0, heads0, h) && Inv(h') && h'.start == h.start && h'.end == h.end
    requires Tiled(h.start, h.end, g) && a in g && NodesIn(g, a, nodes)
    requires Within(m0, m, nodes, a, Succ(g, a))
    requires Lists(m, heads, h'.bins, h'.free)
    requires forall c :: c in h'.size ==> Kept(g, a, h, h', c) || Written(m, h', c)
    requires a in h.size
    ensures Rep(m, heads, h')
  {
    hide Load32, SizeWord, Tiled, Binned, Lists, Within, Kept;
    forall c | c in h'.size
      ensures Record(m, c, h'.size[c])
      ensures IsHeader(c) && (m[c] != 0 <==> c in h'.free)
    {
      if !Written(m, h', c) {
        KeptQuiet(m0, m, heads0, h, h', nodes, g, a, c);
        assert c in h.size && c != a && (c in h.free <==> c in h'.free) by { KeptMeans(g, a, h, h', c); }
      }
    }
    EndQuiet(m0, m, h.start, h.end, nodes, g, a);
  }

  lemma KeptMeans(g: Sizes, a: int, h: Heap, h': Heap, c: int)
    requires Kept(g, a, h, h', c)
    ensures c in h.size && c != a && (c in h.free <==> c in h'.free)
  {
  }

  lemma LiveQuiet(m0: Ram, m: Ram, h: Heap, nodes: set<int>, a: int)
    requires Inv(h) && a in h.size && a in h.free && NodesIn(h.size, a, nodes)
    requires forall d :: d in nodes && d in h.size ==> d in h.free
    requires Within(m0, m, nodes, a, Succ(h.size, a))
    ensures LiveSame(m0, m, h)
  {
    hide Tiled, Binned, Within, Same;
    forall c | c in h.size && c !in h.free
      ensures Same(m0, m, c, Succ(h.size, c))
    {
      TiledApart(h.start, h.end, h.size, a, c);
      Quiet(h.start, h.end, h.size, nodes, a, Succ(h.size, a), m0, m, c);
    }
  }

  // --------------------------------------------------------------- kheap_alloc

  /** The bins and the nodes of `kheap_alloc` once the remainder, if any, is binned. */
  ghost function AllocBinsNow(h: Heap, sz: nat): Bins
    requires Inv(h) && Fits(h, sz)
  {
    var a := Found(h, sz);
    var rest := a + OVERHEAD + sz;
    if Splits(h, sz) then BinAdd(h.bins, rest, h.size[rest := h.size[a] - sz - OVERHEAD]) else h.bins
  }

  ghost function AllocNodes(h: Heap, sz: nat): set<int>
    requires Inv(h) && Fits(h, sz)
  {
    if Splits(h, sz) then h.free + {Found(h, sz) + OVERHEAD + sz} else h.free
  }

  /** What `kheap_alloc` has stored when it is about to unlink the found block. */
  ghost predicate AllocReady(m0: Ram, m: Ram, heads: seq<word>, h: Heap, sz: nat)
    requires Inv(h) && Fits(h, sz)
  {
    var a := Found(h, sz);
    var n := h.size[a] - sz - OVERHEAD;
    && Lists(m, heads, AllocBinsNow(h, sz), AllocNodes(h, sz))
    && Within(m0, m, AllocNodes(h, sz), a, Succ(h.size, a))
    && Record(m, a, if Splits(h, sz) then sz else h.size[a])
    && (Splits(h, sz) ==> Record(m, a + OVERHEAD + sz, n) && m[a + OVERHEAD + sz] == 1)
  }

  lemma AllocShape(h: Heap, sz: nat, a: int, rest: int, nodes: set<int>)
    requires Inv(h) && Fits(h, sz) && a == Found(h, sz) && rest == a + OVERHEAD + sz && nodes == AllocNodes(h, sz)
    ensures a in h.size && a in h.free && h.free <= h.size.Keys && |AllocBinsNow(h, sz)| == BIN_CNT
    ensures Apart(nodes) && NodesIn(h.size, a, nodes) && (forall d :: d in nodes && d in h.size ==> d in h.free)
    ensures Splits(h, sz) ==> rest !in h.size && rest + HEADER <= Succ(h.size, a)
    ensures Alloc(h, sz).bins == BinRemove(AllocBinsNow(h, sz), BinOf(h.size[a]), a)
    ensures Alloc(h, sz).free == nodes - {a}
    ensures Tiled(h.start, h.end, Alloc(h, sz).size) && nodes <= Alloc(h, sz).size.Keys
    ensures Alloc(h, sz).start == h.start && Alloc(h, sz).end == h.end
    ensures a in Alloc(h, sz).size && (Splits(h, sz) ==> rest in Alloc(h, sz).size)
    ensures a in nodes && (Splits(h, sz) ==> rest in nodes && rest != a && rest == Succ(Alloc(h, sz).size, a))
    ensures Alloc(h, sz).size[a] == if Splits(h, sz) then sz else h.size[a]
    ensures Splits(h, sz) ==> Alloc(h, sz).size[rest] == h.size[a] - sz - OVERHEAD
    ensures forall c :: c in Alloc(h, sz).size && c != a && !(Splits(h, sz) && c == rest) ==>
      Kept(h.size, a, h, Alloc(h, sz), c)
  {
    hide Tiled, Binned, Found, Fits, BinOf, Apart, BinAdd, BinRemove, Split;
    BinnedFree(h);
    TiledSizes(h, a);
    if Splits(h, sz) {
      SplitTiled(h.start, h.end, h.size, a, sz);
      BlocksApart(h.start, h.end, Split(h.size, a, sz), nodes);
    } else {
      BlocksApart(h.start, h.end, h.size, nodes);
    }
  }

  lemma FlagKeepsLists(m: Ram, m': Ram, heads: seq<word>, bins: Bins, nodes: set<int>, a: int)
    requires Lists(m, heads, bins, nodes) && Apart(nodes) && a in nodes
    requires SameOutside(m, m', a, a + 1)
    ensures Lists(m', heads, bins, nodes)
  {
    hide Load32, Linked, NoDup;
    ListsQuiet(m, m', heads, bins, nodes, nodes);
  }

  /** A block's record and flag survive list surgery among blocks of a tiling and
      stores inside the payload of a block that is not this one or not past it. */
  lemma RecordAfter(m1: Ram, m2: Ram, m3: Ram, start: int, end: int, size: Sizes, nodes: set<int>, c: int, lo: int,
                    hi: int)
    requires Tiled(start, end, size) && c in size && nodes <= size.Keys
    requires Record(m1, c, size[c]) && LinksOnly(m1, m2, nodes) && SameOutside(m2, m3, lo, hi)
    requires hi <= c || Succ(size, c) <= lo || (c + NEXT_AT <= lo && hi <= c + HEADER + size[c])
    ensures Record(m3, c, size[c]) && m3[c] == m1[c]
  {
    hide Load32, SizeWord, Tiled, LinksOnly;
    LinksWithin(m1, m2, nodes, nodes, 0, 0);
    Quiet(start, end, size, nodes, 0, 0, m1, m2, c);
    RecordQuiet(m1, m3, c, size[c]);
  }

  /** Clearing the payload of block `a` leaves the lists of the other blocks alone. */
  lemma PayloadKeepsLists(m: Ram, m': Ram, heads: seq<word>, h: Heap, nodes: set<int>, a: int)
    requires Inv(h) && a in h.size && a !in h.free && nodes <= h.size.Keys && Apart(nodes) && h.free <= nodes
    requires Lists(m, heads, h.bins, nodes)
    requires SameOutside(m, m', a + NEXT_AT, a + HEADER + h.size[a])
    ensures Lists(m', heads, h.bins, h.free)
  {
    hide Load32, Linked, Tiled, NoDup, SortedBy;
    forall c | c in nodes && c in h.free
      ensures Same(m, m', c + NEXT_AT, c + HEADER)
    {
      TiledApart(h.start, h.end, h.size, a, c);
      TiledSizes(h, c);
    }
    ListsQuiet(m, m', heads, h.bins, nodes, h.free);
  }

  /** Four steps, each within the same bounds. */
  lemma Within4(m0: Ram, m1: Ram, m2: Ram, m3: Ram, m4: Ram, nodes: set<int>, a: int, hi: int, v: int)
    requires Within(m0, m1, nodes, a, hi)
    requires SameOutside(m1, m2, a, a + 1) && LinksOnly(m2, m3, nodes)
    requires SameOutside(m3, m4, a + NEXT_AT, a + HEADER + v)
    requires 0 <= v && a + HEADER + v <= hi
    ensures Within(m0, m4, nodes, a, hi)
  {
    hide Within, SameOutside, LinksOnly;
    BytesWithin(m1, m2, nodes, a, hi, a, a + 1);
    WithinTrans(m0, m1, m2, nodes, a, hi);
    LinksWithin(m2, m3, nodes, nodes, a, hi);
    WithinTrans(m0, m2, m3, nodes, a, hi);
    BytesWithin(m3, m4, nodes, a, hi, a + NEXT_AT, a + HEADER + v);
    WithinTrans(m0, m3, m4, nodes, a, hi);
  }

  lemma AllocRecords(m1: Ram, m2: Ram, m3: Ram, m4: Ram, start: int, end: int, size: Sizes, nodes: set<int>, a: int,
                     split: bool, rest: int)
    requires Tiled(start, end, size) && nodes <= size.Keys && a in size && Record(m1, a, size[a])
    requires rest == Succ(size, a) && (split ==> rest in size && Record(m1, rest, size[rest]))
    requires SameOutside(m1, m2, a, a + 1) && LinksOnly(m2, m3, nodes)
    requires SameOutside(m3, m4, a + NEXT_AT, a + HEADER + size[a])
    ensures Record(m4, a, size[a]) && m4[a] == m2[a]
    ensures split ==> Record(m4, rest, size[rest]) && m4[rest] == m1[rest]
  {
    hide Load32, SizeWord, Tiled, LinksOnly;
    RecordQuiet(m1, m2, a, size[a]);
    RecordAfter(m2, m3, m4, start, end, size, nodes, a, a + NEXT_AT, a + HEADER + size[a]);
    if split {
      RecordQuiet(m1, m2, rest, size[rest]);
      RecordAfter(m2, m3, m4, start, end, size, nodes, rest, a + NEXT_AT, a + HEADER + size[a]);
    }
  }

  /** From m1, where the remainder is binned, `kheap_alloc` clears the flag (m2),
      unlinks the block (m3) and clears its payload (m4). */
  lemma AllocDone(m0: Ram, heads0: seq<word>, m1: Ram, m2: Ram, m3: Ram, m4: Ram, heads: seq<word>, h: Heap, sz: nat,
                  a: int, v: int, nodes: set<int>)
    requires Rep(m0, heads0, h) && Fits(h, sz) && a == Found(h, sz) && nodes == AllocNodes(h, sz)
    requires Within(m0, m1, nodes, a, Succ(h.size, a))
    requires v == (if Splits(h, sz) then sz else h.size[a]) && Record(m1, a, v)
    requires Splits(h, sz) ==> Record(m1, a + OVERHEAD + sz, h.size[a] - sz - OVERHEAD) && m1[a + OVERHEAD + sz] == 1
    requires SameOutside(m1, m2, a, a + 1) && m2[a] == 0
    requires LinksOnly(m2, m3, nodes) && Lists(m3, heads, Alloc(h, sz).bins, nodes)
    requires SameOutside(m3, m4, a + NEXT_AT, a + HEADER + v)
    ensures Rep(m4, heads, Alloc(h, sz)) && LiveSame(m0, m4, h)
  {
    hide Load32, SizeWord, Tiled, Binned, Lists, Within, LinksOnly, SameOutside, Found, Fits, Splits, Alloc;
    hide AllocNodes, Kept, Record;
    var h' := Alloc(h, sz);
    var rest := a + OVERHEAD + sz;
    AllocShape(h, sz, a, rest, nodes);
    AllocKeeps(h, sz);
    TiledSizes(h, a);
    Within4(m0, m1, m2, m3, m4, nodes, a, Succ(h.size, a), v);
    AllocRecords(m1, m2, m3, m4, h.start, h.end, h'.size, nodes, a, Splits(h, sz), Succ(h'.size, a));
    PayloadKeepsLists(m3, m4, heads, h', nodes, a);
    forall c | c in h'.size
      ensures Kept(h.size, a, h, h', c) || Written(m4, h', c)
    {
      assert c == a || (Splits(h, sz) && c == rest) || Kept(h.size, a, h, h', c);
    }
    Rebuild(m0, heads0, h, m4, heads, h', nodes, h.size, a);
    LiveQuiet(m0, m4, h, nodes, a);
  }

  lemma CutMeans(m0: Ram, m: Ram, heads: seq<word>, h: Heap, a: int, sz: nat)
    requires Inv(h) && Fits(h, sz) && a == Found(h, sz) && Splits(h, sz) && Cut(m0, m, heads, h, a, sz)
    ensures AllocReady(m0, m, heads, h, sz)
  {
    hide Lists, Record, Within, BinAdd, Tiled, Binned, Found, Fits;
  }

  lemma NotCut(m: Ram, heads: seq<word>, h: Heap, a: int, sz: nat)
    requires Rep(m, heads, h) && Fits(h, sz) && a == Found(h, sz) && !Splits(h, sz)
    ensures AllocReady(m, m, heads, h, sz)
  {
    hide Lists, Tiled, Binned, Found, Fits, Record;
  }

  // ------------------------------------------------------------- kheap_alloc_a

  /** The three blocks the wilderness `w` becomes. */
  lemma AllocAShape(h: Heap, w: int, sz: nat, n: int, ret: int, wild: int, nodes: set<int>, h': Heap)
    requires Inv(h) && FitsAligned(h, w, sz) && h' == AllocA(h, w, sz) && nodes == h.free + {wild}
    requires n == Extra(w) - OVERHEAD - OFFSET && ret == w + OVERHEAD + n && wild == ret + OVERHEAD + sz
    ensures 0 <= n && w in h.size && w in h.free && h.free <= h.size.Keys
    ensures |h.bins| == BIN_CNT && Succ(h.size, w) == h.end
    ensures IsHeader(w) && IsHeader(ret) && IsHeader(wild) && h.end + HEADER <= SPACE
    ensures Apart(nodes) && Apart(h.free) && NodesIn(h.size, w, nodes)
    ensures (forall d :: d in nodes && d in h.size ==> d in h.free)
    ensures ret !in h.size && wild !in h.size && h.size.Keys <= h'.size.Keys
    ensures h'.start == h.start && h'.end == h.end && h'.free == nodes
    ensures Tiled(h.start, h.end, h'.size) && nodes <= h'.size.Keys && ret in h'.size && ret !in h'.free
    ensures h'.size[w] == n && h'.size[ret] == sz && h'.size[wild] == h.size[w] - n - sz - 2 * OVERHEAD
    ensures Succ(h'.size, w) == ret && Succ(h'.size, ret) == wild && Succ(h'.size, wild) == h.end && 0 <= h'.size[wild]
    ensures forall c :: c in h'.size && c != w && c != ret && c != wild ==> Kept(h.size, w, h, h', c)
    ensures forall c :: c in h.free && c != w ==> c in h'.size && h'.size[c] == h.size[c]
    ensures h'.bins == BinAdd(BinAdd(BinRemove(h.bins, BinOf(h.size[w]), w), w, h'.size), wild, h'.size)
  {
    hide Tiled, Binned, BinOf, BinAdd, BinRemove, Extra;
    BinnedFree(h);
    TiledSizes(h, w);
    CarveTiled(h.start, h.end, h.size, w, n, sz);
    BlocksApart(h.start, h.end, h'.size, nodes);
    BlocksApart(h.start, h.end, h.size, h.free);
  }

  /** Bytes stored inside block `b`, but not in its links, leave the lists among the
      blocks of a tiling alone, and the sizes of the other blocks. */
  lemma StoresKeepLists(m: Ram, m': Ram, heads: seq<word>, bins: Bins, start: int, end: int, size: Sizes,
                        nodes: set<int>, b: int)
    requires Tiled(start, end, size) && b in size && nodes <= size.Keys && Apart(nodes)
    requires Lists(m, heads, bins, nodes)
    requires SameOutside(m, m', b, Succ(size, b)) && Same(m, m', b + NEXT_AT, b + HEADER)
    ensures Lists(m', heads, bins, nodes)
    ensures forall c {:trigger SizeWord(m', c)} :: c in nodes && c != b ==> SizeWord(m', c) == SizeWord(m, c)
  {
    hide Load32, SizeWord, Linked, NoDup, Tiled;
    forall c | c in nodes && c != b
      ensures Same(m, m', c, c + HEADER) && SizeWord(m', c) == SizeWord(m, c)
    {
      TiledApart(start, end, size, b, c);
      assert 0 <= size[c] by { TiledNat(start, end, size, c); }
      SizeSame(m, m', c);
    }
    ListsQuiet(m, m', heads, bins, nodes, nodes) by { BinsInNodes(m, heads, bins, nodes); }
  }

  lemma TiledNat(start: int, end: int, size: Sizes, c: int)
    requires Tiled(start, end, size) && c in size
    ensures 0 <= size[c]
  {
  }

  /** Memory after the wilderness shrank to its first `n` bytes and was binned anew. */
  ghost predicate Shrunk(m0: Ram, m: Ram, heads: seq<word>, h: Heap, w: int, n: int, size': Sizes) {
    && |h.bins| == BIN_CNT && w in h.size
    && Lists(m, heads, BinAdd(BinRemove(h.bins, BinOf(h.size[w]), w), w, size'), h.free)
    && Within(m0, m, h.free, w, Succ(h.size, w))
    && Record(m, w, n) && m[w] == 1
    && Apart(h.free) && Sized(m, h.free, size')
  }

  lemma RemovedGone(size: Sizes, free: set<int>, bins: Bins, w: int)
    requires Binned(size, free, bins) && w in free
    ensures forall i :: 0 <= i < BIN_CNT ==> w !in BinRemove(bins, BinOf(size[w]), w)[i]
  {
    hide BinRemove, NoDup, SortedBy, BinOf;
    BinRemoveKeeps(size, free, bins, w);
  }

  /** The five steps of shrinking: flag, unlink, record, flag, link. */
  lemma ShrunkWithin(m0: Ram, m1: Ram, m2: Ram, m3: Ram, m4: Ram, nodes: set<int>, w: int, hi: int, n: int)
    requires SameOutside(m0, m1, w, w + 1) && LinksOnly(m1, m2, nodes)
    requires SameOutside(m2, m3, w, w + OVERHEAD + n) && LinksOnly(m3, m4, nodes)
    requires 0 <= n && w + OVERHEAD + n <= hi
    ensures Within(m0, m4, nodes, w, hi)
  {
    hide Within, SameOutside, LinksOnly;
    BytesWithin(m0, m1, nodes, w, hi, w, w + 1);
    LinksWithin(m1, m2, nodes, nodes, w, hi);
    WithinTrans(m0, m1, m2, nodes, w, hi);
    BytesWithin(m2, m3, nodes, w, hi, w, w + OVERHEAD + n);
    WithinTrans(m0, m2, m3, nodes, w, hi);
    LinksWithin(m3, m4, nodes, nodes, w, hi);
    WithinTrans(m0, m3, m4, nodes, w, hi);
  }

  lemma RepRecord(m: Ram, heads: seq<word>, h: Heap, a: int)
    requires Rep(m, heads, h) && a in h.size
    ensures Record(m, a, h.size[a])
  {
  }

  lemma LastUnique(h: Heap, v: int, w: int)
    requires Inv(h) && IsLast(h, v) && IsLast(h, w)
    ensures v == w
  {
    PredUnique(h.start, h.end, h.size, v, w);
  }

  /** Laying out the two blocks behind the shrunk wilderness leaves the lists alone
      and gives the new wilderness the size it is binned under. */
  lemma ShrunkMore(m0: Ram, m1: Ram, m2: Ram, heads: seq<word>, h: Heap, w: int, n: int, h': Heap, ret: int, wild: int)
    requires Inv(h) && w in h.size && w in h.free && Shrunk(m0, m1, heads, h, w, n, h'.size)
    requires Tiled(h.start, h.end, h'.size) && w in h'.size && ret in h'.size && wild in h'.size && wild !in h.size
    requires Succ(h'.size, w) == ret && Succ(h.size, w) == h.end && 0 <= n
    requires h.free + {wild} <= h'.size.Keys && ret !in h.free && w != ret
    requires SameOutside(m1, m2, ret, h.end) && Record(m2, wild, h'.size[wild])
    requires Apart(h.free + {wild})
    ensures var bins := BinAdd(BinRemove(h.bins, BinOf(h.size[w]), w), w, h'.size);
      && Lists(m2, heads, bins, h.free + {wild})
      && Sized(m2, h.free + {wild}, h'.size)
      && (forall i :: 0 <= i < BIN_CNT ==> wild !in bins[i])
  {
    hide Load32, SizeWord, Linked, NoDup, SortedBy, Tiled, BinAdd, BinRemove, Within, Lists;
    var nodes := h.free + {wild};
    var bins := BinAdd(BinRemove(h.bins, BinOf(h.size[w]), w), w, h'.size);
    forall c | c in h.free
      ensures Same(m1, m2, c, c + HEADER) && SizeWord(m2, c) == h'.size[c]
    {
      assert c + HEADER <= ret by {
        if c != w { TiledApart(h.start, h.end, h.size, w, c); TiledSizes(h, c); }
      }
      assert SizeWord(m1, c) == At(h'.size, c);
      SizeSame(m1, m2, c);
    }
    BinsInNodes(m1, heads, bins, h.free);
    ListsQuiet(m1, m2, heads, bins, h.free, nodes);
  }

  /** Memory when the new wilderness is binned (m3) and the payload cleared (m4). */
  lemma AllocADone(m0: Ram, heads0: seq<word>, m1: Ram, m2: Ram, m3: Ram, m4: Ram, heads: seq<word>, h: Heap, w: int,
                   sz: nat, n: int, ret: int, wild: int, nodes: set<int>, h': Heap)
    requires Rep(m0, heads0, h) && FitsAligned(h, w, sz) && h' == AllocA(h, w, sz) && nodes == h.free + {wild}
    requires n == Extra(w) - OVERHEAD - OFFSET && ret == w + OVERHEAD + n && wild == ret + OVERHEAD + sz
    requires w in h.size && Within(m0, m1, h.free, w, Succ(h.size, w)) && Record(m1, w, n) && m1[w] == 1
    requires SameOutside(m1, m2, ret, h.end)
    requires Record(m2, ret, sz) && m2[ret] == 0 && Record(m2, wild, h.size[w] - n - sz - 2 * OVERHEAD) && m2[wild] == 1
    requires LinksOnly(m2, m3, nodes) && Lists(m3, heads, h'.bins, nodes)
    requires SameOutside(m3, m4, ret + NEXT_AT, ret + HEADER + sz)
    ensures Rep(m4, heads, h') && LiveSame(m0, m4, h)
  {
    hide Load32, SizeWord, Tiled, Binned, Lists, Within, LinksOnly, AllocA, FitsAligned, Kept;
    AllocAShape(h, w, sz, n, ret, wild, nodes, h');
    AllocAKeeps(h, w, sz);
    RecordQuiet(m1, m2, w, n);
    RecordAfter(m2, m3, m4, h.start, h.end, h'.size, nodes, w, ret + NEXT_AT, ret + HEADER + sz);
    RecordAfter(m2, m3, m4, h.start, h.end, h'.size, nodes, ret, ret + NEXT_AT, ret + HEADER + sz);
    RecordAfter(m2, m3, m4, h.start, h.end, h'.size, nodes, wild, ret + NEXT_AT, ret + HEADER + sz);
    AllocAWithin(m0, m1, m2, m3, m4, h.free, nodes, w, h.end, ret, sz);
    PayloadKeepsLists(m3, m4, heads, h', nodes, ret);
    forall c | c in h'.size
      ensures Kept(h.size, w, h, h', c) || Written(m4, h', c)
    {
      assert c == w || c == ret || c == wild || Kept(h.size, w, h, h', c);
    }
    Rebuild(m0, heads0, h, m4, heads, h', nodes, h.size, w);
    LiveQuiet(m0, m4, h, nodes, w);
  }

  lemma AllocAWithin(m0: Ram, m1: Ram, m2: Ram, m3: Ram, m4: Ram, free: set<int>, nodes: set<int>, w: int, end: int,
                     ret: int, sz: int)
    requires Within(m0, m1, free, w, end) && free <= nodes && SameOutside(m1, m2, ret, end)
    requires LinksOnly(m2, m3, nodes) && SameOutside(m3, m4, ret + NEXT_AT, ret + HEADER + sz)
    requires w <= ret && 0 <= sz && ret + HEADER + sz <= end
    ensures Within(m0, m4, nodes, w, end)
  {
    hide SameOutside, LinksOnly;
    assert Within(m0, m1, nodes, w, end);
    BytesWithin(m1, m2, nodes, w, end, ret, end);
    WithinTrans(m0, m1, m2, nodes, w, end);
    LinksWithin(m2, m3, nodes, nodes, w, end);
    WithinTrans(m0, m2, m3, nodes, w, end);
    BytesWithin(m3, m4, nodes, w, end, ret + NEXT_AT, ret + HEADER + sz);
    WithinTrans(m0, m3, m4, nodes, w, end);
  }

  // ---------------------------------------------------------------- kheap_free

  /** No byte of a live block other than the freed one has changed. */
  ghost predicate OtherLiveSame(m: Ram, m': Ram, h: Heap, a: int) {
    forall c :: c in h.size && c !in h.free && c != a ==> Same(m, m', c, Succ(h.size, c))
  }

  ghost predicate Gone(bins: Bins, a: int) {
    forall i :: 0 <= i < |bins| ==> a !in bins[i]
  }

  /** The layout between the two merges of `kheap_free`, and the bins. */
  ghost function FreeSize1(h: Heap, p: int): Sizes
    requires p in h.size && Succ(h.size, p) in h.size
  {
    if p in h.free then Merge(h.size, p) else h.size
  }

  ghost function FreeBins1(h: Heap, p: int): (r: Bins)
    requires p in h.size && |h.bins| == BIN_CNT
    ensures |r| == BIN_CNT
  {
    if p in h.free then BinRemove(h.bins, BinOf(h.size[p]), p) else h.bins
  }

  ghost function FreeBins2(h: Heap, p: int, n: int): (r: Bins)
    requires p in h.size && |h.bins| == BIN_CNT
    ensures |r| == BIN_CNT
  {
    if n in h.free then BinRemove(FreeBins1(h, p), BinOf(At(h.size, n)), n) else FreeBins1(h, p)
  }

  /** The nodes left in the bins while the merged block is in none. */
  ghost function FreeNodes(h: Heap, p: int, n: int): set<int> {
    h.free - (if p in h.free then {p} else {}) - (if n in h.free then {n} else {})
  }

  lemma FreeLayout(h: Heap, a: int, p: int, n: int, b: int, size1: Sizes, h': Heap)
    requires Inv(h) && a in h.size && a !in h.free && a != h.start
    requires p == Pred(h.start, h.end, h.size, a) && n == Succ(h.size, a)
    requires b == (if p in h.free then p else a) && size1 == FreeSize1(h, p) && h' == Free(h, a)
    ensures |h.bins| == BIN_CNT && h.free <= h.size.Keys
    ensures Apart(h.free + {a}) && p < a < n <= h.end && h.end !in h.free
    ensures h'.start == h.start && h'.end == h.end && h'.free == h.free - {n} + {b}
    ensures Tiled(h.start, h.end, size1) && b in size1 && Succ(size1, b) == n
    ensures h.free <= size1.Keys
    ensures forall c :: c in size1 && c != b ==> c in h.size && size1[c] == h.size[c]
    ensures n != h.end ==> n in size1 && n in h.size && size1[n] == h.size[n]
    ensures n in h.free ==> n in size1 && h'.size == Merge(size1, b)
    ensures n !in h.free ==> h'.size == size1
    ensures Tiled(h.start, h.end, h'.size) && b in h'.size && b in h.size && h'.free <= h'.size.Keys
    ensures Succ(h'.size, b) == if n in h.free then Succ(h.size, n) else n
  {
    hide Tiled, Binned, BinAdd, BinRemove, BinOf;
    BinnedFree(h);
    FreeFacts(h, a, p, n);
    TiledSizes(h, a);
    BlocksApart(h.start, h.end, h.size, h.free + {a});
    if p in h.free { MergeTiled(h.start, h.end, h.size, p); }
    if n in h.free { MergeTiled(h.start, h.end, size1, b); }
  }

  lemma FreeKept(h: Heap, a: int, p: int, n: int, b: int, size1: Sizes, h': Heap)
    requires Inv(h) && a in h.size && a !in h.free && a != h.start
    requires p == Pred(h.start, h.end, h.size, a) && n == Succ(h.size, a)
    requires b == (if p in h.free then p else a) && size1 == FreeSize1(h, p) && h' == Free(h, a)
    ensures b in h'.size && b in h.size
    ensures forall c :: c in h'.size && c != b ==> Kept(h'.size, b, h, h', c)
    ensures forall c :: c in h.size && c !in h.free && c != a ==> c in h'.size && c != b && h'.size[c] == h.size[c]
    ensures NodesIn(h'.size, b, h.free + {a})
  {
    hide Tiled, Binned, Free;
    FreeLayout(h, a, p, n, b, size1, h');
    TiledSizes(h, a);
    if n in h.free { TiledSizes(h, n); }
    assert forall c :: c in h'.size && c != b ==>
      c in h.size && h'.size[c] == h.size[c] && (c in h.free <==> c in h'.free);
    assert forall c :: c in h.size && c !in h.free && c != a ==> c in h'.size;
    assert forall d :: d in h.free + {a} && d !in h'.size ==> d == a || d == n;
  }

  lemma FreeGone(h: Heap, a: int, p: int, n: int, b: int)
    requires Inv(h) && a in h.size && a !in h.free && a != h.start
    requires p == Pred(h.start, h.end, h.size, a) && n == Succ(h.size, a) && p != n
    requires b == (if p in h.free then p else a)
    ensures |h.bins| == BIN_CNT
    ensures forall i, c :: 0 <= i < BIN_CNT && c in FreeBins1(h, p)[i] ==>
      c in if p in h.free then h.free - {p} else h.free
    ensures forall i, c :: 0 <= i < BIN_CNT && c in FreeBins2(h, p, n)[i] ==> c in FreeNodes(h, p, n)
    ensures Gone(FreeBins2(h, p, n), b)
  {
    hide Tiled, Binned, BinRemove, BinOf;
    BinnedFree(h);
    var free1 := if p in h.free then h.free - {p} else h.free;
    if p in h.free { BinRemoveKeeps(h.size, h.free, h.bins, p); }
    assert Binned(h.size, free1, FreeBins1(h, p));
    var bins1, bins2 := FreeBins1(h, p), FreeBins2(h, p, n);
    BinnedOnly(h.size, free1, bins1);
    assert forall i, c :: 0 <= i < BIN_CNT && c in bins1[i] ==> c in free1;
    assert b !in free1;
    if n in h.free {
      BinRemoveKeeps(h.size, free1, bins1, n);
      BinnedOnly(h.size, free1 - {n}, bins2);
      assert forall i, c :: 0 <= i < BIN_CNT && c in bins2[i] ==> c in free1 - {n};
    }
    var free2 := FreeNodes(h, p, n);
    assert free2 == if n in h.free then free1 - {n} else free1;
    forall i, c | 0 <= i < BIN_CNT && c in bins2[i]
      ensures c in free2
    {
      if n !in h.free { assert c in bins1[i]; }
    }
    assert b !in free2;
  }

  lemma BinnedOnly(size: Sizes, free: set<int>, bins: Bins)
    requires Binned(size, free, bins)
    ensures |bins| == BIN_CNT && forall i, c :: 0 <= i < BIN_CNT && c in bins[i] ==> c in free
  {
  }

  /** The heap is as it was outside the region of block `b` in the layout `size`,
      whose first block has its record, and the lists are `bins`. */
  ghost predicate Merging(m0: Ram, m: Ram, heads: seq<word>, h: Heap, size: Sizes, b: int, bins: Bins,
                          nodes: set<int>) {
    && Tiled(h.start, h.end, size) && b in size
    && Lists(m, heads, bins, nodes)
    && Within(m0, m, h.free, b, Succ(size, b))
    && Record(m, b, size[b])
  }

  /** No merge has happened yet. */
  lemma MergingStart(m: Ram, heads: seq<word>, h: Heap, a: int)
    requires Rep(m, heads, h) && a in h.size
    ensures Merging(m, m, heads, h, h.size, a, h.bins, h.free)
  {
    hide Tiled, Binned, Lists, Record, Flagged;
  }

  /** After `b` has taken its successor in: unlink (m1), then stores inside `b` (m2). */
  lemma MergingStep(m0: Ram, m: Ram, heads: seq<word>, h: Heap, size: Sizes, b: int, bins: Bins, nodes: set<int>,
                    m1: Ram, heads1: seq<word>, m2: Ram, bins1: Bins, nodes1: set<int>)
    requires Merging(m0, m, heads, h, size, b, bins, nodes)
    requires Succ(size, b) in size && nodes <= h.free && Apart(h.free)
    requires LinksOnly(m, m1, nodes) && Lists(m1, heads1, bins1, nodes)
    requires nodes1 <= nodes && nodes1 <= Merge(size, b).Keys
    requires forall i, c :: 0 <= i < BIN_CNT && c in bins1[i] ==> c in nodes1
    requires SameOutside(m1, m2, b, Succ(size, Succ(size, b))) && Same(m1, m2, b + NEXT_AT, b + HEADER)
    requires Record(m2, b, Merge(size, b)[b])
    ensures Merging(m0, m2, heads1, h, Merge(size, b), b, bins1, nodes1)
  {
    hide Load32, SizeWord, Tiled, Lists, Within, LinksOnly, SameOutside, Record, Merge, Apart;
    var size' := Merge(size, b);
    MergeTiled(h.start, h.end, size, b);
    TiledNat(h.start, h.end, size, b);
    assert b != Succ(size, b);
    var hi := Succ(size', b);
    assert Succ(size, b) <= hi by { TiledNat(h.start, h.end, size, Succ(size, b)); }
    assert Within(m0, m, h.free, b, hi) by { WithinMore(m0, m, h.free, b, Succ(size, b), hi); }
    LinksWithin(m, m1, nodes, h.free, b, hi);
    WithinTrans(m0, m, m1, h.free, b, hi);
    BytesWithin(m1, m2, h.free, b, hi, b, hi);
    WithinTrans(m0, m1, m2, h.free, b, hi);
    ListsFewer(m1, heads1, bins1, nodes, nodes1);
    StoresKeepLists(m1, m2, heads1, bins1, h.start, h.end, size', nodes1, b) by { ApartFewer(h.free, nodes1); }
  }

  lemma WithinMore(m: Ram, m': Ram, nodes: set<int>, lo: int, hi: int, hi': int)
    requires Within(m, m', nodes, lo, hi) && hi <= hi'
    ensures Within(m, m', nodes, lo, hi')
  {
  }

  lemma ApartFewer(nodes: set<int>, nodes': set<int>)
    requires Apart(nodes) && nodes' <= nodes
    ensures Apart(nodes')
  {
  }

  lemma ListsFewer(m: Ram, heads: seq<word>, bins: Bins, nodes: set<int>, nodes': set<int>)
    requires Lists(m, heads, bins, nodes)
    requires forall i, c :: 0 <= i < BIN_CNT && c in bins[i] ==> c in nodes'
    ensures Lists(m, heads, bins, nodes')
  {
    hide Linked, NoDup;
  }

  /** List surgery among the blocks of a layout does not touch a record. */
  lemma LinksRecord(m: Ram, m': Ram, start: int, end: int, size: Sizes, nodes: set<int>, c: int)
    requires Tiled(start, end, size) && c in size && nodes <= size.Keys
    requires LinksOnly(m, m', nodes) && Record(m, c, size[c])
    ensures Record(m', c, size[c]) && m'[c] == m[c]
  {
    hide Load32, SizeWord, Tiled, LinksOnly;
    LinksWithin(m, m', nodes, nodes, 0, 0);
    TiledNat(start, end, size, c);
    Quiet(start, end, size, nodes, 0, 0, m, m', c);
    RecordQuiet(m, m', c, size[c]);
  }

  lemma RemovedOnly(h: Heap, p: int)
    requires Inv(h) && p in h.free && p in h.size
    ensures forall i, c :: 0 <= i < BIN_CNT && c in BinRemove(h.bins, BinOf(h.size[p]), p)[i] ==> c in h.free - {p}
  {
    hide Tiled, Binned, BinRemove, BinOf;
    BinRemoveKeeps(h.size, h.free, h.bins, p);
    BinnedOnly(h.size, h.free - {p}, BinRemove(h.bins, BinOf(h.size[p]), p));
  }

  /** What the last steps of `kheap_free` start from: the merged block `b` has its
      record and is in no bin, every other block of `h'` is one of `h`. */
  ghost predicate Merged(m0: Ram, heads0: seq<word>, m: Ram, heads: seq<word>, h: Heap, a: int, b: int, h': Heap,
                         bins: Bins, nodes: set<int>) {
    && Rep(m0, heads0, h) && a in h.size && a !in h.free && Inv(h')
    && h'.start == h.start && h'.end == h.end
    && Merging(m0, m, heads, h, h'.size, b, bins, nodes)
    && h'.free == nodes + {b} && b !in nodes && nodes <= h.free && b in h.size && (b == a || b in h.free)
    && |bins| == BIN_CNT && Gone(bins, b) && h'.bins == BinAdd(bins, b, h'.size)
    && (forall c :: c in h'.size && c != b ==> Kept(h'.size, b, h, h', c))
    && NodesIn(h'.size, b, h.free + {a}) && Apart(h.free + {a})
  }

  /** With the flag set, the merged block can be binned. */
  lemma MergedBin(m0: Ram, heads0: seq<word>, m: Ram, heads: seq<word>, h: Heap, a: int, b: int, h': Heap, bins: Bins,
                  nodes: set<int>, m1: Ram)
    requires Merged(m0, heads0, m, heads, h, a, b, h', bins, nodes)
    requires SameOutside(m, m1, b, b + 1)
    ensures Apart(h'.free) && Lists(m1, heads, bins, h'.free) && Sized(m1, h'.free, h'.size)
    ensures IsHeader(b) && Record(m1, b, h'.size[b])
  {
    hide Load32, SizeWord, Tiled, Binned, Linked, NoDup, Flagged, Within, Kept, Rep;
    ApartFewer(h.free + {a}, h'.free);
    ListsQuiet(m, m1, heads, bins, nodes, h'.free) by { ApartFewer(h.free + {a}, nodes); }
    RecordQuiet(m, m1, b, h'.size[b]);
    forall c | c in h'.free
      ensures SizeWord(m1, c) == At(h'.size, c)
    {
      assert c in h'.size by { BinnedFree(h'); }
      if c != b {
        NodesFewer(h'.size, b, h.free, h.free + {a});
        KeptQuiet(m0, m, heads0, h, h', h.free, h'.size, b, c);
        SizeSame(m, m1, c);
      }
    }
  }

  lemma NodesFewer(g: Sizes, a: int, nodes: set<int>, nodes': set<int>)
    requires a in g && NodesIn(g, a, nodes') && nodes <= nodes'
    ensures NodesIn(g, a, nodes)
  {
  }

  /** Binning the merged block completes the free. */
  lemma MergedDone(m0: Ram, heads0: seq<word>, m: Ram, heads: seq<word>, h: Heap, a: int, b: int, h': Heap, bins: Bins,
                   nodes: set<int>, m1: Ram, m2: Ram, heads2: seq<word>)
    requires Merged(m0, heads0, m, heads, h, a, b, h', bins, nodes)
    requires SameOutside(m, m1, b, b + 1) && m1[b] == 1
    requires LinksOnly(m1, m2, h'.free) && Lists(m2, heads2, h'.bins, h'.free)
    ensures Rep(m2, heads2, h')
    ensures Within(m0, m2, h.free + {a}, b, Succ(h'.size, b))
  {
    hide Load32, SizeWord, Tiled, Binned, Linked, NoDup, Flagged, Within, Kept, Rep, LinksOnly, Lists, Record;
    hide SameOutside;
    var all := h.free + {a};
    var hi := Succ(h'.size, b);
    TiledSizes(h', b);
    assert Within(m0, m, all, b, hi) by { WithinWider(m0, m, h.free, all, b, hi); }
    BytesWithin(m, m1, all, b, hi, b, b + 1);
    WithinTrans(m0, m, m1, all, b, hi);
    LinksWithin(m1, m2, h'.free, all, b, hi);
    WithinTrans(m0, m1, m2, all, b, hi);
    BinnedFree(h');
    FlagRecord(m, m1, b, h'.size[b]);
    LinksRecord(m1, m2, h.start, h.end, h'.size, h'.free, b);
    Rebuild(m0, heads0, h, m2, heads2, h', all, h'.size, b);
  }

  lemma FlagRecord(m: Ram, m1: Ram, b: int, v: int)
    requires Record(m, b, v) && SameOutside(m, m1, b, b + 1)
    ensures Record(m1, b, v)
  {
    hide Load32, SizeWord;
    RecordQuiet(m, m1, b, v);
  }

  lemma WithinWider(m: Ram, m': Ram, nodes: set<int>, nodes': set<int>, lo: int, hi: int)
    requires Within(m, m', nodes, lo, hi) && nodes <= nodes'
    ensures Within(m, m', nodes', lo, hi)
  {
  }

  /** The free leaves every other live block alone. */
  lemma OthersLive(m0: Ram, m: Ram, h: Heap, a: int, b: int, h': Heap)
    requires Inv(h) && Inv(h') && h'.start == h.start && h'.end == h.end && a !in h.free && b in h'.size
    requires forall c :: c in h.size && c !in h.free && c != a ==> c in h'.size && c != b && h'.size[c] == h.size[c]
    requires NodesIn(h'.size, b, h.free + {a}) && Within(m0, m, h.free + {a}, b, Succ(h'.size, b))
    ensures OtherLiveSame(m0, m, h, a)
  {
    hide Tiled, Binned, Within, Same;
    forall c | c in h.size && c !in h.free && c != a
      ensures Same(m0, m, c, Succ(h.size, c))
    {
      TiledApart(h.start, h.end, h'.size, b, c);
      Quiet(h.start, h.end, h'.size, h.free + {a}, b, Succ(h'.size, b), m0, m, c);
    }
  }

  /** What the second merge finds behind the first. */
  lemma NextQuiet(m0: Ram, heads0: seq<word>, m: Ram, h: Heap, size: Sizes, b: int, n: int)
    requires Rep(m0, heads0, h) && Tiled(h.start, h.end, size) && b in size
    requires n == Succ(size, b) && NodesIn(size, b, h.free)
    requires Within(m0, m, h.free, b, n)
    requires n != h.end ==> n in size && n in h.size && size[n] == h.size[n]
    ensures 0 <= n < SPACE && m[n] == m0[n]
    ensures n != h.end ==> Record(m, n, size[n])
  {
    hide Load32, SizeWord, Binned, Lists, Within, Tiled;
    if n == h.end {
      EndQuiet(m0, m, h.start, h.end, h.free, size, b);
    } else {
      RepRecord(m0, heads0, h, n);
      TiledNat(h.start, h.end, size, n);
      Quiet(h.start, h.end, size, h.free, b, n, m0, m, n);
      RecordQuiet(m0, m, n, size[n]);
    }
  }

  lemma MergedHeader(m0: Ram, heads0: seq<word>, m: Ram, heads: seq<word>, h: Heap, a: int, b: int, h': Heap,
                     bins: Bins, nodes: set<int>)
    requires Merged(m0, heads0, m, heads, h, a, b, h', bins, nodes)
    ensures IsHeader(b)
  {
    hide Rep, Inv, Lists, Tiled, Within, Kept;
  }

  /** Freeing the first block merges nothing. */
  lemma FirstMerged(m: Ram, heads: seq<word>, h: Heap, h': Heap)
    requires Rep(m, heads, h) && h.start !in h.free && h.start in h.size && h' == Free(h, h.start)
    ensures h'.start == h.start && h'.end == h.end
    ensures Merged(m, heads, m, heads, h, h.start, h.start, h', h.bins, h.free)
  {
    hide Load32, SizeWord, Tiled, Binned, Lists, Flagged, Record, Within, BinAdd;
    FreeKeeps(h, h.start);
    BinnedFree(h);
    BinnedOnly(h.size, h.free, h.bins);
    MergingStart(m, heads, h, h.start);
    BlocksApart(h.start, h.end, h.size, h.free + {h.start});
  }

  lemma FirstLive(m0: Ram, m: Ram, h: Heap, h': Heap)
    requires Inv(h) && h.start !in h.free && h.start in h.size && h' == Free(h, h.start)
    requires h.start in h'.size && Within(m0, m, h.free + {h.start}, h.start, Succ(h'.size, h.start))
    ensures OtherLiveSame(m0, m, h, h.start)
  {
    hide Tiled, Binned, Within, BinAdd, OtherLiveSame;
    FreeKeeps(h, h.start);
    BinnedFree(h);
    OthersLive(m0, m, h, h.start, h.start, h');
  }

  lemma InnerMerged(m0: Ram, heads0: seq<word>, m: Ram, heads: seq<word>, h: Heap, a: int, p: int, n: int, b: int,
                    h': Heap)
    requires Rep(m0, heads0, h) && a in h.size && a !in h.free && a != h.start
    requires p == Pred(h.start, h.end, h.size, a) && n == Succ(h.size, a)
    requires b == (if p in h.free then p else a) && h' == Free(h, a)
    requires |h.bins| == BIN_CNT && Merging(m0, m, heads, h, h'.size, b, FreeBins2(h, p, n), FreeNodes(h, p, n))
    ensures h'.start == h.start && h'.end == h.end
    ensures Merged(m0, heads0, m, heads, h, a, b, h', FreeBins2(h, p, n), FreeNodes(h, p, n))
  {
    hide Load32, SizeWord, Tiled, Binned, Lists, Flagged, Record, Within, BinAdd, BinRemove, Merging, Kept, NodesIn;
    hide Gone, Apart;
    FreeKeeps(h, a);
    FreeLayout(h, a, p, n, b, FreeSize1(h, p), h');
    FreeKept(h, a, p, n, b, FreeSize1(h, p), h');
    FreeGone(h, a, p, n, b);
    FreeBinsAre(h, a, p, n, b, h');
    assert h'.free == FreeNodes(h, p, n) + {b};
  }

  lemma FreeBinsAre(h: Heap, a: int, p: int, n: int, b: int, h': Heap)
    requires Inv(h) && a in h.size && a !in h.free && a != h.start
    requires p == Pred(h.start, h.end, h.size, a) && n == Succ(h.size, a)
    requires b == (if p in h.free then p else a) && h' == Free(h, a)
    ensures h'.bins == BinAdd(FreeBins2(h, p, n), b, h'.size)
  {
    hide Tiled, BinAdd, BinRemove, NoDup, SortedBy, BinOf;
  }

  lemma FirstMergeQuiet(m0: Ram, heads0: seq<word>, m: Ram, heads: seq<word>, h: Heap, size: Sizes, b: int, n: int,
                        bins: Bins, nodes: set<int>)
    requires Rep(m0, heads0, h) && Merging(m0, m, heads, h, size, b, bins, nodes) && n == Succ(size, b)
    requires h.free <= size.Keys
    requires n != h.end ==> n in size && n in h.size && size[n] == h.size[n]
    ensures 0 <= n < SPACE && m[n] == m0[n]
    ensures n != h.end ==> Record(m, n, size[n])
  {
    hide Tiled, Lists, Within, Record, Rep;
    NextQuiet(m0, heads0, m, h, size, b, n);
  }

  // ---------------------------------------------------------------- kheap_init

  lemma InitDone(m0: Ram, m1: Ram, m2: Ram, m3: Ram, m4: Ram, heads: seq<word>, h: Heap, start: int, end: int)
    requires 0 < start && start + OVERHEAD <= end && end + HEADER <= SPACE && h == Init(start, end) && m0[end] == 0
    requires SameOutside(m0, m1, start + SIZE_AT, start + NEXT_AT) && SizeWord(m1, start) == end - start - OVERHEAD
    requires LinksOnly(m1, m2, {start}) && SizeWord(m2, start) == end - start - OVERHEAD
    requires SameOutside(m2, m3, end - FOOTER, end) && Load32(m3, end - FOOTER) == start
    requires LinksOnly(m3, m4, {start}) && SizeWord(m4, start) == end - start - OVERHEAD
    requires Lists(m4, heads, h.bins, {start})
    ensures Rep(m4, heads, h) && SameOutside(m0, m4, start, end)
  {
    hide SizeWord, Lists, Load32, BinAdd;
    InitKeeps(start, end);
    LoadSame(m3, m4, end - FOOTER);
    assert forall x :: 0 <= x < SPACE && !(start <= x < end) ==> m4[x] == m0[x];
    assert h.size.Keys == {start} && h.free == {start};
  }
}
