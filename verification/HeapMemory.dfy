/** How memory represents a heap: headers, footers, flags and linked bins. */
module HeapMemory {
  import opened Memory
  import opened BinIndex
  import opened HeapSpec
  import opened HeapInvariant
  import opened BinLists

  const FOOTER: nat := 4

  /** The record of a block of `v` bytes at `b`: its size and its footer. */
  ghost predicate Record(m: Ram, b: int, v: int) {
    && IsHeader(b) && 0 <= v && b + v + OVERHEAD <= SPACE
    && SizeWord(m, b) == v
    && Load32(m, b + HEADER + v) == b
  }

  /** The memories differ only in the size word and the footer of such a record. */
  ghost predicate RecordOnly(m: Ram, m': Ram, b: int, v: int) {
    forall x :: 0 <= x < SPACE && !(b + SIZE_AT <= x < b + NEXT_AT) && !(b + HEADER + v <= x < b + OVERHEAD + v) ==>
      m'[x] == m[x]
  }

  /** A record survives what leaves its bytes alone. */
  lemma RecordQuiet(m: Ram, m': Ram, b: int, v: int)
    requires Record(m, b, v)
    requires Same(m, m', b + SIZE_AT, b + NEXT_AT) && Same(m, m', b + HEADER + v, b + OVERHEAD + v)
    ensures Record(m', b, v)
  {
    hide Load32;
    LoadSame(m, m', b + SIZE_AT);
    LoadSame(m, m', b + HEADER + v);
  }

  /** The initial heap, whose only block never had its flag set. */
  ghost predicate Untouched(h: Heap) {
    h.size.Keys == {h.start} && h.start in h.free
  }

  /** The flag of every block says whether it is a hole, and the header that would
      follow the last block says it is none. */
  ghost predicate Flagged(m: Ram, h: Heap) {
    && 0 <= h.end < SPACE && m[h.end] == 0
    && (!Untouched(h) ==> forall a :: a in h.size && IsHeader(a) ==> (m[a] != 0 <==> a in h.free))
  }

  /** Memory `m` with bin heads `heads` represents the heap `h`. */
  ghost predicate Rep(m: Ram, heads: seq<word>, h: Heap) {
    && Inv(h)
    && Lists(m, heads, h.bins, h.free)
    && (forall a :: a in h.size ==> Record(m, a, h.size[a]))
    && Flagged(m, h)
  }

  /** The memories differ only in links of `nodes` and on [lo, hi). */
  ghost predicate Within(m: Ram, m': Ram, nodes: set<int>, lo: int, hi: int) {
    forall x :: 0 <= x < SPACE && m'[x] != m[x] ==>
      lo <= x < hi || exists a :: a in nodes && a + NEXT_AT <= x < a + HEADER
  }

  lemma WithinTrans(m: Ram, m1: Ram, m2: Ram, nodes: set<int>, lo: int, hi: int)
    requires Within(m, m1, nodes, lo, hi) && Within(m1, m2, nodes, lo, hi)
    ensures Within(m, m2, nodes, lo, hi)
  {
    forall x | 0 <= x < SPACE && m2[x] != m[x]
      ensures lo <= x < hi || exists a :: a in nodes && a + NEXT_AT <= x < a + HEADER
    {
      if m1[x] != m[x] { } else { assert m2[x] != m1[x]; }
    }
  }

  lemma LinksWithin(m: Ram, m1: Ram, nodes: set<int>, nodes': set<int>, lo: int, hi: int)
    requires LinksOnly(m, m1, nodes) && nodes <= nodes'
    ensures Within(m, m1, nodes', lo, hi)
  {
  }

  lemma BytesWithin(m: Ram, m1: Ram, nodes: set<int>, lo: int, hi: int, lo': int, hi': int)
    requires SameOutside(m, m1, lo', hi') && lo <= lo' && hi' <= hi
    ensures Within(m, m1, nodes, lo, hi)
  {
  }

  /** What an operation leaves of a block it does not touch: everything of a live
      block, everything but the links of a hole. */
  lemma Quiet(start: int, end: int, size: Sizes, nodes: set<int>, lo: int, hi: int, m: Ram, m': Ram, c: int)
    requires Tiled(start, end, size) && c in size
    requires Succ(size, c) <= lo || hi <= c
    requires forall d :: d in nodes ==> d in size || (lo <= d && d + HEADER <= hi)
    requires Within(m, m', nodes, lo, hi)
    ensures Same(m, m', c, c + NEXT_AT) && Same(m, m', c + HEADER, Succ(size, c))
    ensures c !in nodes ==> Same(m, m', c, Succ(size, c))
  {
    forall x | 0 <= x < SPACE && c <= x < Succ(size, c) && m'[x] != m[x]
      ensures c in nodes && c + NEXT_AT <= x < c + HEADER
    {
      var d :| d in nodes && d + NEXT_AT <= x < d + HEADER;
      assert d in size ==> Succ(size, d) <= end;
    }
  }

  lemma ListsQuiet(m: Ram, m': Ram, heads: seq<word>, bins: Bins, nodes: set<int>, nodes': set<int>)
    requires Lists(m, heads, bins, nodes) && Apart(nodes)
    requires forall k, a :: 0 <= k < BIN_CNT && a in bins[k] ==> a in nodes'
    requires forall a :: a in nodes && a in nodes' ==> Same(m, m', a + NEXT_AT, a + HEADER)
    ensures Lists(m', heads, bins, nodes')
  {
    hide Load32, Linked, NoDup;
    forall k | 0 <= k < BIN_CNT
      ensures Linked(m', heads[k], bins[k])
    {
      forall a | a in bins[k] && IsHeader(a)
        ensures NextLink(m', a) == NextLink(m, a) && PrevLink(m', a) == PrevLink(m, a)
      {
        assert a in nodes && a in nodes';
        LoadSame(m, m', a + NEXT_AT);
        LoadSame(m, m', a + PREV_AT);
      }
      LinkedSame(m, m', heads[k], bins[k]);
    }
  }

  /** Block headers do not overlap. */
  lemma BlocksApart(start: int, end: int, size: Sizes, nodes: set<int>)
    requires Tiled(start, end, size) && nodes <= size.Keys
    ensures Apart(nodes)
  {
    forall a | a in nodes
      ensures IsHeader(a) && forall b :: b in nodes && a < b ==> a + HEADER <= b
    {
      assert Succ(size, a) <= end;
    }
  }

  lemma RepHoles(m: Ram, heads: seq<word>, h: Heap)
    requires Rep(m, heads, h)
    ensures h.free <= h.size.Keys
    ensures Apart(h.free) && Sized(m, h.free, h.size)
  {
    hide Lists, SizeWord, Tiled;
    BlocksApart(h.start, h.end, h.size, h.free);
    forall a | a in h.free
      ensures SizeWord(m, a) == At(h.size, a)
    {
      assert Record(m, a, h.size[a]);
    }
  }

  /** Memory after the bytes of hole `a` beyond `sz` were cut off as a hole of their
      own and binned, `a` itself still being in its bin. */
  ghost predicate Cut(m0: Ram, m: Ram, heads: seq<word>, h: Heap, a: int, sz: int)
    requires a in h.size
  {
    var rest := a + OVERHEAD + sz;
    var nodes := h.free + {rest};
    && |h.bins| == BIN_CNT
    && Lists(m, heads, BinAdd(h.bins, rest, h.size[rest := h.size[a] - sz - OVERHEAD]), nodes)
    && Within(m0, m, nodes, a, Succ(h.size, a))
    && Record(m, rest, h.size[a] - sz - OVERHEAD) && m[rest] == 1
    && Record(m, a, sz)
  }

  /** The remainder is written inside hole `a`, so the bins are as they were and
      there is room for one more node. */
  lemma CutOpen(m0: Ram, m: Ram, heads: seq<word>, h: Heap, a: int, sz: int)
    requires Rep(m0, heads, h) && a in h.free && a in h.size && 0 <= sz && sz + OVERHEAD <= h.size[a]
    requires SameOutside(m0, m, a + HEADER, Succ(h.size, a))
    requires a + OVERHEAD + sz + HEADER <= SPACE ==> SizeWord(m, a + OVERHEAD + sz) == h.size[a] - sz - OVERHEAD
    ensures var rest := a + OVERHEAD + sz; var nodes := h.free + {rest};
      && Apart(nodes) && Lists(m, heads, h.bins, nodes)
      && Sized(m, nodes, h.size[rest := h.size[a] - sz - OVERHEAD])
      && (forall i :: 0 <= i < BIN_CNT ==> rest !in h.bins[i])
  {
    hide Load32, SizeWord, Tiled, NoDup, SortedBy, Linked;
    var rest := a + OVERHEAD + sz;
    var nodes := h.free + {rest};
    RepHoles(m0, heads, h);
    SplitTiled(h.start, h.end, h.size, a, sz);
    BlocksApart(h.start, h.end, Split(h.size, a, sz), nodes);
    forall c | c in h.free
      ensures Same(m0, m, c + SIZE_AT, c + HEADER)
      ensures SizeWord(m, c) == h.size[c]
    {
      if c != a { TiledApart(h.start, h.end, h.size, a, c); }
      SizeSame(m0, m, c);
    }
    ListsQuiet(m0, m, heads, h.bins, h.free, nodes);
  }

  lemma SizeSame(m: Ram, m': Ram, a: int)
    requires IsHeader(a) && Same(m, m', a + SIZE_AT, a + NEXT_AT)
    ensures SizeWord(m', a) == SizeWord(m, a)
  {
    hide Load32;
    LoadSame(m, m', a + SIZE_AT);
  }

  lemma TiledApart(start: int, end: int, size: Sizes, a: int, c: int)
    requires Tiled(start, end, size) && a in size && c in size && a != c
    ensures Succ(size, a) <= c || Succ(size, c) <= a
  {
  }

  /** After the remainder is binned (m1 to m2), hole `a` gets its new record. */
  lemma CutClose(m0: Ram, m1: Ram, m2: Ram, m: Ram, heads: seq<word>, h: Heap, a: int, sz: int, rest: int,
                 nodes: set<int>, bins: Bins)
    requires Inv(h) && a in h.free && a in h.size && 0 <= sz && sz + OVERHEAD <= h.size[a]
    requires rest == a + OVERHEAD + sz && nodes == h.free + {rest}
    requires bins == BinAdd(h.bins, rest, h.size[rest := h.size[a] - sz - OVERHEAD])
    requires SameOutside(m0, m1, a + HEADER, Succ(h.size, a)) && LinksOnly(m1, m2, nodes) && RecordOnly(m2, m, a, sz)
    requires Apart(nodes) && Lists(m2, heads, bins, nodes)
    requires Record(m1, rest, h.size[a] - sz - OVERHEAD) && m1[rest] == 1 && Record(m, a, sz)
    ensures Cut(m0, m, heads, h, a, sz)
  {
    hide Load32, Tiled, Binned, Lists, Record, RecordOnly, SameOutside, LinksOnly, BinAdd;
    var size := Split(h.size, a, sz);
    SplitTiled(h.start, h.end, h.size, a, sz);
    CutKeepsLinks(m2, m, h, a, sz, nodes);
    ListsQuiet(m2, m, heads, bins, nodes, nodes) by { BinsInNodes(m2, heads, bins, nodes); }
    LinksWithin(m1, m2, nodes, nodes, 0, 0);
    assert h.free <= h.size.Keys by { BinnedFree(h); }
    Quiet(h.start, h.end, size, nodes, 0, 0, m1, m2, rest);
    assert Record(m, rest, h.size[a] - sz - OVERHEAD) && m[rest] == 1 by {
      RecordMoves(m1, m2, m, rest, h.size[a] - sz - OVERHEAD, a, sz);
    }
    BytesWithin(m0, m1, nodes, a, Succ(h.size, a), a + HEADER, Succ(h.size, a));
    LinksWithin(m1, m2, nodes, nodes, a, Succ(h.size, a));
    WithinTrans(m0, m1, m2, nodes, a, Succ(h.size, a));
    RecordWithin(m2, m, nodes, a, sz, a, Succ(h.size, a));
    WithinTrans(m0, m2, m, nodes, a, Succ(h.size, a));
  }

  lemma BinsInNodes(m: Ram, heads: seq<word>, bins: Bins, nodes: set<int>)
    requires Lists(m, heads, bins, nodes)
    ensures forall k, a :: 0 <= k < BIN_CNT && a in bins[k] ==> a in nodes
  {
  }

  lemma BinnedFree(h: Heap)
    requires Inv(h)
    ensures h.free <= h.size.Keys && |h.bins| == BIN_CNT
  {
  }

  lemma RecordWithin(m: Ram, m1: Ram, nodes: set<int>, b: int, v: int, lo: int, hi: int)
    requires RecordOnly(m, m1, b, v) && lo <= b && 0 <= v && b + v + OVERHEAD <= hi
    ensures Within(m, m1, nodes, lo, hi)
  {
  }

  /** The record behind `a` is not touched by `a`'s own record. */
  lemma RecordMoves(m1: Ram, m2: Ram, m: Ram, rest: int, n: int, a: int, sz: int)
    requires Record(m1, rest, n) && rest == a + OVERHEAD + sz && 0 <= sz
    requires Same(m1, m2, rest, rest + NEXT_AT) && Same(m1, m2, rest + HEADER, rest + OVERHEAD + n)
    requires RecordOnly(m2, m, a, sz)
    ensures Record(m, rest, n) && m[rest] == m1[rest]
  {
    hide Load32, SizeWord;
    RecordQuiet(m1, m, rest, n);
  }

  lemma CutKeepsLinks(m2: Ram, m: Ram, h: Heap, a: int, sz: int, nodes: set<int>)
    requires Inv(h) && a in h.free && a in h.size && 0 <= sz && sz + OVERHEAD <= h.size[a]
    requires nodes == h.free + {a + OVERHEAD + sz} && RecordOnly(m2, m, a, sz)
    ensures forall c :: c in nodes ==> Same(m2, m, c + NEXT_AT, c + HEADER)
  {
    hide Binned, Tiled;
    assert h.free <= h.size.Keys by { BinnedFree(h); }
    forall c | c in nodes
      ensures Same(m2, m, c + NEXT_AT, c + HEADER)
    {
      if c in h.free && c != a {
        TiledApart(h.start, h.end, h.size, a, c);
        assert 0 <= h.size[c] by { TiledSizes(h, c); }
      }
    }
  }

  lemma TiledSizes(h: Heap, c: int)
    requires Inv(h) && c in h.size
    ensures 0 <= h.size[c] && h.start <= c && Succ(h.size, c) <= h.end && h.end + HEADER <= SPACE && 0 < h.start
  {
    hide Binned;
    assert Succ(h.size, c) <= h.end;
  }

  /** The bytes a client may use: from the next link up to the footer. */
  ghost predicate PayloadZero(m: Ram, size: Sizes, a: int)
    requires a in size
  {
    forall x :: 0 <= x < SPACE && a + NEXT_AT <= x < a + HEADER + size[a] ==> m[x] == 0
  }

  /** No byte of a block that was live before has changed. */
  ghost predicate LiveSame(m: Ram, m': Ram, h: Heap) {
    forall c :: c in h.size && c !in h.free ==> Same(m, m', c, Succ(h.size, c))
  }
}
