/** What the kernel heap's operations do, on mathematical values: the physical
    blocks as a map from header address to payload size, the set of holes, and
    the nine bins as sequences of header addresses. */
module HeapSpec {
  import opened BinIndex
  import Memory

  /** A block's header and footer take 20 bytes beside its `size` bytes. */
  const HEADER: nat := 16
  const OVERHEAD: nat := 20
  const MIN_ALLOC_SZ: nat := 4
  /** A client's pointer is this far behind its block's header. */
  const OFFSET: nat := 8

  type Sizes = map<int, int>
  type Bins = seq<seq<int>>

  datatype Heap = Heap(start: int, end: int, size: Sizes, free: set<int>, bins: Bins)

  // ---------------------------------------------------------------- blocks

  /** The address just behind block `a`. */
  function Succ(size: Sizes, a: int): int
    requires a in size
  {
    a + size[a] + OVERHEAD
  }

  /** The blocks tile [start, end): the first begins at `start`, each is followed
      by another or by `end`, and no two overlap. */
  ghost predicate Tiled(start: int, end: int, size: Sizes) {
    && 0 < start && end + HEADER <= Memory.SPACE
    && start in size
    && (forall a :: a in size ==> start <= a && 0 <= size[a])
    && (forall a {:trigger Succ(size, a)} :: a in size ==> Succ(size, a) <= end)
    && (forall a {:trigger Succ(size, a)} :: a in size ==> Succ(size, a) == end || Succ(size, a) in size)
    && (forall a, b {:trigger Succ(size, a), b in size} :: a in size && b in size && a < b ==> Succ(size, a) <= b)
  }

  /** Block `a` cut in two, the front part keeping `n` bytes. */
  function Split(size: Sizes, a: int, n: int): Sizes
    requires a in size
  {
    size[a := n][a + OVERHEAD + n := size[a] - n - OVERHEAD]
  }

  /** Block `w` cut in three of n, sz and the remaining bytes. */
  function Carve(size: Sizes, w: int, n: int, sz: int): Sizes
    requires w in size
  {
    Split(Split(size, w, n), w + OVERHEAD + n, sz)
  }

  /** Block `a` joined with the block behind it. */
  function Merge(size: Sizes, a: int): Sizes
    requires a in size && Succ(size, a) in size
  {
    (size - {Succ(size, a)})[a := size[a] + OVERHEAD + size[Succ(size, a)]]
  }

  /** The block in front of `a`. */
  ghost function Pred(start: int, end: int, size: Sizes, a: int): (p: int)
    requires Tiled(start, end, size) && a in size && a != start
    ensures p in size && Succ(size, p) == a
  {
    PredExists(start, end, size, a, start);
    var p :| p in size && Succ(size, p) == a;
    p
  }

  lemma {:induction false} PredExists(start: int, end: int, size: Sizes, a: int, from: int)
    requires Tiled(start, end, size) && a in size && from in size && from < a
    ensures exists p :: p in size && Succ(size, p) == a
    decreases a - from
  {
    assert Succ(size, a) <= end;
    if Succ(size, from) != a {
      PredExists(start, end, size, a, Succ(size, from));
    }
  }

  /** No two blocks end at the same place, so `Pred` is the only candidate. */
  lemma PredUnique(start: int, end: int, size: Sizes, p: int, q: int)
    requires Tiled(start, end, size) && p in size && q in size && Succ(size, p) == Succ(size, q)
    ensures p == q
  {
  }

  // ------------------------------------------------------------------ bins

  /** The size of block `a`, 0 for an address that is not a block. */
  function At(size: Sizes, a: int): int { if a in size then size[a] else 0 }

  ghost predicate NoDup(l: seq<int>) {
    forall i, j :: 0 <= i < j < |l| ==> l[i] != l[j]
  }

  ghost predicate SortedBy(l: seq<int>, size: Sizes) {
    forall i, j :: 0 <= i < j < |l| ==> At(size, l[i]) <= At(size, l[j])
  }

  /** The first position holding a block of at least `sz` bytes. */
  ghost function FitPos(l: seq<int>, sz: int, size: Sizes): (p: nat)
    ensures p <= |l|
    ensures forall j :: 0 <= j < p ==> At(size, l[j]) < sz
    ensures p < |l| ==> sz <= At(size, l[p])
  {
    if l == [] || sz <= At(size, l[0]) then 0
    else
      var q := FitPos(l[1..], sz, size);
      assert forall j :: 0 < j <= q ==> l[j] == l[1..][j - 1];
      1 + q
  }

  /** The position of `a`, or the length when it is absent. */
  ghost function IndexOf(l: seq<int>, a: int): (p: nat)
    ensures p <= |l|
    ensures forall j :: 0 <= j < p ==> l[j] != a
    ensures p < |l| ==> l[p] == a
    ensures p < |l| <==> a in l
  {
    if l == [] || l[0] == a then 0
    else
      var q := IndexOf(l[1..], a);
      assert forall j :: 0 < j <= q ==> l[j] == l[1..][j - 1];
      1 + q
  }

  /** `a` put in front of the first larger block, hence behind all equal ones. */
  ghost function Insert(l: seq<int>, a: int, size: Sizes): seq<int> {
    var p := FitPos(l, At(size, a) + 1, size);
    l[..p] + [a] + l[p..]
  }

  ghost function Remove(l: seq<int>, a: int): seq<int> {
    var p := IndexOf(l, a);
    if p == |l| then l else l[..p] + l[p + 1..]
  }

  /** Block `a` entered into the bin its size belongs to. */
  ghost function BinAdd(bins: Bins, a: int, size: Sizes): (r: Bins)
    requires |bins| == BIN_CNT
    ensures |r| == BIN_CNT
  {
    bins[BinOf(At(size, a)) := Insert(bins[BinOf(At(size, a))], a, size)]
  }

  ghost function BinRemove(bins: Bins, k: nat, a: int): (r: Bins)
    requires k < |bins|
    ensures |r| == |bins|
  {
    bins[k := Remove(bins[k], a)]
  }

  /** Every hole is in exactly the bin its size belongs to, once, nothing else is
      in a bin, and every bin is sorted by size. */
  ghost predicate Binned(size: Sizes, free: set<int>, bins: Bins) {
    && |bins| == BIN_CNT
    && free <= size.Keys
    && (forall k, a :: 0 <= k < BIN_CNT && a in bins[k] ==> a in free && BinOf(At(size, a)) == k)
    && (forall a :: a in free ==> a in bins[BinOf(At(size, a))])
    && (forall k :: 0 <= k < BIN_CNT ==> NoDup(bins[k]) && SortedBy(bins[k], size))
  }

  /** The heap invariant. */
  ghost predicate Inv(h: Heap) {
    |h.bins| == BIN_CNT && Tiled(h.start, h.end, h.size) && Binned(h.size, h.free, h.bins)
  }

  // ------------------------------------------------------------ operations

  /** The heap after `kheap_init`: one hole from end to end. */
  ghost function Init(start: int, end: int): Heap
    requires start + OVERHEAD <= end
  {
    var size := map[start := end - start - OVERHEAD];
    Heap(start, end, size, {start}, BinAdd(seq(BIN_CNT, _ => []), start, size))
  }

  /** The first bin from `k` on with a block of at least `sz` bytes, or 9. */
  ghost function FindBin(size: Sizes, bins: Bins, sz: int, k: nat): (r: nat)
    requires |bins| == BIN_CNT && k <= BIN_CNT
    ensures k <= r <= BIN_CNT
    ensures forall i :: k <= i < r ==> FitPos(bins[i], sz, size) == |bins[i]|
    ensures r < BIN_CNT ==> FitPos(bins[r], sz, size) < |bins[r]|
    decreases BIN_CNT - k
  {
    if k == BIN_CNT || FitPos(bins[k], sz, size) < |bins[k]| then k else FindBin(size, bins, sz, k + 1)
  }

  /** Some hole has at least `sz` bytes. */
  ghost predicate Fits(h: Heap, sz: int)
    requires Inv(h)
  {
    exists a :: a in h.free && sz <= h.size[a]
  }

  lemma BinGrows(x: int, y: int)
    requires x <= y
    ensures BinOf(x) <= BinOf(y)
  {
  }

  /** A hole that fits sits in the bin of `sz` or a higher one, so the search,
      which starts at the bin of `sz`, stops at one of the nine bins. */
  lemma FitsInBin(h: Heap, sz: nat)
    requires Inv(h)
    ensures Fits(h, sz) <==> FindBin(h.size, h.bins, sz, BinOf(sz)) < BIN_CNT
  {
    hide Tiled, FitPos, FindBin, BinOf, NoDup, SortedBy;
    var r := FindBin(h.size, h.bins, sz, BinOf(sz));
    if r < BIN_CNT {
      var a := h.bins[r][FitPos(h.bins[r], sz, h.size)];
      assert a in h.bins[r];
    }
    if a :| a in h.free && sz <= h.size[a] {
      var k := BinOf(At(h.size, a));
      BinGrows(sz, h.size[a]);
      assert a in h.bins[k];
      assert FitPos(h.bins[k], sz, h.size) < |h.bins[k]|;
    }
  }

  /** The hole `kheap_alloc` picks: the first fit of the first bin with a fit. */
  ghost function Found(h: Heap, sz: nat): (a: int)
    requires Inv(h) && Fits(h, sz)
    ensures a in h.free && a in h.size && sz <= h.size[a]
    ensures BinOf(h.size[a]) == FindBin(h.size, h.bins, sz, BinOf(sz))
  {
    hide Tiled;
    FitsInBin(h, sz);
    var k := FindBin(h.size, h.bins, sz, BinOf(sz));
    assert h.bins[k][FitPos(h.bins[k], sz, h.size)] in h.bins[k];
    h.bins[k][FitPos(h.bins[k], sz, h.size)]
  }

  ghost predicate Splits(h: Heap, sz: nat)
    requires Inv(h) && Fits(h, sz)
  {
    h.size[Found(h, sz)] - sz > OVERHEAD + MIN_ALLOC_SZ
  }

  /** `kheap_alloc`: the block returned is `Found(h, sz)`. */
  ghost function Alloc(h: Heap, sz: nat): Heap
    requires Inv(h) && Fits(h, sz)
  {
    hide Tiled, Binned, BinOf;
    var a := Found(h, sz);
    var k := BinOf(h.size[a]);
    if Splits(h, sz) then
      var rest := a + OVERHEAD + sz;
      // The remainder is binned while the found block still has its old size.
      var bins := BinAdd(h.bins, rest, h.size[rest := h.size[a] - sz - OVERHEAD]);
      h.(size := Split(h.size, a, sz), free := h.free - {a} + {rest}, bins := BinRemove(bins, k, a))
    else
      h.(free := h.free - {a}, bins := BinRemove(h.bins, k, a))
  }

  /** The last block of the heap. */
  ghost predicate IsLast(h: Heap, w: int) {
    w in h.size && Succ(h.size, w) == h.end
  }

  /** Bytes from the wilderness header up to the next page boundary. */
  function Extra(w: int): int { Memory.PG_SZ - w % Memory.PG_SZ }

  /** What `kheap_alloc_a` needs of the last block `w`: it is a hole, the piece in
      front of the page boundary can be a block, and the rest is large enough. */
  ghost predicate FitsAligned(h: Heap, w: int, sz: int) {
    && IsLast(h, w) && w in h.free
    && Extra(w) >= OVERHEAD + OFFSET
    && h.size[w] >= Extra(w) + sz + 12
  }

  /** `kheap_alloc_a`: the last block becomes hole, live block, hole. */
  ghost function AllocA(h: Heap, w: int, sz: nat): Heap
    requires Inv(h) && FitsAligned(h, w, sz)
  {
    var n := Extra(w) - OVERHEAD - OFFSET;
    var wild := w + OVERHEAD + n + OVERHEAD + sz;
    var size := Carve(h.size, w, n, sz);
    var bins1 := BinRemove(h.bins, BinOf(h.size[w]), w);
    var bins2 := BinAdd(bins1, w, size);
    h.(size := size, free := h.free + {wild}, bins := BinAdd(bins2, wild, size))
  }

  /** Joining `p` with `a` behind it leaves the block behind `a` in place. */
  lemma MergeNext(start: int, end: int, size: Sizes, p: int, a: int)
    requires Tiled(start, end, size) && p in size && a in size && Succ(size, p) == a
    ensures p in Merge(size, p) && Succ(Merge(size, p), p) == Succ(size, a)
    ensures Succ(size, a) in size ==> Succ(size, a) in Merge(size, p)
  {
    assert a < Succ(size, a);
  }

  /** `kheap_free` of the live block `a`. */
  ghost function Free(h: Heap, a: int): Heap
    requires Inv(h) && a in h.size && a !in h.free
  {
    hide BinOf, Tiled, BinAdd, BinRemove, Merge;
    assert h.free <= h.size.Keys;
    if a == h.start then
      h.(free := h.free + {a}, bins := BinAdd(h.bins, a, h.size))
    else
      var p := Pred(h.start, h.end, h.size, a);
      var n := Succ(h.size, a);
      var b := if p in h.free then p else a;
      MergeNext(h.start, h.end, h.size, p, a);
      var size1 := if p in h.free then Merge(h.size, p) else h.size;
      var bins1 := if p in h.free then BinRemove(h.bins, BinOf(h.size[p]), p) else h.bins;
      var size2 := if n in h.free then Merge(size1, b) else size1;
      var bins2 := if n in h.free then BinRemove(bins1, BinOf(h.size[n]), n) else bins1;
      Heap(h.start, h.end, size2, h.free - {p, n} + {b}, BinAdd(bins2, b, size2))
  }
}
