/** How many page-aligned blocks the heap still has room for at its end. */
module HeapPages {
  import opened Memory
  import opened HeapSpec
  import opened HeapInvariant
  import opened HeapRuns
  import opened HeapMemory
  import opened HeapSteps
  import opened HeapClient

  /** `kheap_alloc_a` may be called for `sz` bytes. */
  ghost predicate CanPage(h: Heap, sz: nat) {
    Inv(h) && FitsAligned(h, Wilderness(h), sz)
  }

  /** The heap after that call. */
  ghost function Paged(h: Heap, sz: nat): Heap {
    if CanPage(h, sz) then AllocA(h, Wilderness(h), sz) else h
  }

  ghost function PagePtr(h: Heap): int {
    if Inv(h) then Wilderness(h) + Extra(Wilderness(h)) else 0
  }

  /** The size of the last block, which every such call makes smaller. */
  ghost function Left(h: Heap): nat {
    if Inv(h) && At(h.size, Wilderness(h)) >= 0 then At(h.size, Wilderness(h)) else 0
  }

  /** How many blocks of `sz` bytes can be had one after the other. */
  ghost function Rooms(h: Heap, sz: nat): nat
    decreases Left(h)
  {
    if CanPage(h, sz) then
      PagedLeft(h, sz);
      1 + Rooms(Paged(h, sz), sz)
    else 0
  }

  /** The new last block begins behind the block handed out. */
  lemma PagedLeft(h: Heap, sz: nat)
    requires CanPage(h, sz)
    ensures Inv(Paged(h, sz)) && Paged(h, sz).start == h.start && Paged(h, sz).end == h.end
    ensures var w := Wilderness(h);
      && Wilderness(Paged(h, sz)) == w + Extra(w) + sz + OVERHEAD - OFFSET && w in h.size
      && Left(h) == h.size[w] && Left(Paged(h, sz)) == h.size[w] - Extra(w) - sz - 12 && Left(Paged(h, sz)) < Left(h)
      && Wilderness(Paged(h, sz)) in Paged(h, sz).free
  {
    hide Tiled, Binned, AllocA, Wilderness, Extra;
    var w, h' := Wilderness(h), AllocA(h, Wilderness(h), sz);
    var n := Extra(w) - OVERHEAD - OFFSET;
    var wild := w + OVERHEAD + n + OVERHEAD + sz;
    AllocAShape(h, w, sz, n, w + OVERHEAD + n, wild, h.free + {wild}, h');
    AllocAKeeps(h, w, sz);
    TiledSizes(h, w);
    LastUnique(h', wild, Wilderness(h'));
  }

  lemma RoomTaken(h: Heap, sz: nat)
    ensures CanPage(h, sz) <==> Rooms(h, sz) > 0
    ensures CanPage(h, sz) ==> Rooms(Paged(h, sz), sz) == Rooms(h, sz) - 1
  {
  }

  /** The block handed out is new, lies in the heap, and leaves the live blocks live. */
  lemma PagedFresh(h: Heap, sz: nat)
    requires CanPage(h, sz)
    ensures Inv(Paged(h, sz)) && PagePtr(h) % PG_SZ == 0 && h.start < PagePtr(h) < h.end
    ensures PagePtr(h) - OFFSET !in h.size && Lives(Paged(h, sz), PagePtr(h) - OFFSET, sz)
    ensures forall c, n :: Lives(h, c, n) ==> Lives(Paged(h, sz), c, n)
  {
    hide Tiled, Binned, AllocA, FitsAligned, Wilderness;
    var op := AllocAOp(sz);
    assert Enabled(h, op) && Step(h, op) == Paged(h, sz);
    AlignedFresh(h, sz);
    forall c, n | Lives(h, c, n)
      ensures Lives(Paged(h, sz), c, n)
    {
      StepKeepsLive(h, op, c);
    }
  }

  /** A live block of n bytes begins at `c`. */
  ghost predicate Lives(h: Heap, c: int, n: int) { c in h.size && c !in h.free && h.size[c] == n }

  /** The bytes of two live blocks do not overlap. */
  lemma LivesApart(h: Heap, c: int, n: int, d: int, m: int)
    requires Inv(h) && Lives(h, c, n) && Lives(h, d, m) && c != d
    ensures c + OFFSET + n <= d + OFFSET || d + OFFSET + m <= c + OFFSET
  {
    hide Binned, Tiled;
    TiledApart(h.start, h.end, h.size, c, d);
    TiledSizes(h, c);
    TiledSizes(h, d);
  }

  /** The heap after k such calls. */
  ghost function PagedTimes(h: Heap, sz: nat, k: nat): Heap {
    if k == 0 then h else Paged(PagedTimes(h, sz, k - 1), sz)
  }

  /** The last block is a hole of l bytes at w. */
  ghost predicate EndsAt(h: Heap, w: int, l: int) {
    Inv(h) && Wilderness(h) == w && w in h.size && h.size[w] == l && w in h.free
  }

  lemma InitEnds(start: int, end: int)
    requires 0 < start && start + OVERHEAD <= end && end + HEADER <= SPACE
    ensures EndsAt(Init(start, end), start, end - start - OVERHEAD)
  {
    hide Wilderness, BinAdd;
    InitKeeps(start, end);
    LastUnique(Init(start, end), start, Wilderness(Init(start, end)));
  }

  /** A page-aligned block moves the end past the next page boundary and the block. */
  lemma PagedEnds(h: Heap, w: int, l: int, sz: nat)
    requires EndsAt(h, w, l) && Extra(w) >= OVERHEAD + OFFSET && l >= Extra(w) + sz + 12
    ensures CanPage(h, sz) && EndsAt(Paged(h, sz), w + Extra(w) + sz + 12, l - Extra(w) - sz - 12)
  {
    hide Inv, Wilderness, Extra, Paged;
    PagedLeft(h, sz);
  }

  /** Blocks of `sz` bytes, one after the other, begin this far apart. */
  function Pitch(sz: nat): nat { PG_SZ - (sz + 12) % PG_SZ + sz + 12 }

  /** How many page-aligned blocks a wilderness of l bytes at w serves. Behind the first
      one every wilderness lies at the same place in its page; where the piece up to the
      next page is too short for a block, nothing more can be served. */
  function RoomsAt(w: nat, l: nat, sz: nat): nat {
    if Extra(w) < OVERHEAD + OFFSET || l < Extra(w) + sz + 12 then 0
    else if PG_SZ - (sz + 12) % PG_SZ < OVERHEAD + OFFSET then 1
    else 1 + (l - Extra(w) - sz - 12) / Pitch(sz)
  }

  lemma RoomsStep(w: nat, l: nat, sz: nat)
    requires Extra(w) >= OVERHEAD + OFFSET && l >= Extra(w) + sz + 12
    ensures RoomsAt(w, l, sz) == 1 + RoomsAt(w + Extra(w) + sz + 12, l - Extra(w) - sz - 12, sz)
  {
    var w', l' := w + Extra(w) + sz + 12, l - Extra(w) - sz - 12;
    PageOff(w, sz);
    if Extra(w') >= OVERHEAD + OFFSET {
      Fraction(l', Pitch(sz));
    }
  }

  lemma PageOff(w: nat, sz: nat)
    ensures (w + Extra(w) + sz + 12) % PG_SZ == (sz + 12) % PG_SZ
    ensures Extra(w + Extra(w) + sz + 12) == PG_SZ - (sz + 12) % PG_SZ
  {
    var q := w / PG_SZ + 1;
    assert w + Extra(w) == q * PG_SZ;
    assert (q * PG_SZ + sz + 12) % PG_SZ == (sz + 12) % PG_SZ;
  }

  lemma Fraction(l: nat, p: nat)
    requires p > 0
    ensures l < p ==> l / p == 0
    ensures l >= p ==> l / p == 1 + (l - p) / p
  {
    if l >= p {
      var q, r := (l - p) / p, (l - p) % p;
      assert l == (q + 1) * p + r;
      Quotient(l, q + 1, r, p);
    }
  }

  lemma Quotient(l: nat, q: nat, r: nat, p: nat)
    requires 0 <= r < p && l == q * p + r
    ensures l / p == q
  {
    var y, z := l / p, l % p;
    assert l == p * y + z;
    Sandwich(q, y, p, r, z);
  }

  /** The count is exact: it follows from the address and the size of the wilderness. */
  lemma {:induction false} RoomsExact(h: Heap, w: nat, l: nat, sz: nat)
    requires EndsAt(h, w, l)
    ensures Rooms(h, sz) == RoomsAt(w, l, sz)
    decreases l
  {
    hide Inv, Wilderness, Extra, Paged, Pitch;
    RoomTaken(h, sz);
    EndsCan(h, w, l, sz);
    if CanPage(h, sz) {
      PagedEnds(h, w, l, sz);
      RoomsStep(w, l, sz);
      RoomsExact(Paged(h, sz), w + Extra(w) + sz + 12, l - Extra(w) - sz - 12, sz);
    }
  }

  lemma EndsCan(h: Heap, w: int, l: int, sz: nat)
    requires EndsAt(h, w, l)
    ensures CanPage(h, sz) <==> Extra(w) >= OVERHEAD + OFFSET && l >= Extra(w) + sz + 12
    ensures CanPage(h, sz) ==> Rooms(h, sz) > 0
  {
    hide Inv, Wilderness, Extra;
    RoomTaken(h, sz);
  }

  /** Calls after calls are calls. */
  lemma {:induction false} TimesTimes(h: Heap, sz: nat, a: nat, b: nat)
    ensures PagedTimes(PagedTimes(h, sz, a), sz, b) == PagedTimes(h, sz, a + b)
    decreases b
  {
    hide Paged;
    if b > 0 { TimesTimes(h, sz, a, b - 1); }
  }

  lemma {:induction false} TimesRooms(h: Heap, sz: nat, k: nat)
    requires k <= Rooms(h, sz)
    ensures Rooms(PagedTimes(h, sz, k), sz) == Rooms(h, sz) - k
    decreases k
  {
    hide Paged, CanPage, Rooms;
    if k > 0 {
      TimesRooms(h, sz, k - 1);
      RoomTaken(PagedTimes(h, sz, k - 1), sz);
    }
  }
}
