/** The bins in memory: doubly linked lists whose links lie inside the holes. */
module BinLists {
  import opened Memory
  import opened BinIndex
  import opened HeapSpec

  // A block header: hole flag at 0, size at 4, next at 8, prev at 12.
  const SIZE_AT: nat := 4
  const NEXT_AT: nat := 8
  const PREV_AT: nat := 12

  predicate IsHeader(a: int) { 0 < a && a + HEADER <= SPACE }

  function SizeWord(m: Ram, a: int): word
    requires IsHeader(a)
  { Load32(m, a + SIZE_AT) }

  function NextLink(m: Ram, a: int): word
    requires IsHeader(a)
  { Load32(m, a + NEXT_AT) }

  function PrevLink(m: Ram, a: int): word
    requires IsHeader(a)
  { Load32(m, a + PREV_AT) }

  /** Headers that do not overlap. */
  ghost predicate Apart(nodes: set<int>) {
    && (forall a :: a in nodes ==> IsHeader(a))
    && (forall a, b :: a in nodes && b in nodes && a < b ==> a + HEADER <= b)
  }

  /** The memories differ only inside the link words of `nodes`. */
  ghost predicate LinksOnly(m: Ram, m': Ram, nodes: set<int>) {
    forall x :: 0 <= x < SPACE && m'[x] != m[x] ==> exists a :: a in nodes && a + NEXT_AT <= x < a + HEADER
  }

  /** Storing a node's next link changes that link and no other field of a header. */
  lemma StoreNext(m: Ram, a: int, v: word, nodes: set<int>, m': Ram)
    requires Apart(nodes) && a in nodes && m' == Store32(m, a + NEXT_AT, v)
    ensures forall c {:trigger NextLink(m', c)} :: c in nodes ==>
      NextLink(m', c) == if c == a then v else NextLink(m, c)
    ensures forall c {:trigger PrevLink(m', c)} :: c in nodes ==> PrevLink(m', c) == PrevLink(m, c)
    ensures forall c {:trigger SizeWord(m', c)} :: c in nodes ==> SizeWord(m', c) == SizeWord(m, c)
    ensures SameOutside(m, m', a + NEXT_AT, a + PREV_AT)
    ensures LinksOnly(m, m', nodes)
  {
    hide Load32, Store32;
    StoreLoad(m, a + NEXT_AT, v);
    forall c | c in nodes
      ensures NextLink(m', c) == if c == a then v else NextLink(m, c)
      ensures PrevLink(m', c) == PrevLink(m, c)
      ensures SizeWord(m', c) == SizeWord(m, c)
    {
      if c != a { LoadSame(m, m', c + NEXT_AT); }
      LoadSame(m, m', c + PREV_AT);
      LoadSame(m, m', c + SIZE_AT);
    }
  }

  lemma StorePrev(m: Ram, a: int, v: word, nodes: set<int>, m': Ram)
    requires Apart(nodes) && a in nodes && m' == Store32(m, a + PREV_AT, v)
    ensures forall c {:trigger PrevLink(m', c)} :: c in nodes ==>
      PrevLink(m', c) == if c == a then v else PrevLink(m, c)
    ensures forall c {:trigger NextLink(m', c)} :: c in nodes ==> NextLink(m', c) == NextLink(m, c)
    ensures forall c {:trigger SizeWord(m', c)} :: c in nodes ==> SizeWord(m', c) == SizeWord(m, c)
    ensures SameOutside(m, m', a + PREV_AT, a + HEADER)
    ensures LinksOnly(m, m', nodes)
  {
    hide Load32, Store32;
    StoreLoad(m, a + PREV_AT, v);
    forall c | c in nodes
      ensures PrevLink(m', c) == if c == a then v else PrevLink(m, c)
      ensures NextLink(m', c) == NextLink(m, c)
      ensures SizeWord(m', c) == SizeWord(m, c)
    {
      if c != a { LoadSame(m, m', c + PREV_AT); }
      LoadSame(m, m', c + NEXT_AT);
      LoadSame(m, m', c + SIZE_AT);
    }
  }

  /** `head` is the first of the linked nodes `l`: each next link is right, and each
      prev link except the head's, which `remove_block` leaves stale. */
  ghost predicate Linked(m: Ram, head: int, l: seq<int>) {
    && (forall j :: 0 <= j < |l| ==> IsHeader(l[j]))
    && head == (if l == [] then 0 else l[0])
    && (forall j {:trigger NextLink(m, l[j])} :: 0 <= j < |l| ==>
      NextLink(m, l[j]) == if j + 1 < |l| then l[j + 1] else 0)
    && (forall j {:trigger PrevLink(m, l[j])} :: 1 <= j < |l| ==> PrevLink(m, l[j]) == l[j - 1])
  }

  /** Nine lists, all of whose nodes are among `nodes` and in one list at most. */
  ghost predicate Lists(m: Ram, heads: seq<word>, bins: Bins, nodes: set<int>) {
    && |heads| == |bins| == BIN_CNT
    && (forall k :: 0 <= k < BIN_CNT ==> Linked(m, heads[k], bins[k]) && NoDup(bins[k]))
    && (forall k, a :: 0 <= k < BIN_CNT && a in bins[k] ==> a in nodes)
    && (forall k, i, a :: 0 <= k < BIN_CNT && 0 <= i < BIN_CNT && i != k && a in bins[k] ==> a !in bins[i])
  }

  /** The size words of `nodes` hold the sizes. */
  ghost predicate Sized(m: Ram, nodes: set<int>, size: Sizes)
    requires Apart(nodes)
  {
    forall a {:trigger SizeWord(m, a)} :: a in nodes ==> SizeWord(m, a) == At(size, a)
  }

  /** A list none of whose links changed is still the list it was. */
  lemma LinkedSame(m: Ram, m': Ram, head: int, l: seq<int>)
    requires Linked(m, head, l)
    requires forall a :: a in l && IsHeader(a) ==>
      NextLink(m', a) == NextLink(m, a) && PrevLink(m', a) == PrevLink(m, a)
    ensures Linked(m', head, l)
  {
    hide NextLink, PrevLink;
    forall j | 0 <= j < |l|
      ensures NextLink(m', l[j]) == NextLink(m, l[j]) && PrevLink(m', l[j]) == PrevLink(m, l[j])
    {
      assert l[j] in l;
    }
  }

  /** Linking `b` in at position p. */
  lemma LinkedInsert(m: Ram, m': Ram, head: int, l: seq<int>, b: int, p: nat)
    requires Linked(m, head, l) && NoDup(l) && IsHeader(b) && p <= |l|
    requires NextLink(m', b) == if p < |l| then l[p] else 0
    requires p > 0 ==> NextLink(m', l[p - 1]) == b && PrevLink(m', b) == l[p - 1]
    requires p < |l| ==> PrevLink(m', l[p]) == b
    requires forall c :: c in l && IsHeader(c) && (p == 0 || c != l[p - 1]) ==> NextLink(m', c) == NextLink(m, c)
    requires forall c :: c in l && IsHeader(c) && (p == |l| || c != l[p]) ==> PrevLink(m', c) == PrevLink(m, c)
    ensures Linked(m', if p == 0 then b else head, l[..p] + [b] + l[p..])
  {
    hide NextLink, PrevLink, Linked;
    LinkedHeaders(m, head, l);
    forall j | 0 <= j < |l| && j + 1 != p
      ensures NextLink(m', l[j]) == NextLink(m, l[j])
    {
      assert l[j] in l && (p == 0 || l[j] != l[p - 1]);
    }
    forall j | 0 <= j < |l| && j != p
      ensures PrevLink(m', l[j]) == PrevLink(m, l[j])
    {
      assert l[j] in l && (p == |l| || l[j] != l[p]);
    }
    LinkedInsertAt(m, m', head, l, b, p);
  }

  lemma LinkedHeaders(m: Ram, head: int, l: seq<int>)
    requires Linked(m, head, l)
    ensures forall j :: 0 <= j < |l| ==> IsHeader(l[j])
  {
  }

  lemma LinkedHead(m: Ram, head: int, l: seq<int>)
    requires Linked(m, head, l)
    ensures head == if l == [] then 0 else l[0]
  {
  }

  lemma LinkedInsertAt(m: Ram, m': Ram, head: int, l: seq<int>, b: int, p: nat)
    requires Linked(m, head, l) && IsHeader(b) && p <= |l|
    requires NextLink(m', b) == if p < |l| then l[p] else 0
    requires p > 0 ==> NextLink(m', l[p - 1]) == b && PrevLink(m', b) == l[p - 1]
    requires p < |l| ==> PrevLink(m', l[p]) == b
    requires forall j :: 0 <= j < |l| && j + 1 != p ==> NextLink(m', l[j]) == NextLink(m, l[j])
    requires forall j :: 0 <= j < |l| && j != p ==> PrevLink(m', l[j]) == PrevLink(m, l[j])
    ensures Linked(m', if p == 0 then b else head, l[..p] + [b] + l[p..])
  {
    hide NextLink, PrevLink;
    var r := l[..p] + [b] + l[p..];
    assert |r| == |l| + 1;
    forall j | 0 <= j < |r|
      ensures IsHeader(r[j]) && NextLink(m', r[j]) == if j + 1 < |r| then r[j + 1] else 0
      ensures 1 <= j ==> PrevLink(m', r[j]) == r[j - 1]
    {
      if j < p {
        assert r[j] == l[j] && r[j + 1] == if j + 1 < p then l[j + 1] else b;
        if 1 <= j { assert r[j - 1] == l[j - 1]; }
      } else if j == p {
        assert r[j] == b;
        if j + 1 < |r| { assert r[j + 1] == l[j]; }
        if 1 <= j { assert r[j - 1] == l[j - 1]; }
      } else {
        assert r[j] == l[j - 1];
        if j + 1 < |r| { assert r[j + 1] == l[j]; }
        assert r[j - 1] == if j - 1 == p then b else l[j - 2];
      }
    }
  }

  /** Linking the node at position p out. */
  lemma LinkedRemove(m: Ram, m': Ram, head: int, l: seq<int>, p: nat)
    requires Linked(m, head, l) && NoDup(l) && p < |l|
    requires p > 0 ==> NextLink(m', l[p - 1]) == if p + 1 < |l| then l[p + 1] else 0
    requires 0 < p && p + 1 < |l| ==> PrevLink(m', l[p + 1]) == l[p - 1]
    requires forall c :: c in l && IsHeader(c) && c != l[p] && (p == 0 || c != l[p - 1]) ==>
      NextLink(m', c) == NextLink(m, c)
    requires forall c :: c in l && IsHeader(c) && c != l[p] && (p + 1 >= |l| || c != l[p + 1]) ==>
      PrevLink(m', c) == PrevLink(m, c)
    ensures Linked(m', if p > 0 then head else if 1 < |l| then l[1] else 0, l[..p] + l[p + 1..])
  {
    hide NextLink, PrevLink, Linked;
    LinkedHeaders(m, head, l);
    forall j | 0 <= j < |l| && j != p && j + 1 != p
      ensures NextLink(m', l[j]) == NextLink(m, l[j])
    {
      assert l[j] in l && l[j] != l[p] && (p == 0 || l[j] != l[p - 1]);
    }
    forall j | 0 <= j < |l| && j != p && j != p + 1
      ensures PrevLink(m', l[j]) == PrevLink(m, l[j])
    {
      assert l[j] in l && l[j] != l[p] && (p + 1 >= |l| || l[j] != l[p + 1]);
    }
    LinkedRemoveAt(m, m', head, l, p);
  }

  lemma LinkedRemoveAt(m: Ram, m': Ram, head: int, l: seq<int>, p: nat)
    requires Linked(m, head, l) && p < |l|
    requires p > 0 ==> NextLink(m', l[p - 1]) == if p + 1 < |l| then l[p + 1] else 0
    requires 0 < p && p + 1 < |l| ==> PrevLink(m', l[p + 1]) == l[p - 1]
    requires forall j :: 0 <= j < |l| && j != p && j + 1 != p ==> NextLink(m', l[j]) == NextLink(m, l[j])
    requires forall j :: 0 <= j < |l| && j != p && j != p + 1 ==> PrevLink(m', l[j]) == PrevLink(m, l[j])
    ensures Linked(m', if p > 0 then head else if 1 < |l| then l[1] else 0, l[..p] + l[p + 1..])
  {
    hide NextLink, PrevLink;
    var r := l[..p] + l[p + 1..];
    assert |r| == |l| - 1;
    forall j | 0 <= j < |r|
      ensures IsHeader(r[j]) && NextLink(m', r[j]) == if j + 1 < |r| then r[j + 1] else 0
      ensures 1 <= j ==> PrevLink(m', r[j]) == r[j - 1]
    {
      if j < p {
        assert r[j] == l[j];
        if j + 1 < |r| { assert r[j + 1] == if j + 1 < p then l[j + 1] else l[j + 2]; }
        if 1 <= j { assert r[j - 1] == l[j - 1]; }
      } else {
        assert r[j] == l[j + 1];
        if j + 1 < |r| { assert r[j + 1] == l[j + 2]; }
        if 1 <= j { assert r[j - 1] == if j - 1 < p then l[j - 1] else l[j]; }
      }
    }
  }

  /** A change to the links of one list, whose nodes all keep to it, leaves the
      other eight lists as they are. */
  lemma ListsUpdate(m: Ram, m': Ram, heads: seq<word>, bins: Bins, nodes: set<int>, k: nat, head: word, l: seq<int>,
                    b: int)
    requires Lists(m, heads, bins, nodes) && Apart(nodes) && k < BIN_CNT
    requires Linked(m', head, l) && NoDup(l)
    requires forall a :: a in l ==> a in nodes && (a in bins[k] || a == b)
    requires forall i :: 0 <= i < BIN_CNT && i != k ==> b !in bins[i]
    requires forall a :: a in nodes && a !in bins[k] && a != b ==>
      NextLink(m', a) == NextLink(m, a) && PrevLink(m', a) == PrevLink(m, a)
    ensures Lists(m', heads[k := head], bins[k := l], nodes)
  {
    hide NextLink, PrevLink, NoDup, Linked;
    forall i | 0 <= i < BIN_CNT && i != k
      ensures Linked(m', heads[i], bins[i])
    {
      LinkedSame(m, m', heads[i], bins[i]);
    }
  }
}
