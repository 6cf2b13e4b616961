/** Moving a kernel stack: a copy whose pointers into the old stack are redirected. */
module StackMove {
  import opened Memory

  /** Word w of the old stack [lo, hi) is v in the new one at `bottom`: a word that points
      strictly inside the old stack is redirected by the distance, any other is kept. */
  predicate Redirected(w: word, v: word, lo: word, hi: word, bottom: word) {
    && (lo < w < hi ==> v == w + bottom - lo)
    && (!(lo < w < hi) ==> v == w)
  }

  /** The words of the new stack below `top` are the old stack's, redirected. */
  ghost predicate IsMoved(m: Ram, m': Ram, lo: word, hi: word, bottom: word, top: int) {
    forall y {:trigger Load32(m', y)} | bottom <= y && y + 4 <= top && (y - bottom) % 4 == 0
      && lo + (y - bottom) + 4 <= hi && y + 4 <= SPACE ::
      Redirected(Load32(m, lo + (y - bottom)), Load32(m', y), lo, hi, bottom)
  }

  class StackMemory {
    var ram: Ram

    constructor (ram: Ram) {
      this.ram := ram;
    }

    method Memcpy(src: word, dst: word, size: word)
      requires src + size <= SPACE && dst + size <= SPACE && (src + size <= dst || dst + size <= src)
      modifies this
      ensures forall y :: dst <= y < dst + size ==> ram[y] == old(ram)[src + (y - dst)]
      ensures SameOutside(old(ram), ram, dst, dst + size)
    {
      var i: word := 0;
      while i < size
        invariant i <= size
        invariant forall y :: dst <= y < dst + i ==> ram[y] == old(ram)[src + (y - dst)]
        invariant SameOutside(old(ram), ram, dst, dst + i)
      {
        ram := ram[dst + i := ram[src + i]];
        i := i + 1;
      }
    }

    /** Copies the stack [lo, hi) to `bottom` and adds the distance to every word that
        points strictly inside the old one. */
    method RelocateStack(bottom: word, lo: word, hi: word)
      requires lo <= hi && (hi - lo) % 4 == 0 && bottom + (hi - lo) < SPACE
      requires hi <= bottom || bottom + (hi - lo) <= lo
      modifies this
      ensures forall y {:trigger Load32(ram, y)} |
        bottom <= y && y + 4 <= bottom + (hi - lo) && (y - bottom) % 4 == 0 ::
        var w := Load32(old(ram), lo + (y - bottom));
        (lo < w < hi ==> Load32(ram, y) == w + bottom - lo) && (!(lo < w < hi) ==> Load32(ram, y) == w)
      ensures IsMoved(old(ram), ram, lo, hi, bottom, bottom + (hi - lo))
      ensures SameOutside(old(ram), ram, bottom, bottom + (hi - lo))
    {
      hide Load32, Store32;
      ghost var m0 := ram;
      var stackSz: word := hi - lo;
      var offset: word := (bottom - lo) % SPACE;
      Memcpy(lo, bottom, stackSz);
      ghost var m1 := ram;
      var newTop: word := bottom + stackSz;
      var i: word := bottom;
      while i < newTop
        invariant bottom <= i <= newTop && (i - bottom) % 4 == 0
        invariant IsMoved(m0, ram, lo, hi, bottom, i)
        invariant forall x :: i <= x < newTop ==> ram[x] == m1[x]
        invariant SameOutside(m0, ram, bottom, newTop)
        decreases newTop - i
      {
        ghost var m := ram;
        var w := Load32(ram, i);
        WordCopied(m0, m1, ram, lo, bottom, stackSz, i);
        if w < hi && w > lo {
          Distance(w, lo, hi, bottom);
          StoreLoad(ram, i, (w + offset) % SPACE);
          ram := Store32(ram, i, (w + offset) % SPACE);
        }
        MovedMore(m0, m, ram, lo, hi, bottom, i);
        i := i + 4;
      }
    }
  }

  lemma WordCopied(m0: Ram, m1: Ram, m: Ram, lo: word, bottom: word, size: word, i: word)
    requires lo + size <= SPACE && bottom + size < SPACE && bottom <= i && i + 4 <= bottom + size
    requires forall y :: bottom <= y < bottom + size ==> m1[y] == m0[lo + (y - bottom)]
    requires forall x :: i <= x < bottom + size ==> m[x] == m1[x]
    ensures Load32(m, i) == Load32(m0, lo + (i - bottom))
  {
    assert m[i] == m0[lo + (i - bottom)] && m[i + 1] == m0[lo + (i + 1 - bottom)];
    assert m[i + 2] == m0[lo + (i + 2 - bottom)] && m[i + 3] == m0[lo + (i + 3 - bottom)];
  }

  lemma MovedMore(m0: Ram, m: Ram, m': Ram, lo: word, hi: word, bottom: word, i: word)
    requires IsMoved(m0, m, lo, hi, bottom, i) && bottom <= i
    requires lo + (i - bottom) + 4 <= hi && i + 4 <= SPACE && (i - bottom) % 4 == 0
    requires SameOutside(m, m', i, i + 4)
    requires Redirected(Load32(m0, lo + (i - bottom)), Load32(m', i), lo, hi, bottom)
    ensures IsMoved(m0, m', lo, hi, bottom, i + 4)
  {
    hide Load32, Redirected;
    forall y | bottom <= y && y + 4 <= i + 4 && (y - bottom) % 4 == 0 && lo + (y - bottom) + 4 <= hi && y + 4 <= SPACE
      ensures Redirected(Load32(m0, lo + (y - bottom)), Load32(m', y), lo, hi, bottom)
    {
      if y < i {
        assert y + 4 <= i;
        LoadSame(m, m', y);
      }
    }
  }

  // --------------------------------------------------------- frame pointers

  /** A place for a saved frame pointer strictly inside the stack. */
  predicate InStack(a: int, lo: word, hi: word) {
    lo < a && a + 4 <= hi && (a - lo) % 4 == 0
  }

  /** The first n frames of a chain of saved frame pointers from `a` on stay inside. */
  ghost predicate ChainIn(m: Ram, a: int, n: nat, lo: word, hi: word)
    decreases n
  {
    n == 0 || (InStack(a, lo, hi) && ChainIn(m, Load32(m, a), n - 1, lo, hi))
  }

  /** The addresses such a chain visits. */
  ghost function Chain(m: Ram, a: int, n: nat): seq<int>
    decreases n
  {
    if n == 0 then [] else if 0 <= a && a + 4 <= SPACE then [a] + Chain(m, Load32(m, a), n - 1) else [a]
  }

  ghost function Shifted(s: seq<int>, d: int): seq<int> {
    seq(|s|, i requires 0 <= i < |s| => s[i] + d)
  }

  /** A chain of any length inside the old stack is found again in the new one, every
      frame at its distance. */
  lemma {:induction false} ChainMoves(m: Ram, m': Ram, lo: word, hi: word, bottom: word, a: int, n: nat)
    requires lo <= hi && bottom + (hi - lo) < SPACE && IsMoved(m, m', lo, hi, bottom, bottom + (hi - lo))
    requires ChainIn(m, a, n, lo, hi)
    ensures Chain(m', a + bottom - lo, n) == Shifted(Chain(m, a, n), bottom - lo)
    ensures ChainIn(m', a + bottom - lo, n, bottom, bottom + (hi - lo))
    decreases n
  {
    hide Load32, IsMoved, Redirected, InStack, Chain, ChainIn, Shifted;
    if n == 0 {
      ChainNone(m, m', a, a + bottom - lo, bottom - lo, bottom, bottom + (hi - lo));
    } else {
      ChainNext(m, a, n, lo, hi);
      LinkMoves(m, m', lo, hi, bottom, a);
      if n > 1 {
        ChainMoves(m, m', lo, hi, bottom, Load32(m, a), n - 1);
      } else {
        ChainNone(m, m', Load32(m, a), Load32(m', a + bottom - lo), bottom - lo, bottom, bottom + (hi - lo));
      }
      ChainBack(m', a + bottom - lo, n, bottom, bottom + (hi - lo));
      ShiftedFront(a, Chain(m, Load32(m, a), n - 1), bottom - lo);
    }
  }

  lemma ChainNone(m: Ram, m': Ram, a: int, a': int, d: int, lo: word, hi: word)
    ensures Chain(m', a', 0) == Shifted(Chain(m, a, 0), d) && ChainIn(m', a', 0, lo, hi)
  {
  }

  lemma ChainNext(m: Ram, a: int, n: nat, lo: word, hi: word)
    requires ChainIn(m, a, n, lo, hi) && n > 0
    ensures InStack(a, lo, hi) && 0 <= a && a + 4 <= SPACE && ChainIn(m, Load32(m, a), n - 1, lo, hi)
    ensures Chain(m, a, n) == [a] + Chain(m, Load32(m, a), n - 1) && (n > 1 ==> InStack(Load32(m, a), lo, hi))
  {
    hide Load32;
  }

  lemma ChainBack(m: Ram, a: int, n: nat, lo: word, hi: word)
    requires InStack(a, lo, hi) && n > 0 && ChainIn(m, Load32(m, a), n - 1, lo, hi)
    ensures ChainIn(m, a, n, lo, hi) && Chain(m, a, n) == [a] + Chain(m, Load32(m, a), n - 1)
  {
    hide Load32;
  }

  lemma ShiftedFront(a: int, s: seq<int>, d: int)
    ensures Shifted([a] + s, d) == [a + d] + Shifted(s, d)
  {
  }

  lemma LinkMoves(m: Ram, m': Ram, lo: word, hi: word, bottom: word, a: int)
    requires lo <= hi && bottom + (hi - lo) < SPACE && IsMoved(m, m', lo, hi, bottom, bottom + (hi - lo))
    requires InStack(a, lo, hi)
    ensures InStack(a + bottom - lo, bottom, bottom + (hi - lo)) && 0 <= a && a + 4 <= SPACE
    ensures 0 <= a + bottom - lo && a + bottom - lo + 4 <= SPACE
    ensures InStack(Load32(m, a), lo, hi) ==> Load32(m', a + bottom - lo) == Load32(m, a) + bottom - lo
  {
    hide Load32;
    assert Redirected(Load32(m, lo + (a + bottom - lo - bottom)), Load32(m', a + bottom - lo), lo, hi, bottom);
  }

  /** The distance is added in 32 bits, whichever stack is higher. */
  lemma Distance(w: word, lo: word, hi: word, bottom: word)
    requires lo < w < hi && bottom + (hi - lo) < SPACE
    ensures (w + (bottom - lo) % SPACE) % SPACE == w + bottom - lo
  {
  }
}
