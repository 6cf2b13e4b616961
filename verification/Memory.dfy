/** The 32-bit address space of the machine: one byte per address, words stored
    little-endian, as the i386 does. */
module Memory {

  const SPACE: nat := 0x1_0000_0000
  const PG_SZ: nat := 0x1000

  type byte = n: int | 0 <= n < 0x100
  type word = n: int | 0 <= n < SPACE
  type Ram = m: seq<byte> | |m| == SPACE ghost witness seq(SPACE, _ => 0)

  /** The word stored at `a`. */
  function Load32(m: Ram, a: int): word
    requires 0 <= a && a + 4 <= SPACE
  {
    m[a] as int + 0x100 * m[a + 1] as int + 0x1_0000 * m[a + 2] as int + 0x100_0000 * m[a + 3] as int
  }

  /** Memory after the word `v` is stored at `a`. */
  function Store32(m: Ram, a: int, v: word): Ram
    requires 0 <= a && a + 4 <= SPACE
  {
    m[a := v % 0x100][a + 1 := v / 0x100 % 0x100][a + 2 := v / 0x1_0000 % 0x100][a + 3 := v / 0x100_0000]
  }

  /** Two memories hold the same bytes on [lo, hi). */
  ghost predicate Same(m: Ram, m': Ram, lo: int, hi: int) {
    forall x :: 0 <= x < SPACE && lo <= x < hi ==> m'[x] == m[x]
  }

  /** Two memories differ at most on [lo, hi). */
  ghost predicate SameOutside(m: Ram, m': Ram, lo: int, hi: int) {
    forall x :: 0 <= x < SPACE && !(lo <= x < hi) ==> m'[x] == m[x]
  }

  lemma SplitWord(v: word)
    ensures v == v % 0x100 + 0x100 * (v / 0x100 % 0x100) + 0x1_0000 * (v / 0x1_0000 % 0x100)
      + 0x100_0000 * (v / 0x100_0000)
  {
    assert v / 0x1_0000 == v / 0x100 / 0x100;
    assert v / 0x100_0000 == v / 0x1_0000 / 0x100;
  }

  /** Storing a word makes it the word at that address and touches four bytes only. */
  lemma StoreLoad(m: Ram, a: int, v: word)
    requires 0 <= a && a + 4 <= SPACE
    ensures Load32(Store32(m, a, v), a) == v
    ensures SameOutside(m, Store32(m, a, v), a, a + 4)
  {
    SplitWord(v);
  }

  /** A word is determined by its four bytes. */
  lemma LoadSame(m: Ram, m': Ram, a: int)
    requires 0 <= a && a + 4 <= SPACE
    requires Same(m, m', a, a + 4)
    ensures Load32(m', a) == Load32(m, a)
  {
    assert m'[a] == m[a] && m'[a + 1] == m[a + 1] && m'[a + 2] == m[a + 2] && m'[a + 3] == m[a + 3];
  }

  /** Quotient and remainder are unique. */
  lemma Sandwich(v: int, y: int, q: int, r: int, z: int)
    requires 0 <= r < q && 0 <= z < q && v * q + r == q * y + z
    ensures v == y && r == z
    ensures v > 0 ==> v * q >= q
  {
    var d := v - y;
    assert d * q == z - r;
    assert d >= 1 ==> d * q >= q;
    assert d <= -1 ==> d * q <= (-1) * q;
    assert v > 0 ==> v * q >= q;
  }
}
