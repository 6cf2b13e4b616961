/** The size classes of the kernel heap: nine bins, each of the first eight
    holding the sizes of one integer logarithm. */
module BinIndex {
  import opened Memory

  const BIN_CNT: nat := 9

  /** The bin a block of `sz` bytes belongs to. */
  function BinOf(sz: int): (k: nat)
    ensures k < BIN_CNT
  {
    if sz < 8 then 0
    else if sz < 16 then 1
    else if sz < 32 then 2
    else if sz < 64 then 3
    else if sz < 128 then 4
    else if sz < 256 then 5
    else if sz < 512 then 6
    else if sz < 1024 then 7
    else 8
  }

  /** The integer part of the base-2 logarithm. */
  function Log2(n: nat): nat
    requires 1 <= n
  {
    if n == 1 then 0 else 1 + Log2(n / 2)
  }

  function Pow2(e: nat): nat
  {
    if e == 0 then 1 else 2 * Pow2(e - 1)
  }

  /** `Log2` is the logarithm: the power below and the power above bracket n. */
  lemma {:induction false} Log2Brackets(n: nat)
    requires 1 <= n
    ensures Pow2(Log2(n)) <= n < Pow2(Log2(n) + 1)
  {
    if n != 1 {
      Log2Brackets(n / 2);
    }
  }

  lemma {:induction false} Log2Bounds(n: nat)
    requires 1 <= n
    ensures Log2(n) < n
    ensures 4 <= n ==> 2 <= Log2(n)
  {
    if n != 1 {
      Log2Bounds(n / 2);
    }
  }

  lemma {:induction false} Pow2Monotone(d: nat, e: nat)
    requires d <= e
    ensures Pow2(d) <= Pow2(e)
    decreases e
  {
    if d < e {
      Pow2Monotone(d, e - 1);
    }
  }

  function Min(a: int, b: int): int { if a < b then a else b }

  function Max(a: int, b: int): int { if a < b then b else a }

  /** The bin number is the logarithm of the size, from size 4 = bin 0 on, and at
      most the last bin. */
  lemma BinIsLog(sz: nat)
    ensures BinOf(sz) == Min(BIN_CNT - 1, Log2(Max(sz, 4)) - 2)
  {
    var n := Max(sz, 4);
    var l := Log2(n);
    Log2Brackets(n);
    Log2Bounds(n);
    if 10 <= l {
      Pow2Monotone(10, l);
    }
    assert Pow2(2) == 4 && Pow2(3) == 8 && Pow2(4) == 16 && Pow2(5) == 32 && Pow2(6) == 64;
    assert Pow2(7) == 128 && Pow2(8) == 256 && Pow2(9) == 512 && Pow2(10) == 1024;
    assert 10 <= l || l == 2 || l == 3 || l == 4 || l == 5 || l == 6 || l == 7 || l == 8 || l == 9;
  }

  /** The shift loop that computes the bin. */
  method GetBinIndex(size: word) returns (index: word)
    ensures index == BinOf(size)
  {
    index := 0;
    var sz: word := if size < 4 then 4 else size;
    ghost var all := sz;
    Log2Bounds(all);
    // The loop shifts first and tests the shifted value.
    sz := sz / 2;
    while sz != 0
      invariant index + (if sz == 0 then 0 else 1 + Log2(sz)) == Log2(all)
      decreases sz
    {
      index := index + 1;
      sz := sz / 2;
    }
    BinIsLog(size);
    index := index - 2;
    index := if index > BIN_CNT - 1 then BIN_CNT - 1 else index;
  }
}
