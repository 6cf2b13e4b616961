/** The bitset of the kernel: an array of 32-bit words that stands for a set of
    indices. */
module Bitset {
  import opened Memory

  /** Bit `o` of a word. */
  predicate Bit(w: bv32, o: bv32)
    requires o < 32
  {
    (w >> o) & 1 == 1
  }

  /** A bit position as the shift amount. */
  function Off(i: nat): (o: bv32)
    requires i < 32
    ensures o < 32
  {
    i as bv32
  }

  lemma OffBack0(i: nat)
    requires i < 8
    ensures Off(i) as int == i
  {
  }

  lemma OffBack1(i: nat)
    requires 8 <= i < 16
    ensures Off(i) as int == i
  {
  }

  lemma OffBack2(i: nat)
    requires 16 <= i < 24
    ensures Off(i) as int == i
  {
  }

  lemma OffBack3(i: nat)
    requires 24 <= i < 32
    ensures Off(i) as int == i
  {
  }

  /** Different positions are different shift amounts. */
  lemma OffInjective(i: nat, j: nat)
    requires i < 32 && j < 32 && Off(i) == Off(j)
    ensures i == j
  {
    hide Off;
    if i < 8 { OffBack0(i); } else if i < 16 { OffBack1(i); } else if i < 24 { OffBack2(i); } else { OffBack3(i); }
    if j < 8 { OffBack0(j); } else if j < 16 { OffBack1(j); } else if j < 24 { OffBack2(j); } else { OffBack3(j); }
  }

  lemma SetBit(w: bv32, o: bv32, p: bv32)
    requires o < 32 && p < 32
    ensures Bit(w | (1 << o), p) <==> p == o || Bit(w, p)
  {
  }

  lemma ClearBit(w: bv32, o: bv32, p: bv32)
    requires o < 32 && p < 32
    ensures Bit(w & (0xffff_ffff ^ (1 << o)), p) <==> p != o && Bit(w, p)
  {
  }

  /** Bit `o` of a word, masked and moved to the front. */
  function Masked(w: bv32, o: bv32): bv32
    requires o < 32
  {
    var mask := 1 << o;
    (w & mask) >> o
  }

  lemma TestBit(w: bv32, o: bv32)
    requires o < 32
    ensures Masked(w, o) == if Bit(w, o) then 1 else 0
  {
  }

  predicate Member(words: seq<bv32>, i: nat) {
    i < 32 * |words| && Bit(words[i / 32], Off(i % 32))
  }

  /** The indices whose bit is set. */
  ghost function Elements(words: seq<bv32>): set<nat> {
    set i: nat | i < 32 * |words| && Member(words, i)
  }

  lemma InSet(words: seq<bv32>, i: nat)
    requires i < 32 * |words|
    ensures i in Elements(words) <==> Bit(words[i / 32], Off(i % 32))
  {
    hide Bit, Off;
    assert i in Elements(words) <==> Member(words, i);
  }

  /** Rewriting the word of index `idx` so that only its own bit may differ. */
  lemma OneBit(words: seq<bv32>, words': seq<bv32>, idx: nat, v: bool)
    requires idx < 32 * |words| && |words'| == |words| && words' == words[idx / 32 := words'[idx / 32]]
    requires forall p: bv32 :: p < 32 ==>
      (Bit(words'[idx / 32], p) <==> if p == Off(idx % 32) then v else Bit(words[idx / 32], p))
    ensures Elements(words') == if v then Elements(words) + {idx} else Elements(words) - {idx}
  {
    hide Bit, Off;
    forall i: nat | i < 32 * |words|
      ensures Member(words', i) <==> if i == idx then v else Member(words, i)
    {
      if i / 32 == idx / 32 && i != idx {
        if Off(i % 32) == Off(idx % 32) { OffInjective(i % 32, idx % 32); }
      }
    }
  }

  class BitSet {
    var bits: array<bv32>

    ghost predicate Valid()
      reads this
    {
      32 * bits.Length < SPACE
    }

    ghost function Contents(): set<nat>
      reads this, bits
    {
      Elements(bits[..])
    }

    ghost function Capacity(): nat
      reads this
    {
      32 * bits.Length
    }

    /** Room for `sz` bits and at least one more, in whole words; the words are not
        cleared. The size computation is in 32 bits and wraps near the top. */
    constructor (sz: word)
      ensures Valid() && fresh(bits)
      ensures Capacity() == (sz / 32 + 1) * 32 % SPACE
    {
      var rnd: word := sz % 32;
      var bitCnt: word := (sz + (32 - rnd)) % SPACE;
      var arrSz: word := bitCnt / 32;
      bits := new bv32[arrSz];
    }

    method GetSize() returns (n: word)
      requires Valid()
      ensures n == Capacity()
    {
      n := bits.Length * 32;
    }

    method Set(idx: word)
      requires Valid()
      modifies bits
      ensures Contents() == if idx < Capacity() then old(Contents()) + {idx} else old(Contents())
    {
      hide Bit, Off;
      var n := GetSize();
      if idx < n {
        var arrIdx, offset := idx / 32, Off(idx % 32);
        ghost var was := bits[..];
        bits[arrIdx] := bits[arrIdx] | (1 << offset);
        forall p: bv32 | p < 32
          ensures Bit(bits[arrIdx], p) <==> if p == offset then true else Bit(was[arrIdx], p)
        {
          SetBit(was[arrIdx], offset, p);
        }
        OneBit(was, bits[..], idx, true);
      }
    }

    method Clear(idx: word)
      requires Valid()
      modifies bits
      ensures Contents() == if idx < Capacity() then old(Contents()) - {idx} else old(Contents())
    {
      hide Bit, Off;
      var n := GetSize();
      if idx < n {
        var arrIdx, offset := idx / 32, Off(idx % 32);
        ghost var was := bits[..];
        bits[arrIdx] := bits[arrIdx] & (0xffff_ffff ^ (1 << offset));
        forall p: bv32 | p < 32
          ensures Bit(bits[arrIdx], p) <==> if p == offset then false else Bit(was[arrIdx], p)
        {
          ClearBit(was[arrIdx], offset, p);
        }
        OneBit(was, bits[..], idx, false);
      }
    }

    /** Indices out of range read as set. */
    method Test(idx: word) returns (b: bv32)
      requires Valid()
      ensures b == if idx < Capacity() && idx !in Contents() then 0 else 1
    {
      hide Bit, Off, Elements, Member, Masked;
      var n := GetSize();
      if idx < n {
        var arrIdx, offset := idx / 32, Off(idx % 32);
        TestBit(bits[arrIdx], offset);
        InSet(bits[..], idx);
        b := Masked(bits[arrIdx], offset);
      } else {
        b := 1;
      }
    }

    /** The least clear index, or the capacity when every bit is set. */
    method FirstClear() returns (r: word)
      requires Valid()
      ensures r <= Capacity() && (forall j :: 0 <= j < r ==> j in Contents())
      ensures r < Capacity() ==> r !in Contents()
    {
      var i: word := 0;
      while i < bits.Length
        invariant i <= bits.Length
        invariant forall j :: 0 <= j < 32 * i ==> j in Contents()
      {
        var n: word := 0;
        while n < 32
          invariant n <= 32
          invariant forall j :: 0 <= j < 32 * i + n ==> j in Contents()
        {
          var b := Test(i * 32 + n);
          if b == 0 {
            return i * 32 + n;
          }
          n := n + 1;
        }
        i := i + 1;
      }
      r := GetSize();
    }
  }

  /** The promised capacity, more than `sz` and at most 32 more, is had exactly when
      the rounding does not wrap. */
  lemma CapacityExact(sz: word)
    ensures var c := (sz / 32 + 1) * 32 % SPACE; sz < c <= sz + 32 <==> sz < SPACE - 32
  {
  }
}
