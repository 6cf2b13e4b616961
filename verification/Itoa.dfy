/** Number formatting. */
module Itoa {
  import opened Memory

  const DIGITS: string := "0123456789abcdef"
  const BUF_SZ: nat := 32

  /** The digit character of a value below 16. */
  function Digit(v: nat): char
    requires v < 16
  {
    DIGITS[v]
  }

  /** The value of a digit character. */
  function Value(c: char): nat {
    if '0' <= c <= '9' then (c - '0') as nat
    else if 'a' <= c <= 'f' then (c - 'a') as nat + 10
    else 0
  }

  lemma DigitValue(v: nat)
    requires v < 16
    ensures Value(Digit(v)) == v && ('0' <= Digit(v) <= '9' || 'a' <= Digit(v) <= 'f')
  {
    assert v == 0 || v == 1 || v == 2 || v == 3 || v == 4 || v == 5 || v == 6 || v == 7
      || v == 8 || v == 9 || v == 10 || v == 11 || v == 12 || v == 13 || v == 14 || v == 15;
  }

  ghost predicate IsDigit(c: char, b: nat) { ('0' <= c <= '9' || 'a' <= c <= 'f') && Value(c) < b }

  ghost predicate AllDigits(s: string, b: nat) {
    forall k :: 0 <= k < |s| ==> IsDigit(s[k], b)
  }

  /** What a string of digits in base b denotes. */
  function Parse(s: string, b: nat): nat {
    if s == [] then 0 else Parse(s[..|s| - 1], b) * b + Value(s[|s| - 1])
  }

  function Power(b: nat, e: nat): (p: nat)
    ensures 0 < b ==> 0 < p
  {
    if e == 0 then 1 else b * Power(b, e - 1)
  }

  lemma Spread(v: nat, p: nat, q: nat, b: nat)
    ensures (v * p + q) * b == v * (b * p) + q * b
  {
  }

  /** A digit in front counts with the power of its place. */
  lemma {:induction false} ParseFront(c: char, s: string, b: nat)
    ensures Parse([c] + s, b) == Value(c) * Power(b, |s|) + Parse(s, b)
  {
    if s == [] {
      assert ([c] + s)[..0] == [];
    } else {
      var t := s[..|s| - 1];
      ParseFront(c, t, b);
      assert ([c] + s)[..|s|] == [c] + t;
      Spread(Value(c), Power(b, |t|), Parse(t, b), b);
    }
  }

  lemma {:induction false} PowerGrows(b: nat, d: nat, e: nat)
    requires 1 <= b && d <= e
    ensures Power(b, d) <= Power(b, e)
    decreases e
  {
    if d < e { PowerGrows(b, d, e - 1); }
  }

  lemma MulMonotone(a: nat, b: nat, x: nat, y: nat)
    requires a <= b && x <= y
    ensures a * x <= b * y
  {
    assert a * x <= a * y;
    assert a * y <= b * y;
  }

  lemma {:induction false} PowerBase(b: nat, c: nat, e: nat)
    requires b <= c
    ensures Power(b, e) <= Power(c, e)
  {
    if e > 0 {
      PowerBase(b, c, e - 1);
      MulMonotone(b, c, Power(b, e - 1), Power(c, e - 1));
    }
  }

  /** The number of digits the buffer holds. */
  const PLACES: nat := 30

  /** From base 3 on thirty digits are enough for every machine word; in base 2 they
      are not. */
  lemma PlacesSuffice(b: nat)
    requires 2 <= b <= 16
    ensures SPACE <= Power(b, PLACES) <==> 3 <= b
  {
    if 3 <= b {
      PowerThree();
      PowerBase(3, b, PLACES);
    } else {
      PowerTwo();
    }
  }

  lemma PowerThree()
    ensures Power(3, PLACES) > SPACE
  {
    assert Power(3, 10) == 59049;
    PowerSum(3, 10, 10);
    PowerSum(3, 20, 10);
  }

  lemma PowerTwo()
    ensures Power(2, PLACES) == 0x4000_0000
  {
    assert Power(2, 10) == 1024;
    PowerSum(2, 10, 10);
    PowerSum(2, 20, 10);
  }

  lemma {:induction false} PowerSum(b: nat, d: nat, e: nat)
    ensures Power(b, d + e) == Power(b, d) * Power(b, e)
    decreases e
  {
    if e > 0 {
      PowerSum(b, d, e - 1);
      assert Power(b, d) * Power(b, e) == b * (Power(b, d) * Power(b, e - 1));
    }
  }

  /** With v still to be written, the digits s stand for the rest of val. */
  ghost predicate Partial(val: nat, v: nat, b: nat, s: string) {
    2 <= b <= 16 && val == v * Power(b, |s|) + Parse(s, b) && Parse(s, b) < Power(b, |s|) && AllDigits(s, b)
  }

  class NumberBuffer {
    var buf: array<char>

    /** The buffer is cleared once and for all; its last character ends the string. */
    constructor ()
      ensures fresh(buf) && buf.Length == BUF_SZ && buf[BUF_SZ - 1] == 0 as char
    {
      buf := new char[BUF_SZ](_ => 0 as char);
    }

    /** Writes the digits of `val` from the back. The string denotes `val`, with no
        leading zero, exactly when thirty digits hold it. */
    method Format(val: word, base: nat) returns (start: nat)
      requires 2 <= base <= 16 && buf.Length == BUF_SZ && buf[BUF_SZ - 1] == 0 as char
      modifies buf
      ensures 1 <= start <= PLACES && buf[BUF_SZ - 1] == 0 as char
      ensures AllDigits(buf[start..BUF_SZ - 1], base)
      ensures Parse(buf[start..BUF_SZ - 1], base) == val % Power(base, PLACES)
      ensures Parse(buf[start..BUF_SZ - 1], base) == val <==> val < Power(base, PLACES)
      ensures val < Power(base, PLACES) ==> buf[start..BUF_SZ - 1] == "0" || buf[start] != '0'
    {
      hide Digit, Value, Parse, Power, AllDigits, Partial;
      var i := PLACES;
      if val != 0 {
        var v: nat := val;
        assert buf[i + 1..BUF_SZ - 1] == [];
        PartialNone(val, base);
        while v != 0 && i != 0
          invariant 0 <= i <= PLACES && Partial(val, v, base, buf[i + 1..BUF_SZ - 1])
          invariant v == 0 ==> i < PLACES && buf[i + 1] != '0'
          invariant i == PLACES ==> v == val
          invariant buf[BUF_SZ - 1] == 0 as char
          decreases i
        {
          ghost var s := buf[i + 1..BUF_SZ - 1];
          buf[i] := Digit(v % base);
          assert buf[i..BUF_SZ - 1] == [Digit(v % base)] + s;
          PartialStep(val, v, base, s);
          i := i - 1;
          v := v / base;
        }
        PartialDone(val, v, base, buf[i + 1..BUF_SZ - 1]);
      } else {
        buf[i] := '0';
        i := i - 1;
        assert buf[i + 1..BUF_SZ - 1] == "0";
        Nought(base);
      }
      start := i + 1;
    }
  }

  lemma PartialNone(val: nat, b: nat)
    requires 2 <= b <= 16
    ensures Partial(val, val, b, [])
  {
  }

  lemma PartialStep(val: nat, v: nat, b: nat, s: string)
    requires Partial(val, v, b, s) && v != 0
    ensures v % b < 16 && Partial(val, v / b, b, [Digit(v % b)] + s)
    ensures v / b == 0 ==> Digit(v % b) != '0'
  {
    hide Digit, Parse, Power, AllDigits;
    DigitStep(val, v, b, |s|, s);
    DigitsFront(v % b, s, b);
  }

  lemma PartialDone(val: nat, v: nat, b: nat, s: string)
    requires Partial(val, v, b, s) && |s| <= PLACES && (v == 0 || |s| == PLACES)
    ensures AllDigits(s, b) && Parse(s, b) == val % Power(b, PLACES)
    ensures Parse(s, b) == val <==> val < Power(b, PLACES)
    ensures val < Power(b, PLACES) ==> v == 0
  {
    hide Parse, Power, AllDigits;
    FormatDone(val, v, b, PLACES - |s|, Parse(s, b));
  }

  lemma Nought(b: nat)
    requires 2 <= b <= 16
    ensures AllDigits("0", b) && Parse("0", b) == 0 < Power(b, PLACES)
    ensures 0 % Power(b, PLACES) == 0
  {
  }

  lemma DigitsFront(d: nat, s: string, b: nat)
    requires d < b <= 16 && AllDigits(s, b)
    ensures AllDigits([Digit(d)] + s, b)
  {
    hide Digit, Value;
    DigitValue(d);
  }

  lemma DigitStep(val: nat, v: nat, b: nat, e: nat, s: string)
    requires 2 <= b <= 16 && |s| == e && v != 0
    requires val == v * Power(b, e) + Parse(s, b) && Parse(s, b) < Power(b, e)
    ensures val == (v / b) * Power(b, e + 1) + Parse([Digit(v % b)] + s, b)
    ensures Parse([Digit(v % b)] + s, b) < Power(b, e + 1)
    ensures v / b == 0 ==> Digit(v % b) != '0'
  {
    hide Parse, Digit, Power;
    var d, p := v % b, Power(b, e);
    PowerNext(b, e);
    ParseFront(Digit(d), s, b);
    DigitValue(d);
    ShiftAll(val, v, b, p, Parse(s, b));
    Below(d, b, p, Parse(s, b));
    Quotient(v, b);
    if d != 0 { DigitZero(d); }
  }

  lemma PowerNext(b: nat, e: nat)
    ensures Power(b, e + 1) == b * Power(b, e)
  {
  }

  lemma Quotient(v: nat, b: nat)
    requires 2 <= b && v != 0
    ensures v / b == 0 ==> v % b != 0
  {
  }

  lemma ShiftAll(val: nat, v: nat, b: nat, p: nat, r: nat)
    requires 2 <= b && val == v * p + r
    ensures val == (v / b) * (b * p) + (v % b) * p + r
  {
    assert v == (v / b) * b + v % b;
    Shift(v / b, v % b, b, p);
  }

  lemma DigitZero(d: nat)
    requires 0 < d < 16
    ensures Digit(d) != '0'
  {
  }

  lemma Shift(q: nat, d: nat, b: nat, p: nat)
    ensures (q * b + d) * p == q * (b * p) + d * p
  {
  }

  lemma Below(d: nat, b: nat, p: nat, r: nat)
    requires d < b && r < p
    ensures d * p + r < b * p
  {
    assert (d + 1) * p <= b * p;
  }

  lemma Unique(v: nat, q: nat, r: nat)
    requires r < q
    ensures (v * q + r) % q == r
    ensures r == v * q + r <==> v == 0
    ensures v * q + r < q <==> v == 0
  {
    var x := v * q + r;
    var y, z := x / q, x % q;
    assert x == q * y + z;
    Sandwich(v, y, q, r, z);
  }

  lemma FormatDone(val: nat, v: nat, b: nat, i: nat, r: nat)
    requires 2 <= b && i <= PLACES && (v == 0 || i == 0)
    requires val == v * Power(b, PLACES - i) + r && r < Power(b, PLACES - i)
    ensures r == val % Power(b, PLACES)
    ensures r == val <==> val < Power(b, PLACES)
    ensures val < Power(b, PLACES) ==> v == 0
  {
    PowerGrows(b, PLACES - i, PLACES);
    if v == 0 {
      Unique(0, Power(b, PLACES), r);
    } else {
      Unique(v, Power(b, PLACES), r);
    }
  }
}
