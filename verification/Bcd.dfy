/**
 FromBCD and ToBCD (src/uacpi/interpreter.c:3181-3216): a 64-bit number as sixteen four-bit digits. ToBCD shifts each
 digit in at the top and brings the result down at the end.
 */
module Bcd {
  import opened Arith

  // -------------------------------------------------------------------------
  // Numbers by their digits, the lowest first

  ghost function Value(s: seq<nat>, base: nat): (r: nat) {
    if s == [] then 0 else s[0] + base * Value(s[1..], base)
  }

  ghost predicate Below(s: seq<nat>, bound: nat) {
    forall i {:trigger s[i]} :: 0 <= i < |s| ==> s[i] < bound
  }

  function Power(base: nat, n: nat): (r: nat)
    ensures base > 0 ==> r > 0
  {
    if n == 0 then 1 else base * Power(base, n - 1)
  }

  lemma ValueFirst(s: seq<nat>, base: nat)
    ensures Value(s, base) == if s == [] then 0 else s[0] + base * Value(s[1..], base)
  {
  }

  lemma {:induction false} ValueAppend(s: seq<nat>, d: nat, base: nat)
    ensures Value(s + [d], base) == Value(s, base) + d * Power(base, |s|)
  {
    if s == [] {
      assert [d][1..] == [];
    } else {
      ValueAppend(s[1..], d, base);
      assert (s + [d])[1..] == s[1..] + [d];
      ShiftProduct(base, Value(s[1..], base), d, Power(base, |s| - 1));
    }
  }

  lemma ShiftProduct(base: nat, v: nat, d: nat, p: nat)
    ensures base * (v + d * p) == base * v + d * (base * p)
  {
    Distribute(base, v, d * p);
  }

  /** Sixteen arbitrary four-bit digits, read as decimal, stay far below 2^64. */
  lemma {:induction false} DecimalBound(s: seq<nat>)
    requires Below(s, 16)
    ensures 9 * Value(s, 10) <= 15 * (Power(10, |s|) - 1)
  {
    if s != [] {
      assert s[0] < 16;
      DecimalBound(s[1..]);
    }
  }

  lemma {:induction false} ValueDrop(s: seq<nat>, m: nat)
    requires Below(s, 16) && m <= |s|
    ensures Value(s, 16) / Power(16, m) == Value(s[m..], 16)
    ensures m < |s| ==> Value(s, 16) / Power(16, m) % 16 == s[m]
  {
    if m == 0 {
      assert s[0..] == s;
    } else {
      assert s[0] < 16;
      ValueDrop(s[1..], m - 1);
      assert s[1..][m - 1..] == s[m..];
      var v, p := Value(s[1..], 16), Power(16, m - 1);
      assert Value(s, 16) / 16 == v;
      NestedDivision(Value(s, 16), 16, p);
    }
  }

  lemma NestedDivision(a: nat, b: nat, d: nat)
    requires b > 0 && d > 0
    ensures a / b / d == a / (b * d)
  {
    var q, r := a / b, a % b;
    var k, t := q / d, q % d;
    DivMod(a, b);
    DivMod(q, d);
    Distribute(b, d * k, t);
    Distribute(b, t, 1);
    MulMonotone(b, t + 1, d);
    assert b * (d * k) == (b * d) * k;
    DivModUnique(a, b * d, k, b * t + r);
  }

  /** The sixteen four-bit digits of a number. */
  ghost function Nibbles(x: nat, n: nat): (r: seq<nat>)
    ensures |r| == n && Below(r, 16)
  {
    if n == 0 then [] else [x % 16] + Nibbles(x / 16, n - 1)
  }

  lemma {:induction false} NibblesValue(x: nat, n: nat)
    requires x < Power(16, n)
    ensures Value(Nibbles(x, n), 16) == x
  {
    if n > 0 {
      NibblesValue(x / 16, n - 1);
    }
  }

  // -------------------------------------------------------------------------
  // From

  /** Four bits of a number. */
  function Digit(x: nat, m: nat): (r: nat) {
    x / Power(16, m) % 16
  }

  /** The FromBCD loop: reads the digits from the top, whatever they are, and never overflows. */
  method FromBcd(src: nat) returns (dst: nat)
    requires src < WORD
    ensures dst == Value(Nibbles(src, 16), 10)
  {
    hide Value, Nibbles, Power, Digit;
    ghost var s := Nibbles(src, 16);
    var i := 64;
    dst := 0;
    ValueFirst(s[16..], 10);
    while i > 0
      invariant 0 <= i <= 64 && i % 4 == 0 && dst == Value(s[i / 4..], 10)
      decreases i
    {
      i := i - 4;
      FromStep(src, i / 4, dst);
      dst := (dst * 10) % WORD;
      dst := (dst + Digit(src, i / 4)) % WORD;
    }
    assert s[0..] == s;
  }

  lemma FromStep(src: nat, m: nat, dst: nat)
    requires src < WORD && m < 16 && dst == Value(Nibbles(src, 16)[m + 1..], 10)
    ensures ((dst * 10) % WORD + Digit(src, m)) % WORD == Value(Nibbles(src, 16)[m..], 10)
  {
    hide Value, Nibbles, Power;
    var s := Nibbles(src, 16);
    WordIsPower();
    NibblesValue(src, 16);
    ValueDrop(s, m);
    var t := s[m..];
    assert t[0] == s[m] && t[1..] == s[m + 1..];
    ValueFirst(t, 10);
    DecimalBound(t);
    PowerBound(16 - m);
    NoWrap(dst, s[m], Value(t, 10));
  }

  lemma NoWrap(dst: nat, d: nat, v: nat)
    requires v == d + 10 * dst && v < WORD
    ensures ((dst * 10) % WORD + d) % WORD == v
  {
  }

  // -------------------------------------------------------------------------
  // To

  /** The decimal digits of a number, without leading zeros. */
  ghost function Digits(n: nat): (r: seq<nat>)
    ensures Below(r, 10)
  {
    if n == 0 then [] else [n % 10] + Digits(n / 10)
  }

  lemma {:induction false} DigitsValue(n: nat)
    ensures Value(Digits(n), 10) == n
  {
    if n > 0 {
      DigitsValue(n / 10);
    }
  }

  lemma {:induction false} DigitsCount(n: nat, k: nat)
    ensures |Digits(n)| <= k <==> n < Power(10, k)
    decreases k
  {
    if k > 0 && n > 0 {
      DigitsCount(n / 10, k - 1);
    }
  }

  lemma {:induction false} DigitsDrop(n: nat, k: nat)
    requires k <= |Digits(n)|
    ensures Digits(n)[k..] == Digits(n / Power(10, k))
    decreases k
  {
    if k > 0 {
      DigitsDrop(n / 10, k - 1);
      NestedDivision(n, 10, Power(10, k - 1));
    }
  }

  ghost function Zeros(n: nat): (r: seq<nat>)
    ensures |r| == n && Below(r, 1)
  {
    seq(n, _ => 0)
  }

  /**
   The register after the digits so far have been shifted in: the last sixteen, with zeros below if there are fewer.
   */
  ghost function Window(done: seq<nat>): (r: seq<nat>)
    ensures |r| == 16
  {
    (Zeros(16) + done)[|done|..]
  }

  lemma WindowStep(done: seq<nat>, d: nat)
    ensures Window(done + [d]) == Window(done)[1..] + [d]
  {
    assert Zeros(16) + (done + [d]) == (Zeros(16) + done) + [d];
  }

  lemma ShiftIn(s: seq<nat>, d: nat)
    requires |s| == 16 && Below(s, 16)
    ensures Value(s[1..] + [d], 16) == Value(s, 16) / 16 + d * 0x1000_0000_0000_0000
  {
    hide Value, Power;
    WordIsPower();
    ValueDrop(s, 1);
    PowerOne();
    ValueAppend(s[1..], d, 16);
  }

  lemma PowerOne()
    ensures Power(16, 1) == 16
  {
  }

  lemma WindowBelow(done: seq<nat>)
    requires Below(done, 10)
    ensures Below(Window(done), 16)
  {
    var w, all := Window(done), Zeros(16) + done;
    forall i {:trigger w[i]} | 0 <= i < 16
      ensures w[i] < 16
    {
      assert w[i] == all[i + |done|];
      assert i + |done| >= 16 ==> all[i + |done|] == done[i + |done| - 16];
    }
  }

  /** What the last shift leaves: all digits if they fit the register, else those that did not. */
  ghost function Kept(n: nat): (r: seq<nat>) {
    if |Digits(n)| <= 16 then Digits(n) else Digits(n)[16..]
  }

  lemma LastShift(n: nat, i: nat)
    requires |Digits(n)| <= 20 && i == (if |Digits(n)| <= 16 then 64 - 4 * |Digits(n)| else WORD + 64 - 4 * |Digits(n)|)
    ensures Value(Window(Digits(n)), 16) / Power(16, i % 64 / 4) == Value(Kept(n), 16)
  {
    hide Value, Power, Digits;
    var d := Digits(n);
    var k, w, m: nat := |d|, Window(d), i % 64 / 4;
    WindowBelow(d);
    ValueDrop(w, m);
    if k == 0 {
      assert d == [] && m == 0;
      assert w[m..] == Zeros(16);
      ZerosValue(16, 16);
      ValueFirst([], 16);
    } else if k <= 16 {
      assert w[m..] == d;
    } else {
      assert w[m..] == d[16..];
    }
  }

  lemma {:induction false} ZerosValue(n: nat, base: nat)
    ensures Value(Zeros(n), base) == 0
  {
    if n > 0 {
      assert Zeros(n)[1..] == Zeros(n - 1);
      ZerosValue(n - 1, base);
    }
  }

  /** The ToBCD loop. */
  method ToBcd(n: nat) returns (dst: nat)
    requires n < WORD
    ensures dst == Value(Kept(n), 16)
  {
    hide Value, Power, Digits, Window, Below, Kept;
    ghost var all, k := Digits(n), 0;
    AtMostTwenty(n);
    var src, i := n, 64;
    dst := 0;
    ghost var done: seq<nat> := [];
    EmptyWindow();
    while src != 0
      invariant all == done + Digits(src) && |all| <= 20 && Below(done, 10) && dst == Value(Window(done), 16)
      invariant i == if |done| <= 16 then 64 - 4 * |done| else WORD + 64 - 4 * |done|
      decreases src
    {
      DigitsFirst(src);
      WindowBelow(done);
      ShiftIn(Window(done), src % 10);
      WindowStep(done, src % 10);
      BelowAppend(done, src % 10);
      dst := dst / 16;
      i := (i + WORD - 4) % WORD;
      dst := dst + src % 10 * 0x1000_0000_0000_0000;
      done := done + [src % 10];
      src := src / 10;
    }
    DigitsFirst(0);
    assert all == done;
    LastShift(n, i);
    dst := dst / Power(16, i % 64 / 4);
  }

  lemma DigitsFirst(n: nat)
    ensures Digits(n) == if n == 0 then [] else [n % 10] + Digits(n / 10)
  {
  }

  lemma BelowAppend(s: seq<nat>, d: nat)
    requires Below(s, 10) && d < 10
    ensures Below(s + [d], 10)
  {
  }

  lemma EmptyWindow()
    ensures Below([], 10) && Value(Window([]), 16) == 0
  {
    assert Window([]) == Zeros(16);
    ZerosValue(16, 16);
  }

  lemma AtMostTwenty(n: nat)
    requires n < WORD
    ensures |Digits(n)| <= 20
  {
    hide Digits;
    DigitsCount(n, 20);
    assert Power(10, 20) > WORD by {
      PowerBound(16);
      assert Power(10, 18) == 1_000_000_000_000_000_000;
    }
  }

  // -------------------------------------------------------------------------
  // There and back

  lemma {:induction false} NibblesOfDigits(d: seq<nat>, n: nat)
    requires Below(d, 10) && |d| <= n
    ensures Nibbles(Value(d, 16), n) == d + Zeros(n - |d|)
  {
    if n > 0 {
      if d == [] {
        NibblesOfDigits([], n - 1);
        assert Zeros(n) == [0] + Zeros(n - 1);
        assert [] + Zeros(n) == Zeros(n) && [] + Zeros(n - 1) == Zeros(n - 1);
      } else {
        assert d[0] < 10;
        NibblesOfDigits(d[1..], n - 1);
        ValueFirst(d, 16);
        DivModUnique(Value(d, 16), 16, Value(d[1..], 16), d[0]);
        hide Value;
        assert d + Zeros(n - |d|) == [d[0]] + (d[1..] + Zeros(n - |d|));
      }
    }
  }

  lemma {:induction false} ValuePadded(d: seq<nat>, n: nat)
    ensures Value(d + Zeros(n), 10) == Value(d, 10)
  {
    if d == [] {
      assert d + Zeros(n) == Zeros(n);
      ZerosValue(n, 10);
    } else {
      ValuePadded(d[1..], n);
      assert (d + Zeros(n))[1..] == d[1..] + Zeros(n);
    }
  }

  /** FromBCD undoes ToBCD exactly up to sixteen decimal digits; beyond that only the digits above them come back. */
  method ThereAndBack(n: nat) returns (r: nat)
    requires n < WORD
    ensures r == if n < 10_000_000_000_000_000 then n else n / 10_000_000_000_000_000
    ensures r == n <==> n < 10_000_000_000_000_000
  {
    hide Value, Nibbles, Digits, Power;
    var bcd := ToBcd(n);
    ghost var d := Kept(n);
    AtMostTwenty(n);
    DigitsCount(n, 16);
    PowerBound(16);
    KeptBelow(n);
    NibblesOfDigits(d, 16);
    ValuePadded(d, 16 - |d|);
    NibblesOfWord(d);
    r := FromBcd(bcd);
    DigitsValue(n);
    if |Digits(n)| > 16 {
      DigitsDrop(n, 16);
      DigitsValue(n / Power(10, 16));
    }
  }

  lemma KeptBelow(n: nat)
    requires |Digits(n)| <= 20
    ensures Below(Kept(n), 10) && |Kept(n)| <= 16
  {
    hide Digits;
    var d := Digits(n);
    if |d| > 16 {
      var k := d[16..];
      forall i {:trigger k[i]} | 0 <= i < |k|
        ensures k[i] < 10
      {
        assert k[i] == d[i + 16];
      }
    }
  }

  lemma {:induction false} DigitsBelow(d: seq<nat>)
    requires Below(d, 10)
    ensures Value(d, 16) < Power(16, |d|)
  {
    if d != [] {
      assert d[0] < 10;
      DigitsBelow(d[1..]);
    }
  }

  lemma NibblesOfWord(d: seq<nat>)
    requires Below(d, 10) && |d| <= 16
    ensures Value(d, 16) < WORD
  {
    hide Power, Value;
    DigitsBelow(d);
    PowerGrows(|d|, 16);
    WordIsPower();
  }

  lemma {:induction false} PowerGrows(n: nat, m: nat)
    requires n <= m
    ensures Power(16, n) <= Power(16, m)
  {
    if n < m {
      PowerGrows(n, m - 1);
    }
  }

  lemma PowerBound(n: nat)
    requires n <= 16
    ensures Power(10, n) <= Power(10, 16) == 10_000_000_000_000_000
    decreases 16 - n
  {
    if n < 16 {
      PowerBound(n + 1);
    } else {
      assert Power(10, 4) == 10_000;
      assert Power(10, 8) == 100_000_000;
      assert Power(10, 12) == 1_000_000_000_000;
    }
  }

  lemma WordIsPower()
    ensures Power(16, 16) == WORD && Power(16, 15) == 0x1000_0000_0000_0000
  {
    assert Power(16, 4) == 0x1_0000;
    assert Power(16, 8) == 0x1_0000_0000;
    assert Power(16, 12) == 0x1_0000_0000_0000;
  }
}
