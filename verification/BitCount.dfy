/** hweight32 of libdevmapper.h: the bit-parallel sum is the number of set bits. */
module BitCount {

  const TWO32: nat := 0x1_0000_0000

  /** The bitwise and of two words. */
  function And(a: nat, b: nat): nat {
    if a == 0 then 0
    else (if a % 2 == 1 && b % 2 == 1 then 1 else 0) + 2 * And(a / 2, b / 2)
  }

  /** Bit i of a word. */
  predicate Bit(x: nat, i: nat) {
    if i == 0 then x % 2 == 1 else Bit(x / 2, i - 1)
  }

  /** How many of the lowest n bits are set. */
  function Count(x: nat, n: nat): nat {
    if n == 0 then 0 else x % 2 + Count(x / 2, n - 1)
  }

  /** One step: the fields of a word that a mask selects, added to their neighbours
      shifted onto them; 32-bit unsigned arithmetic. */
  function Fold(r: nat, shift: nat, mask: nat): nat
    requires shift > 0
  {
    (And(r, mask) + And(r / shift, mask)) % TWO32
  }

  function Hweight32(i: nat): nat {
    var r1 := Fold(i, 2, 0x55555555);
    var r2 := Fold(r1, 4, 0x33333333);
    var r3 := Fold(r2, 16, 0x0F0F0F0F);
    var r4 := Fold(r3, 256, 0x00FF00FF);
    Fold(r4, 65536, 0x0000FFFF)
  }

  // ---- what a mask selects ----

  lemma {:induction false} AndAtMost(a: nat, b: nat)
    ensures And(a, b) <= b
  {
    if a != 0 {
      AndAtMost(a / 2, b / 2);
    }
  }

  lemma AndBits1(x: nat, m: nat)
    ensures And(x, 1 + 2 * m) == x % 2 + 2 * And(x / 2, m) && And(x, 2 * m) == 2 * And(x / 2, m)
  {
    assert (1 + 2 * m) / 2 == m && (1 + 2 * m) % 2 == 1 && (2 * m) / 2 == m && (2 * m) % 2 == 0;
  }

  lemma AndBits2(x: nat, m: nat)
    ensures And(x, 3 + 4 * m) == x % 4 + 4 * And(x / 4, m) && And(x, 4 * m) == 4 * And(x / 4, m)
  {
    hide And;
    AndBits1(x, 1 + 2 * m);
    AndBits1(x, 2 * m);
    AndBits1(x / 2, m);
  }

  lemma AndBits4(x: nat, m: nat)
    ensures And(x, 15 + 16 * m) == x % 16 + 16 * And(x / 16, m) && And(x, 16 * m) == 16 * And(x / 16, m)
  {
    hide And;
    assert x / 4 / 4 == x / 16 && x % 4 + 4 * (x / 4 % 4) == x % 16;
    AndBits2(x, 3 + 4 * m);
    AndBits2(x, 4 * m);
    AndBits2(x / 4, m);
  }

  lemma AndBits8(x: nat, m: nat)
    ensures And(x, 255 + 256 * m) == x % 256 + 256 * And(x / 256, m) && And(x, 256 * m) == 256 * And(x / 256, m)
  {
    hide And;
    assert x / 16 / 16 == x / 256 && x % 16 + 16 * (x / 16 % 16) == x % 256;
    AndBits4(x, 15 + 16 * m);
    AndBits4(x, 16 * m);
    AndBits4(x / 16, m);
  }

  lemma AndBits16(x: nat, m: nat)
    ensures And(x, 65535 + 65536 * m) == x % 65536 + 65536 * And(x / 65536, m)
      && And(x, 65536 * m) == 65536 * And(x / 65536, m)
  {
    hide And;
    assert x / 256 / 256 == x / 65536 && x % 256 + 256 * (x / 256 % 256) == x % 65536;
    AndBits8(x, 255 + 256 * m);
    AndBits8(x, 256 * m);
    AndBits8(x / 256, m);
  }

  // ---- digit sums ----

  /** The sum of the digits of x in base b. */
  ghost function Digits(x: nat, b: nat): nat
    requires b >= 2
  {
    if x == 0 then 0 else x % b + Digits(x / b, b)
  }

  ghost function Power(b: nat, k: nat): nat {
    if k == 0 then 1 else b * Power(b, k - 1)
  }

  /** k fields, each a digit b - 1 followed by a digit 0. */
  ghost function Mask(b: nat, k: nat): nat
    requires b >= 2
  {
    if k == 0 then 0 else b - 1 + (b * b) * Mask(b, k - 1)
  }

  lemma DivideDigit(d: nat, c: nat, q: nat)
    requires d < c
    ensures (d + c * q) / c == q && (d + c * q) % c == d
  {
    var x := d + c * q;
    var t := q - x / c;
    assert c * t == x % c - d;
    assert -1 < t < 1 by {
      if t >= 1 || t <= -1 {
        assert false;
      }
    }
  }

  lemma AppendDigit(d: nat, c: nat, rest: nat)
    requires d < c && c >= 2
    ensures Digits(d + c * rest, c) == d + Digits(rest, c)
  {
    DivideDigit(d, c, rest);
    var x := d + c * rest;
    if x == 0 {
      assert d == 0 && rest == 0;
    } else {
      assert Digits(x, c) == x % c + Digits(x / c, c);
    }
  }

  lemma TwoDigits(x: nat, b: nat)
    requires b >= 2
    ensures Digits(x, b) == x % b + (x / b) % b + Digits(x / b / b, b)
  {
    OneDigit(x, b);
    OneDigit(x / b, b);
  }

  lemma OneDigit(x: nat, b: nat)
    requires b >= 2
    ensures Digits(x, b) == x % b + Digits(x / b, b)
  {
  }

  lemma Zeros(m: nat, b: nat, c: nat)
    requires b >= 2 && c >= 2
    ensures And(0, m) == 0 && Digits(0, b) == 0 && Digits(0, c) == 0
  {
  }

  /** Folding the two lowest digits into one keeps the digit sum if folding the
      others does. */
  lemma FoldTwo(x: nat, b: nat, c: nat, r: nat, r': nat)
    requires b >= 2 && c >= 2 && x % b + (x / b) % b < c && r == (x % b + (x / b) % b) + c * r'
      && Digits(r', c) == Digits(x / b / b, b)
    ensures Digits(r, c) == Digits(x, b)
  {
    hide Digits;
    TwoDigits(x, b);
    AppendDigit(x % b + (x / b) % b, c, r');
  }

  lemma AndEven1(x: nat, m: nat)
    ensures And(x, 1 + 4 * m) == x % 2 + 4 * And(x / 4, m)
  {
    hide And;
    AndBits1(x, 2 * m);
    AndBits1(x / 2, m);
  }

  lemma {:induction false} Fold1Keeps(x: nat, k: nat)
    requires x < Power(4, k)
    ensures Digits(And(x, Mask(2, k)) + And(x / 2, Mask(2, k)), 4) == Digits(x, 2)
  {
    hide And, Digits;
    if k == 0 {
      Zeros(0, 2, 4);
    } else {
      var m := Mask(2, k - 1);
      AndEven1(x, m);
      AndEven1(x / 2, m);
      assert x / 2 / 2 == x / 4 && x / 2 / 4 == x / 4 / 2;
      Fold1Keeps(x / 4, k - 1);
      FoldTwo(x, 2, 4, And(x, Mask(2, k)) + And(x / 2, Mask(2, k)), And(x / 4, m) + And(x / 4 / 2, m));
    }
  }

  lemma AndEven2(x: nat, m: nat)
    ensures And(x, 3 + 16 * m) == x % 4 + 16 * And(x / 16, m)
  {
    hide And;
    AndBits2(x, 4 * m);
    AndBits2(x / 4, m);
  }

  lemma {:induction false} Fold2Keeps(x: nat, k: nat)
    requires x < Power(16, k)
    ensures Digits(And(x, Mask(4, k)) + And(x / 4, Mask(4, k)), 16) == Digits(x, 4)
  {
    hide And, Digits;
    if k == 0 {
      Zeros(0, 4, 16);
    } else {
      var m := Mask(4, k - 1);
      AndEven2(x, m);
      AndEven2(x / 4, m);
      assert x / 4 / 4 == x / 16 && x / 4 / 16 == x / 16 / 4;
      Fold2Keeps(x / 16, k - 1);
      FoldTwo(x, 4, 16, And(x, Mask(4, k)) + And(x / 4, Mask(4, k)), And(x / 16, m) + And(x / 16 / 4, m));
    }
  }

  lemma AndEven4(x: nat, m: nat)
    ensures And(x, 15 + 256 * m) == x % 16 + 256 * And(x / 256, m)
  {
    hide And;
    AndBits4(x, 16 * m);
    AndBits4(x / 16, m);
  }

  lemma {:induction false} Fold4Keeps(x: nat, k: nat)
    requires x < Power(256, k)
    ensures Digits(And(x, Mask(16, k)) + And(x / 16, Mask(16, k)), 256) == Digits(x, 16)
  {
    hide And, Digits;
    if k == 0 {
      Zeros(0, 16, 256);
    } else {
      var m := Mask(16, k - 1);
      AndEven4(x, m);
      AndEven4(x / 16, m);
      assert x / 16 / 16 == x / 256 && x / 16 / 256 == x / 256 / 16;
      Fold4Keeps(x / 256, k - 1);
      FoldTwo(x, 16, 256, And(x, Mask(16, k)) + And(x / 16, Mask(16, k)), And(x / 256, m) + And(x / 256 / 16, m));
    }
  }

  lemma AndEven8(x: nat, m: nat)
    ensures And(x, 255 + 65536 * m) == x % 256 + 65536 * And(x / 65536, m)
  {
    hide And;
    AndBits8(x, 256 * m);
    AndBits8(x / 256, m);
  }

  lemma {:induction false} Fold8Keeps(x: nat, k: nat)
    requires x < Power(65536, k)
    ensures Digits(And(x, Mask(256, k)) + And(x / 256, Mask(256, k)), 65536) == Digits(x, 256)
  {
    hide And, Digits;
    if k == 0 {
      Zeros(0, 256, 65536);
    } else {
      var m := Mask(256, k - 1);
      AndEven8(x, m);
      AndEven8(x / 256, m);
      assert x / 256 / 256 == x / 65536 && x / 256 / 65536 == x / 65536 / 256;
      Fold8Keeps(x / 65536, k - 1);
      FoldTwo(x, 256, 65536, And(x, Mask(256, k)) + And(x / 256, Mask(256, k)),
        And(x / 65536, m) + And(x / 65536 / 256, m));
    }
  }

  lemma AndEven16(x: nat, m: nat)
    ensures And(x, 65535 + 4294967296 * m) == x % 65536 + 4294967296 * And(x / 4294967296, m)
  {
    hide And;
    AndBits16(x, 65536 * m);
    AndBits16(x / 65536, m);
  }

  lemma {:induction false} Fold16Keeps(x: nat, k: nat)
    requires x < Power(4294967296, k)
    ensures Digits(And(x, Mask(65536, k)) + And(x / 65536, Mask(65536, k)), 4294967296) == Digits(x, 65536)
  {
    hide And, Digits;
    if k == 0 {
      Zeros(0, 65536, 4294967296);
    } else {
      var m := Mask(65536, k - 1);
      AndEven16(x, m);
      AndEven16(x / 65536, m);
      assert x / 65536 / 65536 == x / 4294967296 && x / 65536 / 4294967296 == x / 4294967296 / 65536;
      Fold16Keeps(x / 4294967296, k - 1);
      FoldTwo(x, 65536, 4294967296, And(x, Mask(65536, k)) + And(x / 65536, Mask(65536, k)),
        And(x / 4294967296, m) + And(x / 4294967296 / 65536, m));
    }
  }

  lemma {:induction false} CountDigits(x: nat, n: nat)
    requires x < Power(2, n)
    ensures Count(x, n) == Digits(x, 2)
  {
    if n > 0 {
      CountDigits(x / 2, n - 1);
      OneDigit(x, 2);
    }
  }

  lemma FoldIsExact(r: nat, shift: nat, mask: nat)
    requires shift > 0 && mask < 0x8000_0000
    ensures Fold(r, shift, mask) == And(r, mask) + And(r / shift, mask) < TWO32
  {
    hide And;
    AndAtMost(r, mask);
    AndAtMost(r / shift, mask);
  }

  lemma Widths()
    ensures Power(4, 16) == TWO32 && Power(16, 8) == TWO32 && Power(256, 4) == TWO32 && Power(65536, 2) == TWO32
      && Power(TWO32, 1) == TWO32
  {
    assert Power(4, 4) == 256 && Power(4, 8) == 65536 && Power(4, 12) == 0x1000000;
  }

  lemma Width2()
    ensures Power(2, 32) == TWO32
  {
    assert Power(2, 8) == 256 && Power(2, 16) == 65536 && Power(2, 24) == 0x1000000;
  }

  lemma Masks()
    ensures Mask(2, 16) == 0x55555555 && Mask(4, 8) == 0x33333333 && Mask(16, 4) == 0x0F0F0F0F
    ensures Mask(256, 2) == 0x00FF00FF && Mask(65536, 1) == 0x0000FFFF
  {
    assert Mask(2, 4) == 0x55 && Mask(2, 8) == 0x5555 && Mask(2, 12) == 0x555555;
  }

  /** hweight32 returns the number of set bits of its argument. */
  lemma HweightCounts(i: nat)
    requires i < TWO32
    ensures Hweight32(i) == Count(i, 32)
  {
    hide And, Digits, Count, Power, Mask, Fold;
    Widths();
    Width2();
    Masks();
    var r1 := Fold(i, 2, 0x55555555);
    var r2 := Fold(r1, 4, 0x33333333);
    var r3 := Fold(r2, 16, 0x0F0F0F0F);
    var r4 := Fold(r3, 256, 0x00FF00FF);
    var r5 := Fold(r4, 65536, 0x0000FFFF);
    FoldIsExact(i, 2, 0x55555555);
    FoldIsExact(r1, 4, 0x33333333);
    FoldIsExact(r2, 16, 0x0F0F0F0F);
    FoldIsExact(r3, 256, 0x00FF00FF);
    FoldIsExact(r4, 65536, 0x0000FFFF);
    CountDigits(i, 32);
    Fold1Keeps(i, 16);
    Fold2Keeps(r1, 8);
    Fold4Keeps(r2, 4);
    Fold8Keeps(r3, 2);
    Fold16Keeps(r4, 1);
    OneDigit(r5, TWO32);
    Zeros(0, TWO32, TWO32);
  }
}
