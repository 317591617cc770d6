/** The bit tricks of src/common/util/ities.h.  Unsigned words are natural numbers below a power of two, and their
  bits are taken one at a time. */
module Bits {

  function Pow2(k: nat): (p: nat)
    ensures p > 0
  {
    if k == 0 then 1 else 2 * Pow2(k - 1)
  }

  function Low(n: nat): nat {
    n % 2
  }

  predicate Bit(n: nat, i: nat) {
    if i == 0 then Low(n) == 1 else Bit(n / 2, i - 1)
  }

  function And(a: nat, b: nat): nat {
    if a == 0 || b == 0 then 0 else 2 * And(a / 2, b / 2) + Low(a) * Low(b)
  }

  function Or(a: nat, b: nat): nat {
    if a == 0 then b else if b == 0 then a else 2 * Or(a / 2, b / 2) + if Low(a) == 1 || Low(b) == 1 then 1 else 0
  }

  function Shr(n: nat, k: nat): nat {
    if k == 0 then n else Shr(n / 2, k - 1)
  }

  lemma {:induction false} ZeroHasNoBits(i: nat)
    ensures !Bit(0, i)
  {
    if i > 0 { ZeroHasNoBits(i - 1); }
  }

  lemma {:induction false} OrBit(a: nat, b: nat, i: nat)
    ensures Bit(Or(a, b), i) <==> Bit(a, i) || Bit(b, i)
  {
    if a == 0 || b == 0 {
      ZeroHasNoBits(i);
    } else if i > 0 {
      OrBit(a / 2, b / 2, i - 1);
    }
  }

  lemma {:induction false} ShrBit(n: nat, k: nat, i: nat)
    ensures Bit(Shr(n, k), i) <==> Bit(n, i + k)
  {
    if k > 0 { ShrBit(n / 2, k - 1, i); }
  }

  // ---------------------------------------------------------------------------
  // leftmost_one

  /** The position of the highest set bit. */
  function Highest(n: nat): nat
    requires n > 0
  {
    if n == 1 then 0 else 1 + Highest(n / 2)
  }

  lemma {:induction false} HighestBounds(n: nat)
    requires n > 0
    ensures Pow2(Highest(n)) <= n < 2 * Pow2(Highest(n))
  {
    if n > 1 { HighestBounds(n / 2); }
  }

  lemma {:induction false} HighestBit(n: nat, i: nat)
    requires n > 0
    ensures Bit(n, Highest(n)) && (i > Highest(n) ==> !Bit(n, i))
  {
    if n > 1 {
      HighestBit(n / 2, if i > 0 then i - 1 else 0);
    } else if i > 0 {
      ZeroHasNoBits(i - 1);
    }
  }

  lemma {:induction false} HighestBelow(n: nat, width: nat)
    requires 0 < n < Pow2(width)
    ensures Highest(n) < width
  {
    if n > 1 { HighestBelow(n / 2, width - 1); }
  }

  /** A word whose bits are exactly the first k is one below a power of two. */
  lemma {:induction false} LowOnes(n: nat, k: nat)
    requires forall i: nat :: Bit(n, i) <==> i < k
    ensures n == Pow2(k) - 1
  {
    if k == 0 {
      NoBits(n);
    } else {
      assert Bit(n, 0);
      forall i: nat ensures Bit(n / 2, i) <==> i < k - 1 { assert Bit(n, i + 1) == Bit(n / 2, i); }
      LowOnes(n / 2, k - 1);
    }
  }

  lemma {:induction false} NoBits(n: nat)
    requires forall i: nat :: !Bit(n, i)
    ensures n == 0
  {
    if n > 0 { HighestBit(n, 0); }
  }

  /** Somewhere from i on, at less than m further up, n has a bit. */
  ghost predicate BitNear(n: nat, i: nat, m: nat) {
    exists j: nat :: i <= j < i + m && Bit(n, j)
  }

  /** One round of smearing doubles the reach. */
  lemma SmearDoubles(n: nat, s: nat, m: nat, i: nat)
    requires m > 0 && forall k: nat :: Bit(s, k) <==> BitNear(n, k, m)
    ensures Bit(Or(s, Shr(s, m)), i) <==> BitNear(n, i, 2 * m)
  {
    OrBit(s, Shr(s, m), i);
    ShrBit(s, m, i);
    assert Bit(s, i) <==> BitNear(n, i, m);
    assert Bit(s, i + m) <==> BitNear(n, i + m, m);
    if BitNear(n, i, 2 * m) {
      var j: nat :| i <= j < i + 2 * m && Bit(n, j);
      assert if j < i + m then BitNear(n, i, m) else BitNear(n, i + m, m);
    }
  }

  /** The loop on a word of any width that is a power of two; sizeof(T) * 8 is one. */
  method LeftmostOne(n: nat, k: nat) returns (r: nat)
    requires n < Pow2(Pow2(k))
    ensures n == 0 ==> r == 0
    ensures n > 0 ==> r == Pow2(Highest(n)) && r <= n < 2 * r
  {
    var s: nat, mask: nat := n, 1;
    ghost var j: nat := 0;
    assert forall i: nat :: BitNear(n, i, 1) <==> Bit(n, i);
    while mask < Pow2(k)
      invariant j <= k && mask == Pow2(j)
      invariant forall i: nat :: Bit(s, i) <==> BitNear(n, i, mask)
      decreases k - j
    {
      forall i: nat ensures Bit(Or(s, Shr(s, mask)), i) <==> BitNear(n, i, 2 * mask) { SmearDoubles(n, s, mask, i); }
      Pow2Grows(j, k);
      s := Or(s, Shr(s, mask));
      mask := mask * 2;
      j := j + 1;
    }
    Smeared(n, s, mask, k);
    r := s - Shr(s, 1);
  }

  lemma {:induction false} Pow2Grows(j: nat, k: nat)
    ensures Pow2(j) < Pow2(k) <==> j < k
  {
    if j > 0 && k > 0 { Pow2Grows(j - 1, k - 1); }
  }

  lemma NearHighest(n: nat, i: nat, m: nat)
    requires n > 0 && Highest(n) < m
    ensures BitNear(n, i, m) <==> i <= Highest(n)
  {
    var h := Highest(n);
    HighestBit(n, h);
    if i <= h {
      assert i <= h < i + m && Bit(n, h);
    }
    if BitNear(n, i, m) {
      var j: nat :| i <= j < i + m && Bit(n, j);
      HighestBit(n, j);
    }
  }

  lemma NoneNear(i: nat, m: nat)
    ensures !BitNear(0, i, m)
  {
    forall j: nat ensures !Bit(0, j) { ZeroHasNoBits(j); }
  }

  /** Smeared over its whole width, a word has exactly the bits up to its highest. */
  lemma Smeared(n: nat, s: nat, m: nat, k: nat)
    requires n < Pow2(Pow2(k)) && Pow2(k) <= m && forall i: nat :: Bit(s, i) <==> BitNear(n, i, m)
    ensures Shr(s, 1) == s / 2 <= s
    ensures n == 0 ==> s == 0
    ensures n > 0 ==> s - s / 2 == Pow2(Highest(n)) <= n < 2 * Pow2(Highest(n))
  {
    hide Bit, BitNear;
    if n == 0 {
      forall i: nat ensures !Bit(s, i) { NoneNear(i, m); }
      NoBits(s);
    } else {
      HighestBelow(n, Pow2(k));
      forall i: nat ensures Bit(s, i) <==> i < Highest(n) + 1 { NearHighest(n, i, m); }
      LowOnes(s, Highest(n) + 1);
      HighestBounds(n);
    }
  }

  // ---------------------------------------------------------------------------
  // bit_count

  /** The number of set bits. */
  function Ones(n: nat): nat {
    if n == 0 then 0 else Low(n) + Ones(n / 2)
  }

  /** Subtractions, additions and masks of eleven octal digits, and one division. */
  function BitCount(u: nat): nat
    requires u < 0x1_0000_0000
  {
    var uCount := u - And(u / 2, 0xDB6D_B6DB) - And(u / 4, 0x4924_9249);      // octal 33333333333 and 11111111111
    if uCount < 0 then 0 else And(uCount + uCount / 8, 0xC71C_71C7) % 63        // octal 30707070707
  }

  lemma AndHalves(a: nat, b: nat)
    ensures And(a, b) == 2 * And(a / 2, b / 2) + Low(a) * Low(b)
  {
    if a == 0 || b == 0 {
      var a', b' := a / 2, b / 2;
      assert And(a', b') == 0 && Low(a) * Low(b) == 0;
    }
  }

  lemma AndZero(b: nat)
    ensures And(0, b) == 0 && And(b, 0) == 0
  {
  }

  /** Masking goes digit by digit. */
  lemma AndDigit(a: nat, x: nat, b: nat, y: nat)
    requires x < 8 && y < 8
    ensures And(8 * a + x, 8 * b + y) == 8 * And(a, b) + And(x, y)
  {
    hide And;
    AndBit(4 * a + x / 2, x % 2, 4 * b + y / 2, y % 2);
    AndBit(2 * a + x / 4, x / 2 % 2, 2 * b + y / 4, y / 2 % 2);
    AndBit(a, x / 4, b, y / 4);
    AndBit(x / 2, x % 2, y / 2, y % 2);
    AndBit(x / 4, x / 2 % 2, y / 4, y / 2 % 2);
    AndBit(0, x / 4, 0, y / 4);
    AndZero(0);
    assert 8 * a + x == 2 * (4 * a + x / 2) + x % 2 && 8 * b + y == 2 * (4 * b + y / 2) + y % 2;
    assert 4 * a + x / 2 == 2 * (2 * a + x / 4) + x / 2 % 2 && 4 * b + y / 2 == 2 * (2 * b + y / 4) + y / 2 % 2;
  }

  lemma AndBit(a: nat, x: nat, b: nat, y: nat)
    requires x < 2 && y < 2
    ensures And(2 * a + x, 2 * b + y) == 2 * And(a, b) + x * y
  {
    hide And;
    AndHalves(2 * a + x, 2 * b + y);
  }

  lemma AndTwoDigits(a: nat, x: nat, b: nat, y: nat)
    requires x < 64 && y < 64
    ensures And(64 * a + x, 64 * b + y) == 64 * And(a, b) + And(x, y)
  {
    hide And;
    AndDigit(8 * a + x / 8, x % 8, 8 * b + y / 8, y % 8);
    AndDigit(a, x / 8, b, y / 8);
    AndDigit(x / 8, x % 8, y / 8, y % 8);
    assert 64 * a + x == 8 * (8 * a + x / 8) + x % 8 && 64 * b + y == 8 * (8 * b + y / 8) + y % 8;
  }

  /** Small masks cut off what is above them. */
  lemma AndOne(c: nat, x: nat)
    requires x < 2
    ensures And(2 * c + x, 1) == x
  {
    hide And;
    AndBit(c, x, 0, 1);
    AndZero(c);
  }

  lemma AndThree(c: nat, x: nat)
    requires x < 4
    ensures And(4 * c + x, 3) == x
  {
    hide And;
    AndBit(2 * c + x / 2, x % 2, 1, 1);
    AndOne(c, x / 2);
  }

  lemma AndSeven(c: nat, x: nat)
    requires x < 8
    ensures And(8 * c + x, 7) == x
  {
    hide And;
    AndBit(4 * c + x / 2, x % 2, 3, 1);
    AndThree(c, x / 2);
  }

  function Digits(d: nat, n: nat): nat {
    if n == 0 then 0 else d + 8 * Digits(d, n - 1)
  }

  /** Every octal digit replaced by the number of its bits. */
  function DigitCounts(u: nat, n: nat): nat {
    if n == 0 then 0 else Ones(u % 8) + 8 * DigitCounts(u / 8, n - 1)
  }

  lemma OnesOfDigit(d: nat)
    requires d < 8
    ensures Ones(d) == d - d / 2 - d / 4 <= 3 && (d < 4 ==> Ones(d) <= 2)
  {
    assert d / 2 / 2 == d / 4 && d / 2 / 2 / 2 == 0;
  }

  lemma {:induction false} OnesByDigits(u: nat)
    ensures Ones(u) == Ones(u % 8) + Ones(u / 8)
  {
    var d := u % 8;
    assert u == 8 * (u / 8) + d;
    assert u / 2 == 4 * (u / 8) + d / 2 && u / 2 / 2 == 2 * (u / 8) + d / 4 && u / 2 / 2 / 2 == u / 8;
    OnesHalf(u);
    OnesHalf(u / 2);
    OnesHalf(u / 2 / 2);
    OnesHalf(d);
    OnesHalf(d / 2);
    OnesHalf(d / 2 / 2);
  }

  lemma OnesHalf(u: nat)
    ensures Ones(u) == Low(u) + Ones(u / 2)
  {
  }

  lemma Pow2Times8(k: nat)
    ensures Pow2(k + 3) == 8 * Pow2(k)
  {
    assert Pow2(k + 3) == 2 * Pow2(k + 2) && Pow2(k + 2) == 2 * Pow2(k + 1);
  }

  /** The two subtractions count the bits of each digit; none borrows. */
  lemma {:induction false} CountsDigits(u: nat, n: nat)
    requires u < Pow2(3 * n)
    ensures u - And(u / 2, Digits(3, n)) - And(u / 4, Digits(1, n)) == DigitCounts(u, n)
  {
    hide And;
    if n == 0 {
      AndZero(0);
    } else {
      var v, d := u / 8, u % 8;
      Pow2Times8(3 * (n - 1));
      assert 3 * n == 3 * (n - 1) + 3;
      CountsDigits(v, n - 1);
      DigitHalves(u, Digits(3, n - 1));
      DigitQuarters(u, Digits(1, n - 1));
      OnesOfDigit(d);
    }
  }

  lemma DigitHalves(u: nat, mask: nat)
    ensures And(u / 2, 3 + 8 * mask) == u % 8 / 2 + 8 * And(u / 8 / 2, mask)
  {
    hide And;
    var v, d := u / 8, u % 8;
    assert u / 2 == 8 * (v / 2) + (4 * (v % 2) + d / 2);
    AndDigit(v / 2, 4 * (v % 2) + d / 2, mask, 3);
    AndThree(v % 2, d / 2);
  }

  lemma DigitQuarters(u: nat, mask: nat)
    ensures And(u / 4, 1 + 8 * mask) == u % 8 / 4 + 8 * And(u / 8 / 4, mask)
  {
    hide And;
    var v, d := u / 8, u % 8;
    assert u / 4 == 8 * (v / 4) + (2 * (v % 4) + d / 4);
    AndDigit(v / 4, 2 * (v % 4) + d / 4, mask, 1);
    AndOne(v % 4, d / 4);
  }

  /** The masks of the last step: one digit of two, and two bits at the top. */
  function PairMask(n: nat): nat {
    if n == 0 then 3 else 7 + 64 * PairMask(n - 1)
  }

  /** The sum of a word's neighbouring digit counts, every other one kept. */
  function PairSums(w: nat, n: nat): nat {
    And(w + w / 8, PairMask(n))
  }

  /** Adding neighbouring digits and keeping every other sum leaves the number of bits, up to multiples of 63. */
  lemma {:induction false} PairsSum(u: nat, n: nat) returns (q: nat)
    requires u < 4 * Pow2(6 * n)
    ensures PairSums(DigitCounts(u, 2 * n + 1), n) == Ones(u) + 63 * q
  {
    hide And, PairSums;
    if n == 0 {
      LastPair(u);
      q := 0;
    } else {
      Pow2Times8(6 * n - 6);
      Pow2Times8(6 * n - 3);
      assert 6 * n - 6 == 6 * (n - 1);
      var q' := PairsSum(u / 64, n - 1);
      PairStep(u, n);
      q := Ones(u / 64) + 64 * q';
    }
  }

  lemma LastPair(u: nat)
    requires u < 4
    ensures PairSums(DigitCounts(u, 1), 0) == Ones(u)
  {
    hide And, Ones, DigitCounts;
    OnesOfDigit(u);
    FirstDigit(u, 1);
    NoDigits(u / 8);
    AndThree(0, Ones(u));
  }

  lemma NoDigits(u: nat)
    ensures DigitCounts(u, 0) == 0
  {
  }

  lemma PairStep(u: nat, n: nat)
    requires n > 0
    ensures PairSums(DigitCounts(u, 2 * n + 1), n) ==
      Ones(u) - Ones(u / 64) + 64 * PairSums(DigitCounts(u / 64, 2 * (n - 1) + 1), n - 1)
  {
    hide And, Ones, DigitCounts;
    var c0, c1 := Ones(u % 8), Ones(u / 8 % 8);
    var w2 := DigitCounts(u / 64, 2 * n - 1);
    var c2 := w2 % 8;
    OnesOfDigit(u % 8);
    OnesOfDigit(u / 8 % 8);
    FirstDigit(u, 2 * n + 1);
    FirstDigit(u / 8, 2 * n);
    FirstDigit(u / 64, 2 * n - 1);
    assert u / 8 / 8 == u / 64;
    var w := DigitCounts(u, 2 * n + 1);
    assert w == c0 + 8 * c1 + 64 * w2 && w / 8 == c1 + 8 * w2;
    assert w + w / 8 == 64 * (w2 + w2 / 8) + (8 * (c1 + c2) + (c0 + c1));
    AndTwoDigits(w2 + w2 / 8, 8 * (c1 + c2) + (c0 + c1), PairMask(n - 1), 7);
    AndSeven(c1 + c2, c0 + c1);
    OnesByDigits(u);
    OnesByDigits(u / 8);
  }

  lemma FirstDigit(u: nat, n: nat)
    requires n > 0
    ensures DigitCounts(u, n) == Ones(u % 8) + 8 * DigitCounts(u / 8, n - 1)
    ensures DigitCounts(u, n) % 8 == Ones(u % 8) <= 3
  {
    hide Ones;
    OnesOfDigit(u % 8);
    LowDigit(Ones(u % 8), DigitCounts(u / 8, n - 1));
  }

  lemma LowDigit(x: nat, y: nat)
    requires x < 8
    ensures (x + 8 * y) % 8 == x
  {
  }

  lemma {:induction false} OnesBound(u: nat, n: nat)
    requires u < Pow2(n)
    ensures Ones(u) <= n
  {
    if u > 0 { OnesBound(u / 2, n - 1); }
  }

  lemma Masks()
    ensures Digits(3, 11) == 0xDB6D_B6DB && Digits(1, 11) == 0x4924_9249 && PairMask(5) == 0xC71C_71C7
  {
  }

  lemma WordSizes()
    ensures Pow2(30) == 0x4000_0000 && Pow2(32) == 0x1_0000_0000 && Pow2(33) == 0x2_0000_0000
  {
    for k := 0 to 10
      invariant Pow2(3 * k)
        == [1, 8, 64, 512, 4096, 0x8000, 0x4_0000, 0x20_0000, 0x100_0000, 0x800_0000, 0x4000_0000][k]
    {
      Pow2Times8(3 * k);
    }
    Pow2Times8(30);
    assert Pow2(33) == 2 * Pow2(32);
  }

  lemma CountsAll(u: nat, n: nat) returns (q: nat)
    requires u < 4 * Pow2(6 * n) && u < Pow2(3 * (2 * n + 1))
    ensures var w := u - And(u / 2, Digits(3, 2 * n + 1)) - And(u / 4, Digits(1, 2 * n + 1));
      w >= 0 && And(w + w / 8, PairMask(n)) == Ones(u) + 63 * q
  {
    hide And, Digits, PairMask, DigitCounts, Pow2, Ones;
    CountsDigits(u, 2 * n + 1);
    q := PairsSum(u, n);
  }

  /** The trick counts the set bits of every 32-bit word. */
  lemma BitCountIsOnes(u: nat)
    requires u < 0x1_0000_0000
    ensures BitCount(u) == Ones(u)
  {
    hide And, Digits, PairMask, Pow2, Ones;
    Masks();
    WordSizes();
    OnesBound(u, 32);
    var q := CountsAll(u, 5);
  }

  // ---------------------------------------------------------------------------
  // find_first

  const MULTIPLY_DE_BRUIJN_BIT_POSITION: seq<nat> :=
    [0, 1, 28, 2, 29, 14, 24, 3, 30, 22, 20, 15, 25, 17, 4, 8,
     31, 27, 13, 23, 21, 19, 16, 7, 26, 12, 18, 6, 11, 5, 10, 9]

  /** The two's complement of a word. */
  function Negate(u: nat, width: nat): nat {
    if u == 0 || u > Pow2(width) then 0 else Pow2(width) - u
  }

  function FindFirst(bits: nat): nat
    requires bits < 0x1_0000_0000
  {
    var isolated := And(bits, Negate(bits, 64));
    MULTIPLY_DE_BRUIJN_BIT_POSITION[isolated * 0x077C_B531 % 0x1_0000_0000 / 0x800_0000]
  }

  /** The position of the lowest set bit. */
  function Lowest(n: nat): nat
    requires n > 0
  {
    if n % 2 == 1 then 0 else 1 + Lowest(n / 2)
  }

  lemma {:induction false} LowestBit(n: nat, i: nat)
    requires n > 0
    ensures Bit(n, Lowest(n)) && (i < Lowest(n) ==> !Bit(n, i))
  {
    if n % 2 == 0 { LowestBit(n / 2, if i > 0 then i - 1 else 0); }
  }

  lemma {:induction false} LowestBelow(n: nat, width: nat)
    requires 0 < n < Pow2(width)
    ensures Lowest(n) < width
  {
    if n % 2 == 0 { LowestBelow(n / 2, width - 1); }
  }

  /** A word and its complement have no bit in common. */
  lemma {:induction false} NoneInCommon(n: nat, width: nat)
    requires n < Pow2(width)
    ensures And(n, Pow2(width) - 1 - n) == 0
  {
    if n > 0 {
      NoneInCommon(n / 2, width - 1);
      AndHalves(n, Pow2(width) - 1 - n);
    }
  }

  /** The bits that a word shares with its negation are the lowest set one. */
  lemma {:induction false} LowestIsolated(n: nat, width: nat)
    requires 0 < n < Pow2(width)
    ensures And(n, Negate(n, width)) == Pow2(Lowest(n))
  {
    AndHalves(n, Negate(n, width));
    if n % 2 == 1 {
      NoneInCommon(n / 2, width - 1);
    } else {
      LowestIsolated(n / 2, width - 1);
    }
  }

  /** Where the multiplication moves each power of two. */
  function Tops(): (s: seq<nat>)
    ensures |s| == 32
  {
    [0, 1, 3, 7, 14, 29, 27, 23, 15, 31, 30, 28, 25, 18, 5, 11,
     22, 13, 26, 21, 10, 20, 9, 19, 6, 12, 24, 17, 2, 4, 8, 16]
  }

  function Powers(): (s: seq<nat>)
    ensures |s| == 32
  {
    [1, 2, 4, 8, 16, 32, 64, 128, 256, 512, 1024, 2048, 4096, 8192, 16384, 32768, 65536, 131072,
     262144, 524288, 1048576, 2097152, 4194304, 8388608, 16777216, 33554432, 67108864, 134217728,
     268435456, 536870912, 1073741824, 2147483648]
  }

  lemma TableUndoes(k: nat)
    requires k < 32
    ensures MULTIPLY_DE_BRUIJN_BIT_POSITION[Tops()[k]] == k
  {
  }

  /** The multiplication moves a different five bits to the top for each power of two: quotients and remainders, case
    by case. */
  lemma MultipliedLow(k: nat, c: nat, m: nat, d: nat)
    requires 0 <= k < 11 && c == 0x077C_B531 && m == 0x1_0000_0000 && d == 0x800_0000
    ensures Powers()[k] * c % m / d == Tops()[k]
  {
    match k {
      case 0 => Quotient(1 * c, 0, 0, 125613361, m, d);
      case 1 => Quotient(2 * c, 0, 1, 117008994, m, d);
      case 2 => Quotient(4 * c, 0, 3, 99800260, m, d);
      case 3 => Quotient(8 * c, 0, 7, 65382792, m, d);
      case 4 => Quotient(16 * c, 0, 14, 130765584, m, d);
      case 5 => Quotient(32 * c, 0, 29, 127313440, m, d);
      case 6 => Quotient(64 * c, 1, 27, 120409152, m, d);
      case 7 => Quotient(128 * c, 3, 23, 106600576, m, d);
      case 8 => Quotient(256 * c, 7, 15, 78983424, m, d);
      case 9 => Quotient(512 * c, 14, 31, 23749120, m, d);
      case 10 => Quotient(1024 * c, 29, 30, 47498240, m, d);
    }
  }

  lemma MultipliedMiddle(k: nat, c: nat, m: nat, d: nat)
    requires 11 <= k < 22 && c == 0x077C_B531 && m == 0x1_0000_0000 && d == 0x800_0000
    ensures Powers()[k] * c % m / d == Tops()[k]
  {
    match k {
      case 11 => Quotient(2048 * c, 59, 28, 94996480, m, d);
      case 12 => Quotient(4096 * c, 119, 25, 55775232, m, d);
      case 13 => Quotient(8192 * c, 239, 18, 111550464, m, d);
      case 14 => Quotient(16384 * c, 479, 5, 88883200, m, d);
      case 15 => Quotient(32768 * c, 958, 11, 43548672, m, d);
      case 16 => Quotient(65536 * c, 1916, 22, 87097344, m, d);
      case 17 => Quotient(131072 * c, 3833, 13, 39976960, m, d);
      case 18 => Quotient(262144 * c, 7666, 26, 79953920, m, d);
      case 19 => Quotient(524288 * c, 15333, 21, 25690112, m, d);
      case 20 => Quotient(1048576 * c, 30667, 10, 51380224, m, d);
      case 21 => Quotient(2097152 * c, 61334, 20, 102760448, m, d);
    }
  }

  lemma MultipliedHigh(k: nat, c: nat, m: nat, d: nat)
    requires 22 <= k < 32 && c == 0x077C_B531 && m == 0x1_0000_0000 && d == 0x800_0000
    ensures Powers()[k] * c % m / d == Tops()[k]
  {
    match k {
      case 22 => Quotient(4194304 * c, 122669, 9, 71303168, m, d);
      case 23 => Quotient(8388608 * c, 245338, 19, 8388608, m, d);
      case 24 => Quotient(16777216 * c, 490677, 6, 16777216, m, d);
      case 25 => Quotient(33554432 * c, 981354, 12, 33554432, m, d);
      case 26 => Quotient(67108864 * c, 1962708, 24, 67108864, m, d);
      case 27 => Quotient(134217728 * c, 3925417, 17, 0, m, d);
      case 28 => Quotient(268435456 * c, 7850835, 2, 0, m, d);
      case 29 => Quotient(536870912 * c, 15701670, 4, 0, m, d);
      case 30 => Quotient(1073741824 * c, 31403340, 8, 0, m, d);
      case 31 => Quotient(2147483648 * c, 62806680, 16, 0, m, d);
    }
  }

  lemma Quotient(x: nat, q: nat, t: nat, r: nat, m: nat, d: nat)
    requires m == 0x1_0000_0000 && d == 0x800_0000 && x == q * m + t * d + r && r < d && t < 32
    ensures x % m / d == t
  {
  }

  lemma {:induction false} FirstPowers(powers: seq<nat>, k: nat)
    requires k < |powers| && powers[0] == 1 && forall i :: 0 < i < |powers| ==> powers[i] == 2 * powers[i - 1]
    ensures powers[k] == Pow2(k)
  {
    if k > 0 { FirstPowers(powers, k - 1); }
  }

  /** The lookup finds the lowest set bit of every word of up to 32 bits that has one. */
  lemma FindFirstIsLowest(bits: nat)
    requires 0 < bits < 0x1_0000_0000
    ensures FindFirst(bits) == Lowest(bits) && Bit(bits, FindFirst(bits))
    ensures forall i: nat :: i < FindFirst(bits) ==> !Bit(bits, i)
  {
    hide And, Pow2, Bit;
    WordSizes();
    Pow2Grows64();
    LowestIsolated(bits, 64);
    LowestBelow(bits, 32);
    FirstPowers(Powers(), Lowest(bits));
    var k, c, m, d := Lowest(bits), 0x077C_B531, 0x1_0000_0000, 0x800_0000;
    if k < 11 {
      MultipliedLow(k, c, m, d);
    } else if k < 22 {
      MultipliedMiddle(k, c, m, d);
    } else {
      MultipliedHigh(k, c, m, d);
    }
    TableUndoes(Lowest(bits));
    forall i: nat ensures Bit(bits, Lowest(bits)) && (i < Lowest(bits) ==> !Bit(bits, i)) { LowestBit(bits, i); }
  }

  lemma Pow2Grows64()
    ensures Pow2(32) < Pow2(64)
  {
    hide Pow2;
    Pow2Grows(32, 64);
  }
}
