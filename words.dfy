/**
 * Machine words of the bitset. A `usize` on the 64-bit targets the set is
 * modelled for is a natural below 2^64; the bitwise operators the set uses
 * (`|`, `&`, `& !`, `^`, `count_ones`, `trailing_zeros`) are defined bit by
 * bit, and `Bit(w, j)` says that bit `j` of `w` is set.
 */
module Words {
  /** `usize::BITS` on a 64-bit target. */
  const WORD_WIDTH: nat := 64

  /** 2^64, one more than `usize::MAX`. */
  const WORD_LIMIT: nat := 0x1_0000_0000_0000_0000

  /** A `usize` value: a natural below 2^64. */
  type Word = w: nat | w < WORD_LIMIT

  function Pow2(n: nat): (r: nat)
    ensures r > 0
  {
    if n == 0 then 1 else 2 * Pow2(n - 1)
  }

  lemma {:induction false} Pow2Add(m: nat, n: nat)
    ensures Pow2(m + n) == Pow2(m) * Pow2(n)
    decreases n
  {
    if n > 0 {
      Pow2Add(m, n - 1);
      assert Pow2(m + n) == 2 * Pow2(m + n - 1);
    }
  }

  lemma Pow2Square(n: nat, p: nat)
    requires Pow2(n) == p
    ensures Pow2(2 * n) == p * p
  {
    Pow2Add(n, n);
  }

  /** `2^WORD_WIDTH` is the bound of a word. */
  lemma Pow2Width()
    ensures Pow2(WORD_WIDTH) == WORD_LIMIT
  {
    assert Pow2(1) == 2;
    Pow2Square(1, 2);
    Pow2Square(2, 4);
    Pow2Square(4, 16);
    Pow2Square(8, 256);
    Pow2Square(16, 0x1_0000);
    Pow2Square(32, 0x1_0000_0000);
  }

  lemma {:induction false} Pow2Monotone(m: nat, n: nat)
    requires m <= n
    ensures Pow2(m) <= Pow2(n)
    decreases n
  {
    if m < n {
      Pow2Monotone(m, n - 1);
    }
  }

  /** Bit `j` of `w` is set. */
  predicate Bit(w: nat, j: nat)
  {
    if j == 0 then w % 2 == 1 else Bit(w / 2, j - 1)
  }

  lemma {:induction false} ZeroBit(j: nat)
    ensures !Bit(0, j)
  {
    if j > 0 {
      ZeroBit(j - 1);
    }
  }

  /** A value below `2^n` has no bit set at or above `n`. */
  lemma {:induction false} HighBitClear(w: nat, n: nat, j: nat)
    requires w < Pow2(n) && n <= j
    ensures !Bit(w, j)
  {
    if n == 0 {
      assert w == 0;
      ZeroBit(j);
    } else {
      HighBitClear(w / 2, n - 1, j - 1);
    }
  }

  /** The single-bit word `1 << j`. */
  function Mask(j: nat): (m: Word)
    requires j < WORD_WIDTH
  {
    Pow2Monotone(j + 1, WORD_WIDTH);
    Pow2Width();
    Pow2(j)
  }

  /** The only bit of `2^k` is bit `k`. */
  lemma {:induction false} Pow2Bit(k: nat, j: nat)
    ensures Bit(Pow2(k), j) <==> j == k
  {
    if k == 0 {
      if j > 0 {
        ZeroBit(j - 1);
      }
    } else if j > 0 {
      Pow2Bit(k - 1, j - 1);
    }
  }

  lemma MaskBit(k: nat, j: nat)
    requires k < WORD_WIDTH
    ensures Bit(Mask(k), j) <==> j == k
  {
    Pow2Bit(k, j);
  }

  /** Bitwise `a | b`. */
  function Or(a: nat, b: nat): nat
    decreases a + b
  {
    if a == 0 && b == 0 then 0
    else 2 * Or(a / 2, b / 2) + (if a % 2 == 1 || b % 2 == 1 then 1 else 0)
  }

  /** Bitwise `a & b`. */
  function And(a: nat, b: nat): nat
    decreases a + b
  {
    if a == 0 && b == 0 then 0
    else 2 * And(a / 2, b / 2) + (if a % 2 == 1 && b % 2 == 1 then 1 else 0)
  }

  /** Bitwise `a & !b`. */
  function AndNot(a: nat, b: nat): nat
    decreases a + b
  {
    if a == 0 && b == 0 then 0
    else 2 * AndNot(a / 2, b / 2) + (if a % 2 == 1 && b % 2 == 0 then 1 else 0)
  }

  /** Bitwise `a ^ b`. */
  function Xor(a: nat, b: nat): nat
    decreases a + b
  {
    if a == 0 && b == 0 then 0
    else 2 * Xor(a / 2, b / 2) + (if (a % 2 == 1) != (b % 2 == 1) then 1 else 0)
  }

  /** Bit `j` of `2 * x + r` is `r` at `j == 0` and bit `j - 1` of `x` above. */
  lemma BitOfDouble(x: nat, r: nat, j: nat)
    requires r < 2
    ensures j == 0 ==> (Bit(2 * x + r, j) <==> r == 1)
    ensures j > 0 ==> (Bit(2 * x + r, j) <==> Bit(x, j - 1))
  {
    assert (2 * x + r) / 2 == x;
  }

  lemma {:induction false} OrBit(a: nat, b: nat, j: nat)
    ensures Bit(Or(a, b), j) <==> Bit(a, j) || Bit(b, j)
    decreases a + b
  {
    if a == 0 && b == 0 {
      ZeroBit(j);
    } else {
      BitOfDouble(Or(a / 2, b / 2), if a % 2 == 1 || b % 2 == 1 then 1 else 0, j);
      if j > 0 {
        OrBit(a / 2, b / 2, j - 1);
      }
    }
  }

  lemma {:induction false} AndBit(a: nat, b: nat, j: nat)
    ensures Bit(And(a, b), j) <==> Bit(a, j) && Bit(b, j)
    decreases a + b
  {
    if a == 0 && b == 0 {
      ZeroBit(j);
    } else {
      BitOfDouble(And(a / 2, b / 2), if a % 2 == 1 && b % 2 == 1 then 1 else 0, j);
      if j > 0 {
        AndBit(a / 2, b / 2, j - 1);
      }
    }
  }

  lemma {:induction false} AndNotBit(a: nat, b: nat, j: nat)
    ensures Bit(AndNot(a, b), j) <==> Bit(a, j) && !Bit(b, j)
    decreases a + b
  {
    if a == 0 && b == 0 {
      ZeroBit(j);
    } else {
      BitOfDouble(AndNot(a / 2, b / 2), if a % 2 == 1 && b % 2 == 0 then 1 else 0, j);
      if j > 0 {
        AndNotBit(a / 2, b / 2, j - 1);
      }
    }
  }

  lemma {:induction false} XorBit(a: nat, b: nat, j: nat)
    ensures Bit(Xor(a, b), j) <==> Bit(a, j) != Bit(b, j)
    decreases a + b
  {
    if a == 0 && b == 0 {
      ZeroBit(j);
    } else {
      BitOfDouble(Xor(a / 2, b / 2), if (a % 2 == 1) != (b % 2 == 1) then 1 else 0, j);
      if j > 0 {
        XorBit(a / 2, b / 2, j - 1);
      }
    }
  }

  /** `|` of two values below `2^n` stays below `2^n`; likewise `^`. */
  lemma {:induction false} OrBound(a: nat, b: nat, n: nat)
    requires a < Pow2(n) && b < Pow2(n)
    ensures Or(a, b) < Pow2(n)
    decreases a + b
  {
    if a != 0 || b != 0 {
      OrBound(a / 2, b / 2, n - 1);
    }
  }

  lemma {:induction false} XorBound(a: nat, b: nat, n: nat)
    requires a < Pow2(n) && b < Pow2(n)
    ensures Xor(a, b) < Pow2(n)
    decreases a + b
  {
    if a != 0 || b != 0 {
      XorBound(a / 2, b / 2, n - 1);
    }
  }

  /** `a & b` and `a & !b` never exceed `a`. */
  lemma {:induction false} AndBound(a: nat, b: nat)
    ensures And(a, b) <= a
    decreases a + b
  {
    if a != 0 || b != 0 {
      AndBound(a / 2, b / 2);
    }
  }

  lemma {:induction false} AndNotBound(a: nat, b: nat)
    ensures AndNot(a, b) <= a
    decreases a + b
  {
    if a != 0 || b != 0 {
      AndNotBound(a / 2, b / 2);
    }
  }

  /** `|`, `&`, `& !` and `^` of two words are words. */
  lemma BitwiseWords()
    ensures forall a: Word, b: Word :: Or(a, b) < WORD_LIMIT && Xor(a, b) < WORD_LIMIT
    ensures forall a: Word, b: Word :: And(a, b) < WORD_LIMIT && AndNot(a, b) < WORD_LIMIT
  {
    Pow2Width();
    forall a: Word, b: Word
      ensures Or(a, b) < WORD_LIMIT && Xor(a, b) < WORD_LIMIT
      ensures And(a, b) < WORD_LIMIT && AndNot(a, b) < WORD_LIMIT
    {
      OrBound(a, b, WORD_WIDTH);
      XorBound(a, b, WORD_WIDTH);
      AndBound(a, b);
      AndNotBound(a, b);
    }
  }

  /**
   * `trailing_zeros` of a non-zero word: the position of its lowest set
   * bit.
   */
  function TrailingZeros(w: nat): (r: nat)
    requires w != 0
    ensures Bit(w, r)
    ensures forall i :: 0 <= i < r ==> !Bit(w, i)
    ensures Pow2(r) <= w
  {
    if w % 2 == 1 then 0 else 1 + TrailingZeros(w / 2)
  }

  lemma TrailingZerosInWord(w: Word)
    requires w != 0
    ensures TrailingZeros(w) < WORD_WIDTH
  {
    if TrailingZeros(w) >= WORD_WIDTH {
      Pow2Width();
      Pow2Monotone(WORD_WIDTH, TrailingZeros(w));
    }
  }

  /** A value is zero exactly when none of its bits is set. */
  lemma {:induction false} ZeroIffNoBit(w: nat)
    ensures w == 0 ==> forall j: nat :: !Bit(w, j)
    ensures w != 0 ==> exists j: nat :: Bit(w, j)
  {
    if w == 0 {
      forall j: nat
        ensures !Bit(w, j)
      {
        ZeroBit(j);
      }
    } else {
      var r := TrailingZeros(w);
      assert Bit(w, r);
    }
  }

  /** `a & mask` is non-zero exactly when `a` has the mask's bit. */
  lemma AndMaskNonZero(a: nat, j: nat)
    requires j < WORD_WIDTH
    ensures And(a, Mask(j)) != 0 <==> Bit(a, j)
  {
    AndBit(a, Mask(j), j);
    MaskBit(j, j);
    if And(a, Mask(j)) != 0 {
      var k := TrailingZeros(And(a, Mask(j)));
      AndBit(a, Mask(j), k);
      MaskBit(j, k);
    } else {
      ZeroBit(j);
    }
  }

  /** `{base + j | j < n, bit j of w set}`. */
  function BitsBelow(w: nat, base: int, n: nat): (r: set<int>)
    ensures forall x :: x in r <==> base <= x < base + n && Bit(w, x - base)
  {
    if n == 0 then {}
    else BitsBelow(w, base, n - 1) + (if Bit(w, n - 1) then {base + n - 1} else {})
  }

  /** The number of bits of `w` set below position `n`. */
  function OnesBelow(w: nat, n: nat): (r: nat)
    ensures r <= n
  {
    if n == 0 then 0 else OnesBelow(w, n - 1) + (if Bit(w, n - 1) then 1 else 0)
  }

  lemma {:induction false} OnesBelowCounts(w: nat, base: int, n: nat)
    ensures |BitsBelow(w, base, n)| == OnesBelow(w, n)
  {
    if n > 0 {
      OnesBelowCounts(w, base, n - 1);
    }
  }

  /** `count_ones` of a word: how many of its 64 bits are set. */
  function CountOnes(w: Word): (r: nat)
    ensures r == |BitsBelow(w, 0, WORD_WIDTH)|
  {
    OnesBelowCounts(w, 0, WORD_WIDTH);
    OnesBelow(w, WORD_WIDTH)
  }

  /** `s` is strictly ascending. */
  predicate Increasing(s: seq<int>)
  {
    forall i, k :: 0 <= i < k < |s| ==> s[i] < s[k]
  }

  /** `base + j` for the set bits `j` of `w` from position `from` up, lowest position first. */
  function AscendingFrom(w: nat, base: int, from: nat): (r: seq<int>)
    requires from <= WORD_WIDTH
    decreases WORD_WIDTH - from
  {
    if from == WORD_WIDTH then []
    else
      var rest := AscendingFrom(w, base, from + 1);
      if Bit(w, from) then [base + from] + rest else rest
  }

  /** A word lists exactly `base + j` for its set bits `j`, each once, in strictly ascending order. */
  lemma {:induction false} AscendingFromFacts(w: nat, base: int, from: nat)
    requires from <= WORD_WIDTH
    ensures forall x :: x in AscendingFrom(w, base, from) <==> base + from <= x < base + WORD_WIDTH && Bit(w, x - base)
    ensures Increasing(AscendingFrom(w, base, from))
    decreases WORD_WIDTH - from
  {
    if from < WORD_WIDTH {
      AscendingFromFacts(w, base, from + 1);
      if Bit(w, from) {
        IncreasingCons(base + from, AscendingFrom(w, base, from + 1));
      }
    }
  }

  lemma IncreasingCons(x: int, s: seq<int>)
    requires Increasing(s) && forall y :: y in s ==> x < y
    ensures Increasing([x] + s)
  {
    forall k | 0 <= k < |s|
      ensures x < s[k]
    {
      assert s[k] in s;
    }
  }

  /** Positions without a set bit contribute nothing. */
  lemma {:induction false} AscendingFromSkip(w: nat, base: int, from: nat, upto: nat)
    requires from <= upto <= WORD_WIDTH
    requires forall i :: from <= i < upto ==> !Bit(w, i)
    ensures AscendingFrom(w, base, from) == AscendingFrom(w, base, upto)
    decreases upto - from
  {
    if from < upto {
      AscendingFromSkip(w, base, from + 1, upto);
    }
  }

  /** Words with the same bits from `from` up list the same numbers. */
  lemma {:induction false} AscendingFromAgree(a: nat, b: nat, base: int, from: nat)
    requires from <= WORD_WIDTH
    requires forall i :: from <= i < WORD_WIDTH ==> (Bit(a, i) <==> Bit(b, i))
    ensures AscendingFrom(a, base, from) == AscendingFrom(b, base, from)
    decreases WORD_WIDTH - from
  {
    if from < WORD_WIDTH {
      AscendingFromAgree(a, b, base, from + 1);
    }
  }

  /**
   * The first number a non-zero word lists is its lowest set bit, and the
   * rest are what the word lists once that bit is masked off.
   */
  lemma PeelLowest(w: Word, base: int, tz: nat, rest: Word, x: int)
    requires w != 0 && tz == TrailingZeros(w) && tz < WORD_WIDTH && rest == AndNot(w, Mask(tz)) && x == base + tz
    ensures AscendingFrom(w, base, 0) == [x] + AscendingFrom(rest, base, 0)
  {
    forall i | 0 <= i < WORD_WIDTH
      ensures Bit(rest, i) <==> Bit(w, i) && i != tz
    {
      AndNotBit(w, Mask(tz), i);
      MaskBit(tz, i);
    }
    TrailingZerosInWord(w);
    AscendingFromSkip(w, base, 0, tz);
    AscendingFromSkip(rest, base, 0, tz + 1);
    AscendingFromAgree(w, rest, base, tz + 1);
  }

  /** A zero word lists nothing. */
  lemma AscendingFromZero(w: nat, base: int)
    requires w == 0
    ensures AscendingFrom(w, base, 0) == []
  {
    forall i | 0 <= i < WORD_WIDTH
      ensures !Bit(w, i)
    {
      ZeroBit(i);
    }
    AscendingFromSkip(w, base, 0, WORD_WIDTH);
  }

}
