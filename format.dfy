/**
 * The integer formatting that `core::fmt` performs for `{}` (decimal, with a
 * leading `-` for negatives) and `{:#x}` (`0x` and lower-case hex digits),
 * with the parser that reads such text back.
 */
module NumberFormat {
  import opened Wrappers

  /** Radixes the formatter is asked for. */
  predicate Radix(base: nat)
  {
    base == 10 || base == 16
  }

  /** The character for digit `d`: `0`-`9`, then `a`-`f`. */
  function DigitChar(d: nat): (c: char)
    requires d < 16
  {
    if d < 10 then ('0' as int + d) as char else ('a' as int + d - 10) as char
  }

  /** The value of a digit character, or -1 for any other character. */
  function DigitValue(c: char): (r: int)
    ensures -1 <= r < 16
  {
    if '0' <= c <= '9' then c as int - '0' as int
    else if 'a' <= c <= 'f' then c as int - 'a' as int + 10
    else -1
  }

  lemma DigitCharValue(d: nat)
    requires d < 16
    ensures DigitValue(DigitChar(d)) == d
  {
  }

  /** `s` is a non-empty run of digits of `base`. */
  predicate AllDigits(s: string, base: nat)
  {
    |s| > 0 && forall i :: 0 <= i < |s| ==> 0 <= DigitValue(s[i]) < base
  }

  /** The digits of `n` in `base`, most significant first, without leading zeros. */
  function Digits(n: nat, base: nat): (s: string)
    requires Radix(base)
    ensures AllDigits(s, base)
    ensures |s| > 1 ==> s[0] != '0'
    decreases n
  {
    DigitCharValue(n % base);
    if n < base then [DigitChar(n)]
    else
      var high := Digits(n / base, base);
      high + [DigitChar(n % base)]
  }

  /** The number a run of digits denotes (most significant first). */
  function ValueOf(s: string, base: nat): int
  {
    if |s| == 0 then 0
    else ValueOf(s[..|s| - 1], base) * base + DigitValue(s[|s| - 1])
  }

  /** Reading the digits of `n` back gives `n`. */
  lemma {:induction false} DigitsRoundTrip(n: nat, base: nat)
    requires Radix(base)
    ensures ValueOf(Digits(n, base), base) == n
    decreases n
  {
    var s := Digits(n, base);
    DigitCharValue(n % base);
    if n < base {
      assert s[..0] == [];
    } else {
      var high := Digits(n / base, base);
      assert s[..|s| - 1] == high;
      DigitsRoundTrip(n / base, base);
    }
  }

  /** `{}` on an integer. */
  function Decimal(i: int): (s: string)
    ensures |s| > 0 && ' ' !in s
    ensures i < 0 <==> s[0] == '-'
  {
    var digits := Digits(if i < 0 then -i else i, 10);
    assert digits[0] != ' ' && digits[0] != '-' && forall k :: 0 <= k < |digits| ==> digits[k] != ' ';
    if i < 0 then "-" + digits else digits
  }

  /** `{}` writes only a sign and decimal digits. */
  lemma DecimalChars(i: int)
    ensures forall k :: 0 <= k < |Decimal(i)| ==> Decimal(i)[k] == '-' || '0' <= Decimal(i)[k] <= '9'
  {
    var digits := Digits(if i < 0 then -i else i, 10);
    assert forall k :: 0 <= k < |digits| ==> '0' <= digits[k] <= '9' by {
      forall k | 0 <= k < |digits| ensures '0' <= digits[k] <= '9' {
        assert 0 <= DigitValue(digits[k]) < 10;
      }
    }
  }

  /** `{}` writes a natural number as decimal digits alone. */
  lemma NaturalDigits(n: nat)
    ensures forall k :: 0 <= k < |Decimal(n)| ==> '0' <= Decimal(n)[k] <= '9'
  {
    assert Decimal(n) == Digits(n, 10);
    forall k | 0 <= k < |Decimal(n)| ensures '0' <= Decimal(n)[k] <= '9' {
      assert 0 <= DigitValue(Decimal(n)[k]) < 10;
    }
  }

  /** `{:#x}` on a non-negative integer. */
  function AlternateHex(n: nat): (s: string)
    ensures |s| > 2 && s[..2] == "0x"
  {
    "0x" + Digits(n, 16)
  }

  /** Reads the text `Decimal` writes: an optional `-` and decimal digits. */
  function ParseDecimal(s: string): Option<int>
  {
    if |s| > 0 && s[0] == '-' then
      if AllDigits(s[1..], 10) then Some(-ValueOf(s[1..], 10)) else None
    else if AllDigits(s, 10) then Some(ValueOf(s, 10))
    else None
  }

  /** Reads the text `AlternateHex` writes. */
  function ParseAlternateHex(s: string): Option<int>
  {
    if |s| > 2 && s[..2] == "0x" && AllDigits(s[2..], 16) then Some(ValueOf(s[2..], 16)) else None
  }

  lemma DecimalRoundTrip(i: int)
    ensures ParseDecimal(Decimal(i)) == Some(i)
  {
    var n := if i < 0 then -i else i;
    DigitsRoundTrip(n, 10);
    var digits := Digits(n, 10);
    if i < 0 {
      assert Decimal(i)[1..] == digits;
    }
  }

  lemma AlternateHexRoundTrip(n: nat)
    ensures ParseAlternateHex(AlternateHex(n)) == Some(n)
  {
    DigitsRoundTrip(n, 16);
    assert AlternateHex(n)[2..] == Digits(n, 16);
  }

  /** The text up to the first space. */
  function FirstWord(s: string): (r: string)
    ensures |r| <= |s| && r == s[..|r|] && ' ' !in r
  {
    if |s| == 0 || s[0] == ' ' then [] else [s[0]] + FirstWord(s[1..])
  }

  /** A space-free text followed by a space or nothing is the first word. */
  lemma {:induction false} FirstWordOf(a: string, b: string)
    requires ' ' !in a
    requires b == [] || b[0] == ' '
    ensures FirstWord(a + b) == a
  {
    if |a| > 0 {
      assert (a + b)[1..] == a[1..] + b;
      FirstWordOf(a[1..], b);
    } else {
      assert a + b == b;
    }
  }

  /** A number followed by a space or nothing is read back from the first word. */
  lemma LeadingNumber(i: int, tail: string)
    requires tail == [] || tail[0] == ' '
    ensures ParseDecimal(FirstWord(Decimal(i) + tail)) == Some(i)
  {
    FirstWordOf(Decimal(i), tail);
    DecimalRoundTrip(i);
  }
}
