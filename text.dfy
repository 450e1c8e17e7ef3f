/**
 * The `str` operations the table generators rely on: `lines`, `trim`,
 * `split_whitespace`, `starts_with`, `contains` and `parse` for `u32` and
 * `i32`.
 */
module Text {
  import opened Wrappers
  import opened NumberFormat

  /** `char::is_whitespace`: the Unicode White_Space property. */
  predicate IsSpace(c: char)
  {
    || c == ' ' || '\t' <= c <= '\r'
    || c == '\U{85}' || c == '\U{A0}' || c == '\U{1680}'
    || '\U{2000}' <= c <= '\U{200A}'
    || c == '\U{2028}' || c == '\U{2029}' || c == '\U{202F}' || c == '\U{205F}' || c == '\U{3000}'
  }

  predicate NoSpace(s: string)
  {
    forall i :: 0 <= i < |s| ==> !IsSpace(s[i])
  }

  predicate StartsWith(s: string, prefix: string)
  {
    |prefix| <= |s| && s[..|prefix|] == prefix
  }

  predicate Contains(s: string, needle: string)
  {
    exists i :: 0 <= i <= |s| && StartsWith(s[i..], needle)
  }

  /** Drops a final `'\r'`: the rest of a `"\r\n"` line ending. */
  function StripCarriageReturn(line: string): (r: string)
  {
    if |line| > 0 && line[|line| - 1] == '\r' then line[..|line| - 1] else line
  }

  /** The index of the first `'\n'` of `s` at or after `k`, or `|s|`. */
  function NextNewline(s: string, k: nat): (r: nat)
    requires k <= |s|
    ensures k <= r <= |s| && (r < |s| ==> s[r] == '\n')
    ensures forall i :: k <= i < r ==> s[i] != '\n'
    decreases |s| - k
  {
    if k == |s| || s[k] == '\n' then k else NextNewline(s, k + 1)
  }

  /**
   * `str::lines`: the pieces between `'\n'`s, each without a `"\r\n"`
   * ending's `'\r'`; a final line ending adds no empty line.
   */
  function Lines(s: string): (r: seq<string>)
    decreases |s|
  {
    if |s| == 0 then []
    else
      var k := NextNewline(s, 0);
      if k == |s| then [s]
      else [StripCarriageReturn(s[..k])] + Lines(s[k + 1..])
  }

  /** Text made of `lines`, each ended by `'\n'`. */
  function Unlines(lines: seq<string>): string
  {
    if |lines| == 0 then [] else lines[0] + "\n" + Unlines(lines[1..])
  }

  /** `lines` recovers the lines of a text written line by line. */
  lemma {:induction false} LinesUnlines(lines: seq<string>)
    requires forall i :: 0 <= i < |lines| ==> '\n' !in lines[i]
    requires forall i :: 0 <= i < |lines| ==> |lines[i]| == 0 || lines[i][|lines[i]| - 1] != '\r'
    ensures Lines(Unlines(lines)) == lines
  {
    if |lines| > 0 {
      LinesCons(lines[0], Unlines(lines[1..]));
      LinesUnlines(lines[1..]);
      assert lines == [lines[0]] + lines[1..];
    }
  }

  /** A line ended by `'\n'` splits off the front of the text. */
  lemma LinesCons(l: string, rest: string)
    requires '\n' !in l && (|l| == 0 || l[|l| - 1] != '\r')
    ensures Lines(l + "\n" + rest) == [l] + Lines(rest)
  {
    var s := l + "\n" + rest;
    assert s[|l|] == '\n';
    assert forall i :: 0 <= i < |l| ==> s[i] == l[i] && s[i] != '\n';
    NextNewlineAt(s, 0, |l|);
    assert s[..|l|] == l;
    assert s[|l| + 1..] == rest;
  }

  lemma {:induction false} NextNewlineAt(s: string, k: nat, j: nat)
    requires k <= j < |s| && s[j] == '\n'
    requires forall i :: k <= i < j ==> s[i] != '\n'
    ensures NextNewline(s, k) == j
    decreases j - k
  {
    if k < j {
      NextNewlineAt(s, k + 1, j);
    }
  }

  /** The index of the first non-space character of `s` at or after `k`, or `|s|`. */
  function SkipSpaces(s: string, k: nat): (r: nat)
    requires k <= |s|
    ensures k <= r <= |s| && (r < |s| ==> !IsSpace(s[r]))
    ensures forall i :: k <= i < r ==> IsSpace(s[i])
    decreases |s| - k
  {
    if k == |s| || !IsSpace(s[k]) then k else SkipSpaces(s, k + 1)
  }

  /** One past the last non-space character of `s[..k]`, or 0. */
  function TrimEnd(s: string, k: nat): (r: nat)
    requires k <= |s|
    ensures r <= k && (r > 0 ==> !IsSpace(s[r - 1]))
    ensures forall i :: r <= i < k ==> IsSpace(s[i])
  {
    if k == 0 || !IsSpace(s[k - 1]) then k else TrimEnd(s, k - 1)
  }

  /** `str::trim`: `s` without its leading and trailing whitespace. */
  function Trim(s: string): (r: string)
    ensures |r| == 0 || (!IsSpace(r[0]) && !IsSpace(r[|r| - 1]))
  {
    var i := SkipSpaces(s, 0);
    if i == |s| then
      assert s[i..i] == [];
      []
    else
      var j := TrimEnd(s, |s|);
      s[i..j]
  }

  /** What `Trim` removes is whitespace at either end. */
  lemma TrimShape(s: string)
    ensures exists i, j :: 0 <= i <= j <= |s| && Trim(s) == s[i..j]
                           && (forall k :: 0 <= k < i ==> IsSpace(s[k]))
                           && (forall k :: j <= k < |s| ==> IsSpace(s[k]))
  {
    var i := SkipSpaces(s, 0);
    if i == |s| {
      assert s[i..i] == [];
    } else {
      var j := TrimEnd(s, |s|);
      assert Trim(s) == s[i..j];
    }
  }

  /** `s` without its leading whitespace. */
  function TrimStart(s: string): (r: string)
    ensures |r| <= |s|
    ensures |r| == 0 || !IsSpace(r[0])
  {
    if |s| > 0 && IsSpace(s[0]) then TrimStart(s[1..]) else s
  }

  /** The longest prefix of `s` without whitespace. */
  function LeadingWord(s: string): (r: string)
    ensures |r| <= |s| && r == s[..|r|] && NoSpace(r)
    ensures |r| < |s| ==> IsSpace(s[|r|])
  {
    if |s| > 0 && !IsSpace(s[0]) then [s[0]] + LeadingWord(s[1..]) else []
  }

  /**
   * `str::split_whitespace` (equivalently, `split(char::is_whitespace)`
   * without the empty pieces): the maximal runs of non-space characters.
   */
  function Tokens(s: string): (r: seq<string>)
    decreases |s|
  {
    var t := TrimStart(s);
    if |t| == 0 then []
    else
      var w := LeadingWord(t);
      [w] + Tokens(t[|w|..])
  }

  /** Tokens are non-empty and hold no whitespace. */
  lemma {:induction false} TokensShape(s: string)
    ensures forall i :: 0 <= i < |Tokens(s)| ==> |Tokens(s)[i]| > 0 && NoSpace(Tokens(s)[i])
    decreases |s|
  {
    var t := TrimStart(s);
    if |t| > 0 {
      TokensShape(t[|LeadingWord(t)|..]);
    }
  }

  /** `words` with `sep` between neighbours. */
  function Unwords(words: seq<string>, sep: string): string
  {
    if |words| == 0 then [] else if |words| == 1 then words[0] else words[0] + sep + Unwords(words[1..], sep)
  }

  /** Words separated by runs of whitespace split back into those words. */
  lemma {:induction false} TokensOfUnwords(words: seq<string>, sep: string)
    requires forall i :: 0 <= i < |words| ==> |words[i]| > 0 && NoSpace(words[i])
    requires |sep| > 0 && forall i :: 0 <= i < |sep| ==> IsSpace(sep[i])
    ensures Tokens(Unwords(words, sep)) == words
  {
    if |words| == 1 {
      TokensOfWord(words[0]);
    } else if |words| > 1 {
      var w := words[0];
      var rest := Unwords(words[1..], sep);
      UnwordsStep(w, rest, sep);
      TokensOfUnwords(words[1..], sep);
      assert words == [w] + words[1..];
    }
  }

  lemma TokensOfWord(w: string)
    requires |w| > 0 && NoSpace(w)
    ensures Tokens(w) == [w]
  {
    TokensCons(w, []);
    assert w + [] == w;
  }

  lemma UnwordsStep(w: string, rest: string, sep: string)
    requires |w| > 0 && NoSpace(w)
    requires |sep| > 0 && forall i :: 0 <= i < |sep| ==> IsSpace(sep[i])
    ensures Tokens(w + sep + rest) == [w] + Tokens(rest)
  {
    assert w + sep + rest == w + (sep + rest);
    TokensCons(w, sep + rest);
    TokensAfterSpaces(sep, rest);
  }

  /** Text that starts and ends with a non-space is its own `trim`. */
  lemma TrimNoop(s: string)
    requires |s| > 0 && !IsSpace(s[0]) && !IsSpace(s[|s| - 1])
    ensures Trim(s) == s
  {
    assert SkipSpaces(s, 0) == 0;
    assert TrimEnd(s, |s|) == |s|;
    assert s[0..|s|] == s;
  }

  /** A word followed by whitespace or nothing is the first token. */
  lemma TokensCons(w: string, tail: string)
    requires |w| > 0 && NoSpace(w)
    requires |tail| == 0 || IsSpace(tail[0])
    ensures Tokens(w + tail) == [w] + Tokens(tail)
  {
    var s := w + tail;
    assert TrimStart(s) == s by { assert s[0] == w[0]; }
    LeadingWordOf(w, tail);
    assert s[|w|..] == tail;
  }

  /** A space-free word followed by whitespace or nothing is the leading word. */
  lemma {:induction false} LeadingWordOf(w: string, rest: string)
    requires NoSpace(w)
    requires |rest| == 0 || IsSpace(rest[0])
    ensures LeadingWord(w + rest) == w
  {
    if |w| > 0 {
      assert (w + rest)[1..] == w[1..] + rest;
      LeadingWordOf(w[1..], rest);
      assert w == [w[0]] + w[1..];
    } else {
      assert w + rest == rest;
    }
  }

  /** Leading whitespace is dropped by `TrimStart`. */
  lemma {:induction false} TrimStartSpaces(sp: string, rest: string)
    requires forall i :: 0 <= i < |sp| ==> IsSpace(sp[i])
    ensures TrimStart(sp + rest) == TrimStart(rest)
  {
    if |sp| > 0 {
      assert (sp + rest)[1..] == sp[1..] + rest;
      TrimStartSpaces(sp[1..], rest);
    } else {
      assert sp + rest == rest;
    }
  }

  /** Leading whitespace does not change the tokens. */
  lemma TokensAfterSpaces(sp: string, rest: string)
    requires forall i :: 0 <= i < |sp| ==> IsSpace(sp[i])
    ensures Tokens(sp + rest) == Tokens(rest)
  {
    TrimStartSpaces(sp, rest);
    TrimStartIdempotent(rest);
    if |sp| > 0 {
    } else {
      assert sp + rest == rest;
    }
  }

  lemma {:induction false} TrimStartIdempotent(s: string)
    ensures TrimStart(TrimStart(s)) == TrimStart(s)
  {
    if |s| > 0 && IsSpace(s[0]) {
      TrimStartIdempotent(s[1..]);
    }
  }

  /** A non-empty run of ASCII digits, read in base 10. */
  function DigitsValue(s: string): (r: Option<nat>)
    ensures r.Some? <==> AllDigits(s, 10)
  {
    if AllDigits(s, 10) then
      DigitsNonNegative(s);
      Some(ValueOf(s, 10))
    else None
  }

  lemma {:induction false} DigitsNonNegative(s: string)
    requires forall i :: 0 <= i < |s| ==> 0 <= DigitValue(s[i]) < 10
    ensures ValueOf(s, 10) >= 0
  {
    if |s| > 0 {
      DigitsNonNegative(s[..|s| - 1]);
    }
  }

  /** `str::parse::<u32>`: an optional `+`, then ASCII digits, no overflow. */
  function ParseU32(s: string): (r: Option<nat>)
    ensures r.Some? ==> r.value <= 0xffff_ffff
  {
    var digits := if |s| > 0 && s[0] == '+' then s[1..] else s;
    match DigitsValue(digits)
    case Some(v) => if v <= 0xffff_ffff then Some(v) else None
    case None => None
  }

  /** `str::parse::<i32>`: an optional sign, then ASCII digits, within `i32`. */
  function ParseI32(s: string): (r: Option<int>)
    ensures r.Some? ==> -0x8000_0000 <= r.value <= 0x7fff_ffff
  {
    var negative := |s| > 0 && s[0] == '-';
    var digits := if |s| > 0 && (s[0] == '+' || s[0] == '-') then s[1..] else s;
    match DigitsValue(digits)
    case Some(v) =>
      var value: int := if negative then -(v as int) else v;
      if -0x8000_0000 <= value <= 0x7fff_ffff then Some(value) else None
    case None => None
  }

  /** `u32` text in the form `{}` writes it parses back. */
  lemma ParseU32Decimal(n: nat)
    requires n <= 0xffff_ffff
    ensures ParseU32(Decimal(n)) == Some(n)
  {
    DigitsRoundTrip(n, 10);
  }

  /** Decimal text of a number beyond `u32` does not parse. */
  lemma ParseU32Overflow(n: nat)
    requires n > 0xffff_ffff
    ensures ParseU32(Decimal(n)).None?
  {
    DigitsRoundTrip(n, 10);
  }

  /** `i32` text in the form `{}` writes it parses back. */
  lemma ParseI32Decimal(i: int)
    requires -0x8000_0000 <= i <= 0x7fff_ffff
    ensures ParseI32(Decimal(i)) == Some(i)
  {
    var n := if i < 0 then -i else i;
    DigitsRoundTrip(n, 10);
    if i < 0 {
      assert Decimal(i)[1..] == Digits(n, 10);
    }
  }
}
