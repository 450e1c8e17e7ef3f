/**
 * The pieces the generators' regular expressions are built from, as
 * deterministic matchers over the text that remains: a greedy character-class
 * run, `\s+`, `\s*` and a literal. Each returns the rest of the text after
 * what it consumed.
 */
module Patterns {
  import opened Wrappers
  import opened Text

  /** The longest prefix of `s` whose characters all satisfy `p`: a greedy `[...]*`. */
  function Span(s: string, p: char -> bool): (r: string)
    ensures |r| <= |s| && r == s[..|r|]
    ensures forall i :: 0 <= i < |r| ==> p(r[i])
    ensures |r| < |s| ==> !p(s[|r|])
  {
    if |s| > 0 && p(s[0]) then [s[0]] + Span(s[1..], p) else []
  }

  /** A run of `p` characters that `p` cannot extend is what `Span` takes. */
  lemma {:induction false} SpanOf(w: string, rest: string, p: char -> bool)
    requires forall i :: 0 <= i < |w| ==> p(w[i])
    requires |rest| == 0 || !p(rest[0])
    ensures Span(w + rest, p) == w
  {
    if |w| > 0 {
      assert (w + rest)[1..] == w[1..] + rest;
      SpanOf(w[1..], rest, p);
      assert w == [w[0]] + w[1..];
    } else {
      assert w + rest == rest;
    }
  }

  /** `\d` on ASCII text. */
  predicate IsAsciiDigit(c: char)
  {
    '0' <= c <= '9'
  }

  /** `\w` on ASCII text. */
  predicate IsWordChar(c: char)
  {
    'a' <= c <= 'z' || 'A' <= c <= 'Z' || '0' <= c <= '9' || c == '_'
  }

  /** The class `[a-z0-9_]`. */
  predicate IsNameChar(c: char)
  {
    'a' <= c <= 'z' || '0' <= c <= '9' || c == '_'
  }

  /** `\s+`: the text after one or more leading spaces, if there is one. */
  function Spaces1(s: string): (r: Option<string>)
    ensures r.Some? ==> |r.value| < |s| && r.value == TrimStart(s)
  {
    var t := TrimStart(s);
    if |t| < |s| then Some(t) else None
  }

  /** A literal: the text after `lit`, if `s` starts with it. */
  function Literal(s: string, lit: string): (r: Option<string>)
    ensures r.Some? <==> StartsWith(s, lit)
    ensures r.Some? ==> s == lit + r.value
  {
    if StartsWith(s, lit) then Some(s[|lit|..]) else None
  }

  /** `\s+` over a run of spaces stops where the run does. */
  lemma Spaces1Of(sp: string, rest: string)
    requires |sp| > 0 && forall i :: 0 <= i < |sp| ==> IsSpace(sp[i])
    requires |rest| == 0 || !IsSpace(rest[0])
    ensures Spaces1(sp + rest) == Some(rest)
  {
    TrimStartSpaces(sp, rest);
  }

  lemma LiteralOf(lit: string, rest: string)
    ensures Literal(lit + rest, lit) == Some(rest)
  {
    assert (lit + rest)[..|lit|] == lit;
    assert (lit + rest)[|lit|..] == rest;
  }
}
