/**
 * The build-time syscall list of the `sysnum` crate (sysnum/src/lib.rs):
 * `gen_syscalls_from` reads the `#define __NR_<name> <nr>` lines of the
 * C library's `asm/unistd_*.h` into `(name, nr)` pairs, in line order.
 */
module Sysnum {
  import opened Wrappers
  import opened NumberFormat
  import opened Text
  import opened LineReading

  /** The `filter` of the loop: a `#define` line that mentions `__NR_`. */
  predicate Candidate(line: string)
  {
    StartsWith(line, "#define") && Contains(line, "__NR_")
  }

  /** `skip_while(|x| !x.starts_with("__NR_"))`: the words from the first `__NR_` one on. */
  function SkipToName(words: seq<string>): (r: seq<string>)
    ensures |r| <= |words| && r == words[|words| - |r|..]
    ensures |r| > 0 ==> StartsWith(r[0], "__NR_")
    ensures forall j :: 0 <= j < |words| - |r| ==> !StartsWith(words[j], "__NR_")
  {
    if |words| == 0 then []
    else if StartsWith(words[0], "__NR_") then words
    else SkipToName(words[1..])
  }

  /** `filter(|x| x.parse::<i32>().is_ok()).next()`: where the first word that is an `i32` stands, or `|words|`. */
  function FirstNumber(words: seq<string>): (k: nat)
    ensures k <= |words|
    ensures k < |words| ==> ParseI32(words[k]).Some?
    ensures forall j :: 0 <= j < k ==> ParseI32(words[j]).None?
  {
    if |words| == 0 then 0
    else if ParseI32(words[0]).Some? then 0
    else 1 + FirstNumber(words[1..])
  }

  /** What one line contributes: the `__NR_` name and the number after it. */
  function SyscallOf(line: string): (r: Option<(string, int)>)
    ensures r.Some? ==> Candidate(line) && StartsWith(r.value.0, "__NR_")
    ensures r.Some? ==> -0x8000_0000 <= r.value.1 <= 0x7fff_ffff
  {
    if !Candidate(line) then None
    else
      var it := SkipToName(Tokens(line));
      if |it| == 0 then None
      else
        var k := FirstNumber(it[1..]);
        if k == |it| - 1 then None else Some((it[0], ParseI32(it[1 + k]).value))
  }

  /** `gen_syscalls_from` on the header's contents. */
  method GenSyscallsFrom(contents: string) returns (ret: seq<(string, int)>)
    ensures ret == Collect(Lines(contents), SyscallOf)
  {
    var lines := Lines(contents);
    ret := [];
    var i := 0;
    while i < |lines|
      invariant 0 <= i <= |lines|
      invariant ret == Collect(lines[..i], SyscallOf)
    {
      CollectSnoc(lines, i, SyscallOf);
      var candidate := lines[i];
      if StartsWith(candidate, "#define") && Contains(candidate, "__NR_") {
        var it := SkipToName(Tokens(candidate));
        if |it| > 0 {
          var k := FirstNumber(it[1..]);
          if k < |it| - 1 {
            ret := ret + [(it[0], ParseI32(it[1 + k]).value)];
          }
        }
      }
      i := i + 1;
    }
    assert lines[..|lines|] == lines;
  }

  /** Every pair read has an `__NR_` name and an `i32` number. */
  lemma {:induction false} SyscallsNamed(lines: seq<string>)
    ensures forall j :: 0 <= j < |Collect(lines, SyscallOf)| ==>
      StartsWith(Collect(lines, SyscallOf)[j].0, "__NR_") && -0x8000_0000 <= Collect(lines, SyscallOf)[j].1 <= 0x7fff_ffff
  {
    if |lines| > 0 {
      SyscallsNamed(lines[..|lines| - 1]);
    }
  }

  lemma UnwordsStartsWith(w: string, rest: seq<string>, sep: string)
    ensures StartsWith(Unwords([w] + rest, sep), w)
  {
    if |rest| > 0 {
      assert ([w] + rest)[1..] == rest;
      assert Unwords([w] + rest, sep) == w + (sep + Unwords(rest, sep));
    }
  }

  /**
   * A `#define` of an `__NR_` name followed by words reads as the name and
   * the first of those words that is an `i32`, and is dropped when none is.
   */
  lemma DefineLine(name: string, rest: seq<string>)
    requires |name| > 0 && NoSpace(name) && StartsWith(name, "__NR_")
    requires forall i :: 0 <= i < |rest| ==> |rest[i]| > 0 && NoSpace(rest[i])
    ensures SyscallOf(Unwords(["#define", name] + rest, " ")) ==
      var k := FirstNumber(rest);
      if k < |rest| then Some((name, ParseI32(rest[k]).value)) else None
  {
    DefineWords(name, rest);
    SyscallOfWords(Unwords(["#define", name] + rest, " "), name, rest);
  }

  /** Reading a candidate line whose words are `#define`, the name and the rest. */
  lemma SyscallOfWords(line: string, name: string, rest: seq<string>)
    requires Candidate(line) && StartsWith(name, "__NR_")
    requires Tokens(line) == ["#define", name] + rest
    ensures SyscallOf(line) ==
      var k := FirstNumber(rest);
      if k < |rest| then Some((name, ParseI32(rest[k]).value)) else None
  {
    SkipDefine(name, rest);
    var it := SkipToName(Tokens(line));
    assert it[1..] == rest;
    assert forall k :: 0 <= k < |rest| ==> it[1 + k] == rest[k];
  }

  lemma SkipDefine(name: string, rest: seq<string>)
    requires StartsWith(name, "__NR_")
    ensures SkipToName(["#define", name] + rest) == [name] + rest
  {
    var words := ["#define", name] + rest;
    var nr := "#define";
    assert nr[0] != '_';
    assert words[0] == nr && !StartsWith(words[0], "__NR_");
    assert words[1..] == [name] + rest;
  }

  /** The line is a candidate, and its words are the ones joined. */
  lemma DefineWords(name: string, rest: seq<string>)
    requires |name| > 0 && NoSpace(name) && StartsWith(name, "__NR_")
    requires forall i :: 0 <= i < |rest| ==> |rest[i]| > 0 && NoSpace(rest[i])
    ensures Candidate(Unwords(["#define", name] + rest, " "))
    ensures Tokens(Unwords(["#define", name] + rest, " ")) == ["#define", name] + rest
  {
    var words := ["#define", name] + rest;
    var tail := Unwords([name] + rest, " ");
    var line := Unwords(words, " ");
    assert words[1..] == [name] + rest;
    assert line == "#define" + " " + tail;
    assert line[..7] == "#define";
    UnwordsStartsWith(name, rest, " ");
    assert line[8..] == tail;
    assert tail[..5] == name[..5];
    assert StartsWith(line[8..], "__NR_");
    assert forall i :: 0 <= i < |words| ==> |words[i]| > 0 && NoSpace(words[i]) by {
      forall i | 0 <= i < |words| ensures |words[i]| > 0 && NoSpace(words[i]) {
        if i >= 2 {
          assert words[i] == rest[i - 2];
        }
      }
    }
    TokensOfUnwords(words, " ");
  }

  /** `#define __NR_<name> <nr>`, single-spaced, reads as `(name, nr)`, the prefix kept. */
  lemma DefineNumber(name: string, n: int)
    requires |name| > 0 && NoSpace(name) && StartsWith(name, "__NR_")
    requires -0x8000_0000 <= n <= 0x7fff_ffff
    ensures SyscallOf(Unwords(["#define", name, Decimal(n)], " ")) == Some((name, n))
  {
    var d := Decimal(n);
    ParseI32Decimal(n);
    assert FirstNumber([d]) == 0;
    DefineLine(name, [d]);
    assert ["#define", name] + [d] == ["#define", name, d];
  }

  /**
   * The words after the name in `#define __NR_<name> (<base> + <k>)`, the
   * form the generic headers use with `__NR_arch_specific_syscall` as base.
   */
  function ArchWords(base: string, k: nat): seq<string>
  {
    ["(" + base, "+", Decimal(k) + ")"]
  }

  lemma ArchWordsNoNumber(base: string, k: nat)
    requires NoSpace(base)
    ensures forall i :: 0 <= i < |ArchWords(base, k)| ==> |ArchWords(base, k)[i]| > 0 && NoSpace(ArchWords(base, k)[i])
    ensures FirstNumber(ArchWords(base, k)) == |ArchWords(base, k)|
  {
    var w := ArchWords(base, k);
    ArchWordsPlain(base, k);
    NotI32(w[0], 0);
    SignAlone();
    NotI32(w[2], |w[2]| - 1);
    ThreeNonNumbers(w[0], w[1], w[2]);
  }

  lemma ArchWordsPlain(base: string, k: nat)
    requires NoSpace(base)
    ensures forall i :: 0 <= i < |ArchWords(base, k)| ==> |ArchWords(base, k)[i]| > 0 && NoSpace(ArchWords(base, k)[i])
    ensures ArchWords(base, k)[0][0] == '(' && ArchWords(base, k)[1] == "+"
    ensures var d := ArchWords(base, k)[2]; d[|d| - 1] == ')'
  {
    var w := ArchWords(base, k);
    var d := w[2];
    DecimalChars(k);
    assert NoSpace(d) by {
      assert forall i :: 0 <= i < |Decimal(k)| ==> d[i] == Decimal(k)[i];
    }
    assert NoSpace(w[0]) by {
      assert forall i :: 1 <= i < |w[0]| ==> w[0][i] == base[i - 1];
    }
  }

  lemma ThreeNonNumbers(a: string, b: string, c: string)
    requires ParseI32(a).None? && ParseI32(b).None? && ParseI32(c).None?
    ensures FirstNumber([a, b, c]) == 3
  {
    assert [a, b, c][1..] == [b, c] && [b, c][1..] == [c] && [c][1..] == [];
  }

  /** A word with a character that is not a digit, other than a leading sign, is not an `i32`. */
  lemma NotI32(s: string, j: nat)
    requires j < |s| && !(0 <= DigitValue(s[j]) < 10)
    requires j > 0 || (s[0] != '+' && s[0] != '-')
    ensures ParseI32(s).None?
  {
    if |s| > 0 && (s[0] == '+' || s[0] == '-') {
      assert s[1..][j - 1] == s[j];
    }
  }

  lemma SignAlone()
    ensures ParseI32("+").None?
  {
    var plus := "+";
    assert plus[1..] == [];
  }

  /**
   * The arch-specific form `#define __NR_<name> (<base> + <k>)` has no
   * `i32` word, so the line is dropped rather than reported.
   */
  lemma ArchDefineDropped(name: string, base: string, k: nat)
    requires |name| > 0 && NoSpace(name) && StartsWith(name, "__NR_")
    requires NoSpace(base)
    ensures SyscallOf(Unwords(["#define", name] + ArchWords(base, k), " ")).None?
  {
    ArchWordsNoNumber(base, k);
    DefineLine(name, ArchWords(base, k));
  }

  function Single<T>(x: T): seq<T>
  {
    [x]
  }

  function DefineText(e: (string, int)): seq<string>
  {
    [Unwords(["#define", e.0, Decimal(e.1)], " ")]
  }

  lemma {:induction false} FlattenSingle<T>(t: seq<T>)
    ensures Flatten(t, Single<T>) == t
  {
    if |t| > 0 {
      FlattenSingle(t[..|t| - 1]);
    }
  }

  /**
   * A header of plain `#define`s reads back as its pairs in line order,
   * unsorted and with duplicates kept.
   */
  lemma DefinesInOrder(entries: seq<(string, int)>)
    requires forall i :: 0 <= i < |entries| ==>
      |entries[i].0| > 0 && NoSpace(entries[i].0) && StartsWith(entries[i].0, "__NR_") &&
      -0x8000_0000 <= entries[i].1 <= 0x7fff_ffff
    ensures Collect(Flatten(entries, DefineText), SyscallOf) == entries
  {
    forall i | 0 <= i < |entries|
      ensures Collect(DefineText(entries[i]), SyscallOf) == Single(entries[i])
    {
      var e := entries[i];
      DefineNumber(e.0, e.1);
      assert DefineText(e)[..0] == [];
    }
    CollectFlatten(entries, DefineText, SyscallOf, Single);
    FlattenSingle(entries);
  }
}
