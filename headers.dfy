/**
 * `Header::fetch_table` (syscalls-gen/src/tables.rs): the syscall numbers of
 * architectures without a `syscall.tbl`, read from the `#define __NR_*`
 * lines of their `unistd.h` headers. Arch-relative numbers are offsets from
 * `__NR_arch_specific_syscall`, which must be defined once, before them.
 */
module UnistdHeaders {
  import opened Wrappers
  import opened NumberFormat
  import opened Text
  import opened Patterns
  import opened EntryOrder
  import opened SyscallTables

  /** The class `[a-z0-9_]+` as a whole word. */
  predicate IsName(s: string)
  {
    |s| > 0 && forall i :: 0 <= i < |s| ==> IsNameChar(s[i])
  }

  /**
   * `^#define\s+__NR(?:3264)?_([a-z0-9_]+)\s+`, the part both header
   * patterns share: the captured name and the text after it.
   */
  function NrPrefix(line: string): (r: Option<(string, string)>)
    ensures r.Some? ==> IsName(r.value.0)
  {
    match Literal(line, "#define")
    case None => None
    case Some(a) =>
      match Spaces1(a)
      case None => None
      case Some(b) =>
        match Literal(b, "__NR")
        case None => None
        case Some(c) =>
          var d := if StartsWith(c, "3264_") then c[4..] else c;
          match Literal(d, "_")
          case None => None
          case Some(e) =>
            var name := Span(e, IsNameChar);
            if |name| == 0 then None
            else match Spaces1(e[|name|..])
              case None => None
              case Some(rest) => Some((name, rest))
  }

  /** `RE_SYSCALLNR`: `#define __NR_<name> <digits>`. */
  function MatchNr(line: string): (r: Option<(string, string)>)
    ensures r.Some? ==> IsName(r.value.0) && AllDigits(r.value.1, 10)
  {
    match NrPrefix(line)
    case None => None
    case Some((name, rest)) =>
      var digits := Span(rest, IsAsciiDigit);
      if |digits| == 0 then None else Some((name, digits))
  }

  /** `RE_SYSCALLNR_ARCH`: `#define __NR_<name> (__NR_arch_specific_syscall + <digits>)`. */
  function MatchArch(line: string): (r: Option<(string, string)>)
    ensures r.Some? ==> IsName(r.value.0) && AllDigits(r.value.1, 10)
  {
    match NrPrefix(line)
    case None => None
    case Some((name, rest)) =>
      match Literal(rest, "(__NR_arch_specific_syscall")
      case None => None
      case Some(a) =>
        match Literal(TrimStart(a), "+")
        case None => None
        case Some(b) =>
          var c := TrimStart(b);
          var digits := Span(c, IsAsciiDigit);
          if |digits| == 0 || !StartsWith(c[|digits|..], ")") then None else Some((name, digits))
  }

  /**
   * What a header line is to the scan: a syscall number, an arch-relative
   * one, or nothing. The number is `None` when its digits overflow `u32`.
   */
  datatype HeaderLine =
    | NrLine(name: string, id: Option<nat>)
    | ArchLine(name: string, id: Option<nat>)
    | OtherLine

  /** The trimmed line against the first pattern, then the second. */
  function Classify(line: string): (r: HeaderLine)
    ensures !r.OtherLine? ==> IsName(r.name) && (r.id.Some? ==> r.id.value <= 0xffff_ffff)
  {
    var l := Trim(line);
    match MatchNr(l)
    case Some((name, digits)) => NrLine(name, ParseU32(digits))
    case None =>
      match MatchArch(l)
      case Some((name, digits)) => ArchLine(name, ParseU32(digits))
      case None => OtherLine
  }

  /** `f` of each line, in line order. */
  function MapLines<T>(lines: seq<string>, f: string -> T): (r: seq<T>)
    ensures |r| == |lines|
  {
    if |lines| == 0 then [] else MapLines(lines[..|lines| - 1], f) + [f(lines[|lines| - 1])]
  }

  function ClassifyAll(lines: seq<string>): (r: seq<HeaderLine>)
    ensures |r| == |lines|
  {
    MapLines(lines, Classify)
  }

  /** The rows so far and `arch_specific_syscall`, once its definition has been seen. */
  datatype HeaderState = HeaderState(table: seq<TableEntry>, base: Option<nat>)

  const START := HeaderState([], None)

  /** A row named after the syscall, with its `sys_` entry point. */
  function HeaderEntry(id: nat, name: string): TableEntry
  {
    TableEntry(id, name, Some("sys_" + name))
  }

  /** The effect of one header line. */
  function HeaderStep(st: HeaderState, line: HeaderLine, blocklist: seq<string>): (r: Result<HeaderState, GenError>)
    ensures line.OtherLine? ==> r == Ok(st)
    ensures line.ArchLine? && st.base.None? ==> r == Err(ArchBaseMissing)
    ensures r.Ok? ==> r.value.base == st.base || (st.base.None? && line.NrLine? && line.name == "arch_specific_syscall")
    ensures r.Ok? ==> r.value.table == st.table || (|r.value.table| == |st.table| + 1 && r.value.table[..|st.table|] == st.table)
    ensures r.Ok? && |r.value.table| > |st.table| && Fits(line) ==> HeaderRow(r.value.table[|st.table|], blocklist)
  {
    match line
    case OtherLine => Ok(st)
    case NrLine(name, id) =>
      (match id
       case None => Err(BadId)
       case Some(id) =>
         if name == "syscalls" then Ok(st)
         else if name == "arch_specific_syscall" then
           if st.base.None? then Ok(HeaderState(st.table, Some(id))) else Err(DuplicateArchBase)
         else if name in blocklist then Ok(st)
         else Ok(HeaderState(st.table + [HeaderEntry(id, name)], st.base)))
    case ArchLine(name, id) =>
      match st.base
      case None => Err(ArchBaseMissing)
      case Some(offset) =>
        match id
        case None => Err(BadId)
        case Some(k) =>
          if name in blocklist then Ok(st)
          else if k + offset > 0xffff_ffff then Err(Overflow)
          else Ok(HeaderState(st.table + [HeaderEntry(k + offset, name)], st.base))
  }

  /** The scan continued over `lines` from `scan`, stopping at the first error. */
  function ScanLines(scan: Result<HeaderState, GenError>, lines: seq<HeaderLine>, blocklist: seq<string>): Result<HeaderState, GenError>
  {
    if |lines| == 0 then scan
    else match ScanLines(scan, lines[..|lines| - 1], blocklist)
      case Err(e) => Err(e)
      case Ok(st) => HeaderStep(st, lines[|lines| - 1], blocklist)
  }

  /** The scan over every line of every header, in order. */
  function ScanHeaders(headers: seq<string>, blocklist: seq<string>): Result<HeaderState, GenError>
  {
    if |headers| == 0 then Ok(START)
    else ScanLines(ScanHeaders(headers[..|headers| - 1], blocklist), ClassifyAll(Lines(headers[|headers| - 1])), blocklist)
  }

  function SortedHeaderTable(scan: Result<HeaderState, GenError>): Result<seq<TableEntry>, GenError>
  {
    match scan
    case Err(e) => Err(e)
    case Ok(st) => Ok(Sort(st.table))
  }

  /** `Header::fetch_table` on the headers' contents, in the order given. */
  method FetchHeaderTable(headers: seq<string>, blocklist: seq<string>) returns (r: Result<seq<TableEntry>, GenError>)
    ensures r == SortedHeaderTable(ScanHeaders(headers, blocklist))
    ensures r.Ok? ==> Sorted(r.value)
  {
    var st := START;
    var h := 0;
    while h < |headers|
      invariant 0 <= h <= |headers|
      invariant ScanHeaders(headers[..h], blocklist) == Ok(st)
    {
      assert headers[..h + 1][..h] == headers[..h];
      var next := ScanHeaderLines(st, Lines(headers[h]), blocklist);
      if next.Err? {
        ScanHeadersErr(headers, h + 1, blocklist);
        return Err(next.error);
      }
      st := next.value;
      h := h + 1;
    }
    assert headers[..|headers|] == headers;
    r := Ok(Sort(st.table));
  }

  /** The inner loop of `Header::fetch_table`: the lines of one header. */
  method ScanHeaderLines(st: HeaderState, lines: seq<string>, blocklist: seq<string>) returns (r: Result<HeaderState, GenError>)
    ensures r == ScanLines(Ok(st), ClassifyAll(lines), blocklist)
  {
    var table := st.table;
    var base := st.base;
    var i := 0;
    while i < |lines|
      invariant 0 <= i <= |lines|
      invariant ScanLines(Ok(st), ClassifyAll(lines[..i]), blocklist) == Ok(HeaderState(table, base))
    {
      ScanLineStep(st, lines, i, blocklist);
      var next := HeaderStep(HeaderState(table, base), Classify(lines[i]), blocklist);
      if next.Err? {
        ScanLinesStop(st, lines, i + 1, blocklist);
        return Err(next.error);
      }
      table, base := next.value.table, next.value.base;
      i := i + 1;
    }
    assert lines[..|lines|] == lines;
    r := Ok(HeaderState(table, base));
  }

  /** One more line of the inner loop. */
  lemma ScanLineStep(st: HeaderState, lines: seq<string>, i: nat, blocklist: seq<string>)
    requires i < |lines|
    ensures ScanLines(Ok(st), ClassifyAll(lines[..i + 1]), blocklist) ==
      var s := ScanLines(Ok(st), ClassifyAll(lines[..i]), blocklist);
      if s.Err? then s else HeaderStep(s.value, Classify(lines[i]), blocklist)
  {
    ClassifyAllSnoc(lines, i);
    ScanLinesSnoc(Ok(st), ClassifyAll(lines[..i]), Classify(lines[i]), blocklist);
  }

  /** Once a line fails, the lines after it change nothing. */
  lemma ScanLinesStop(st: HeaderState, lines: seq<string>, k: nat, blocklist: seq<string>)
    requires k <= |lines| && ScanLines(Ok(st), ClassifyAll(lines[..k]), blocklist).Err?
    ensures ScanLines(Ok(st), ClassifyAll(lines), blocklist) == ScanLines(Ok(st), ClassifyAll(lines[..k]), blocklist)
  {
    ClassifyAllSplit(lines, k);
    ScanLinesConcat(Ok(st), ClassifyAll(lines[..k]), ClassifyAll(lines[k..]), blocklist);
    ScanLinesErr(ScanLines(Ok(st), ClassifyAll(lines[..k]), blocklist).error, ClassifyAll(lines[k..]), blocklist);
  }

  lemma ClassifyAllSnoc(lines: seq<string>, i: nat)
    requires i < |lines|
    ensures ClassifyAll(lines[..i + 1]) == ClassifyAll(lines[..i]) + [Classify(lines[i])]
  {
    assert lines[..i + 1][..i] == lines[..i];
  }

  lemma ClassifyAllSplit(lines: seq<string>, k: nat)
    requires k <= |lines|
    ensures ClassifyAll(lines) == ClassifyAll(lines[..k]) + ClassifyAll(lines[k..])
  {
    var front, back := lines[..k], lines[k..];
    assert front + back == lines;
    MapLinesConcat(front, back, Classify);
  }

  lemma ClassifyAllConcat(a: seq<string>, b: seq<string>)
    ensures ClassifyAll(a + b) == ClassifyAll(a) + ClassifyAll(b)
  {
    MapLinesConcat(a, b, Classify);
  }

  lemma {:induction false} MapLinesConcat<T>(a: seq<string>, b: seq<string>, f: string -> T)
    ensures MapLines(a + b, f) == MapLines(a, f) + MapLines(b, f)
    decreases |b|
  {
    if |b| == 0 {
      assert a + b == a;
    } else {
      var n := |b| - 1;
      assert (a + b)[..|a + b| - 1] == a + b[..n];
      assert (a + b)[|a + b| - 1] == b[n];
      MapLinesConcat(a, b[..n], f);
    }
  }

  lemma {:induction false} MapLinesAt<T>(lines: seq<string>, f: string -> T)
    ensures forall i :: 0 <= i < |lines| ==> MapLines(lines, f)[i] == f(lines[i])
  {
    if |lines| > 0 {
      MapLinesAt(lines[..|lines| - 1], f);
    }
  }

  lemma ScanLinesSnoc(scan: Result<HeaderState, GenError>, xs: seq<HeaderLine>, x: HeaderLine, blocklist: seq<string>)
    ensures ScanLines(scan, xs, blocklist).Err? ==> ScanLines(scan, xs + [x], blocklist) == ScanLines(scan, xs, blocklist)
    ensures ScanLines(scan, xs, blocklist).Ok? ==>
      ScanLines(scan, xs + [x], blocklist) == HeaderStep(ScanLines(scan, xs, blocklist).value, x, blocklist)
  {
    assert (xs + [x])[..|xs|] == xs;
  }

  /** Scanning two pieces one after the other. */
  lemma {:induction false} ScanLinesConcat(scan: Result<HeaderState, GenError>, xs: seq<HeaderLine>, ys: seq<HeaderLine>, blocklist: seq<string>)
    ensures ScanLines(scan, xs + ys, blocklist) == ScanLines(ScanLines(scan, xs, blocklist), ys, blocklist)
    decreases |ys|
  {
    if |ys| == 0 {
      assert xs + ys == xs;
    } else {
      var n := |ys| - 1;
      assert (xs + ys)[..|xs + ys| - 1] == xs + ys[..n];
      assert (xs + ys)[|xs + ys| - 1] == ys[n];
      ScanLinesConcat(scan, xs, ys[..n], blocklist);
    }
  }

  /** An error stops the scan: later lines do not matter. */
  lemma {:induction false} ScanLinesErr(e: GenError, xs: seq<HeaderLine>, blocklist: seq<string>)
    ensures ScanLines(Err(e), xs, blocklist) == Err(e)
    decreases |xs|
  {
    if |xs| > 0 {
      ScanLinesErr(e, xs[..|xs| - 1], blocklist);
    }
  }

  /** An error in the first `k` headers is the error of all of them. */
  lemma {:induction false} ScanHeadersErr(headers: seq<string>, k: nat, blocklist: seq<string>)
    requires k <= |headers| && ScanHeaders(headers[..k], blocklist).Err?
    ensures ScanHeaders(headers, blocklist) == ScanHeaders(headers[..k], blocklist)
    decreases |headers| - k
  {
    if k < |headers| {
      assert headers[..k + 1][..k] == headers[..k];
      ScanLinesErr(ScanHeaders(headers[..k], blocklist).error, ClassifyAll(Lines(headers[k])), blocklist);
      ScanHeadersErr(headers, k + 1, blocklist);
    } else {
      assert headers[..k] == headers;
    }
  }

  /** The lines of all headers, in order. */
  function AllLines(headers: seq<string>): seq<string>
  {
    if |headers| == 0 then [] else AllLines(headers[..|headers| - 1]) + Lines(headers[|headers| - 1])
  }

  /** Scanning header by header is scanning all their lines in one go. */
  lemma {:induction false} ScanHeadersFlat(headers: seq<string>, blocklist: seq<string>)
    ensures ScanHeaders(headers, blocklist) == ScanLines(Ok(START), ClassifyAll(AllLines(headers)), blocklist)
  {
    if |headers| > 0 {
      var n := |headers| - 1;
      ScanHeadersFlat(headers[..n], blocklist);
      ClassifyAllConcat(AllLines(headers[..n]), Lines(headers[n]));
      ScanLinesConcat(Ok(START), ClassifyAll(AllLines(headers[..n])), ClassifyAll(Lines(headers[n])), blocklist);
    }
  }

  /** A header line written the way `unistd.h` defines a syscall number. */
  function NrDefine(name: string, rest: string): string
  {
    "#define" + (" " + ("__NR" + ("_" + (name + (" " + rest)))))
  }

  /** The shared part of the header patterns reads a `#define __NR_<name> ` line. */
  lemma NrPrefixOf(name: string, rest: string)
    requires IsName(name)
    requires |rest| == 0 || !IsSpace(rest[0])
    ensures NrPrefix(NrDefine(name, rest)) == Some((name, rest))
  {
    var e := name + (" " + rest);
    var c := "_" + e;
    var b := "__NR" + c;
    var a := " " + b;
    LiteralOf("#define", a);
    Spaces1Of(" ", b);
    LiteralOf("__NR", c);
    assert !StartsWith(c, "3264_") by { assert c[0] == '_'; }
    LiteralOf("_", e);
    SpanOf(name, " " + rest, IsNameChar);
    assert e[|name|..] == " " + rest;
    Spaces1Of(" ", rest);
  }

  /** `#define __NR_<name> <digits>` matches the first pattern. */
  lemma MatchNrOf(name: string, id: nat)
    requires IsName(name)
    ensures MatchNr(NrDefine(name, Decimal(id))) == Some((name, Decimal(id)))
  {
    var d := Decimal(id);
    NaturalDigits(id);
    NrPrefixOf(name, d);
    SpanOf(d, [], IsAsciiDigit);
    assert d + [] == d;
  }

  /** `#define __NR_<name> <id>` is read as the number `id` for `name`. */
  lemma NrLineOf(name: string, id: nat)
    requires IsName(name) && id <= 0xffff_ffff
    ensures Classify(NrDefine(name, Decimal(id))) == NrLine(name, Some(id))
  {
    var d := Decimal(id);
    var line := NrDefine(name, d);
    NaturalDigits(id);
    assert line[|line| - 1] == d[|d| - 1];
    TrimNoop(line);
    MatchNrOf(name, id);
    ParseU32Decimal(id);
  }

  /** The arch-relative form, `#define __NR_<name> (__NR_arch_specific_syscall + <k>)`. */
  function ArchDefine(name: string, k: nat): string
  {
    NrDefine(name, ArchRest(k))
  }

  /** What follows the name in the arch-relative form. */
  function ArchRest(k: nat): string
  {
    "(__NR_arch_specific_syscall" + (" + " + (Decimal(k) + ")"))
  }

  /** The arch-relative form is read as the offset `k` for `name`. */
  lemma ArchLineOf(name: string, k: nat)
    requires IsName(name) && k <= 0xffff_ffff
    ensures Classify(ArchDefine(name, k)) == ArchLine(name, Some(k))
  {
    var line := ArchDefine(name, k);
    assert line[|line| - 1] == ')';
    TrimNoop(line);
    NotMatchNrOfArch(name, k);
    MatchArchOf(name, k);
    ParseU32Decimal(k);
  }

  lemma NotMatchNrOfArch(name: string, k: nat)
    requires IsName(name)
    ensures MatchNr(ArchDefine(name, k)).None?
  {
    NrPrefixOf(name, ArchRest(k));
    ArchTailHead(k);
  }

  lemma MatchArchOf(name: string, k: nat)
    requires IsName(name)
    ensures MatchArch(ArchDefine(name, k)) == Some((name, Decimal(k)))
  {
    NrPrefixOf(name, ArchRest(k));
    ArchTailHead(k);
    ArchTailNumber(k);
  }

  /** What follows the name in the arch-relative form matches the second pattern and not the first. */
  lemma ArchTailHead(k: nat)
    ensures Span(ArchRest(k), IsAsciiDigit) == []
    ensures Literal(ArchRest(k), "(__NR_arch_specific_syscall") == Some(" + " + (Decimal(k) + ")"))
  {
    var base := "(__NR_arch_specific_syscall";
    assert base[0] == '(';
    LiteralOf(base, " + " + (Decimal(k) + ")"));
  }

  lemma ArchTailNumber(k: nat)
    ensures var c := Decimal(k) + ")";
      Literal(TrimStart(" + " + c), "+") == Some(" " + c) &&
      TrimStart(" " + c) == c && Span(c, IsAsciiDigit) == Decimal(k) && c[|Decimal(k)|..] == ")"
  {
    var d := Decimal(k);
    var c := d + ")";
    PlusThen(c);
    NaturalDigits(k);
    assert c[0] == d[0];
    SpaceThen(c);
    SpanOf(d, ")", IsAsciiDigit);
  }

  /** `\s*\+` over ` + ` leaves what follows the `+`. */
  lemma PlusThen(c: string)
    ensures Literal(TrimStart(" + " + c), "+") == Some(" " + c)
  {
    var b := " " + c;
    var p := "+" + b;
    assert " + " + c == " " + p;
    TrimStartSpaces(" ", p);
    assert p[0] == '+' && TrimStart(p) == p;
    LiteralOf("+", b);
  }

  /** `\s*` over one space before a non-space. */
  lemma SpaceThen(c: string)
    requires |c| > 0 && !IsSpace(c[0])
    ensures TrimStart(" " + c) == c
  {
    TrimStartSpaces(" ", c);
  }

  /** What a syscall's `#define` does to the scan, by name. */
  lemma NrLineEffect(st: HeaderState, name: string, id: nat, blocklist: seq<string>)
    requires IsName(name) && id <= 0xffff_ffff
    ensures name == "syscalls" ==> HeaderStep(st, Classify(NrDefine(name, Decimal(id))), blocklist) == Ok(st)
    ensures name == "arch_specific_syscall" ==>
      HeaderStep(st, Classify(NrDefine(name, Decimal(id))), blocklist) ==
        if st.base.None? then Ok(HeaderState(st.table, Some(id))) else Err(DuplicateArchBase)
    ensures name != "syscalls" && name != "arch_specific_syscall" && name in blocklist ==>
      HeaderStep(st, Classify(NrDefine(name, Decimal(id))), blocklist) == Ok(st)
    ensures name != "syscalls" && name != "arch_specific_syscall" && name !in blocklist ==>
      HeaderStep(st, Classify(NrDefine(name, Decimal(id))), blocklist) ==
        Ok(HeaderState(st.table + [HeaderEntry(id, name)], st.base))
  {
    NrLineOf(name, id);
  }

  /** What an arch-relative `#define` does to the scan. */
  lemma ArchLineEffect(st: HeaderState, name: string, k: nat, blocklist: seq<string>)
    requires IsName(name) && k <= 0xffff_ffff
    ensures st.base.None? ==> HeaderStep(st, Classify(ArchDefine(name, k)), blocklist) == Err(ArchBaseMissing)
    ensures st.base.Some? && name in blocklist ==> HeaderStep(st, Classify(ArchDefine(name, k)), blocklist) == Ok(st)
    ensures st.base.Some? && name !in blocklist ==>
      HeaderStep(st, Classify(ArchDefine(name, k)), blocklist) ==
        if k + st.base.value > 0xffff_ffff then Err(Overflow)
        else Ok(HeaderState(st.table + [HeaderEntry(k + st.base.value, name)], st.base))
  {
    ArchLineOf(name, k);
    ArchStep(st, name, k, blocklist);
  }

  /** One step over an arch-relative line, by the base and the blocklist. */
  lemma ArchStep(st: HeaderState, name: string, k: nat, blocklist: seq<string>)
    ensures st.base.None? ==> HeaderStep(st, ArchLine(name, Some(k)), blocklist) == Err(ArchBaseMissing)
    ensures st.base.Some? && name in blocklist ==> HeaderStep(st, ArchLine(name, Some(k)), blocklist) == Ok(st)
    ensures st.base.Some? && name !in blocklist ==>
      HeaderStep(st, ArchLine(name, Some(k)), blocklist) ==
        if k + st.base.value > 0xffff_ffff then Err(Overflow)
        else Ok(HeaderState(st.table + [HeaderEntry(k + st.base.value, name)], st.base))
  {
  }

  /** The line that defines `__NR_arch_specific_syscall`. */
  predicate IsBase(line: HeaderLine)
  {
    line.NrLine? && line.name == "arch_specific_syscall"
  }

  /**
   * A scan that succeeds saw at most one base definition, saw it before
   * every arch-relative line, and has a base exactly when it saw one.
   */
  lemma {:induction false} HeaderBase(xs: seq<HeaderLine>, blocklist: seq<string>)
    requires ScanLines(Ok(START), xs, blocklist).Ok?
    ensures ScanLines(Ok(START), xs, blocklist).value.base.Some? ==> exists i :: 0 <= i < |xs| && IsBase(xs[i])
    ensures ScanLines(Ok(START), xs, blocklist).value.base.None? ==> forall i :: 0 <= i < |xs| ==> !IsBase(xs[i])
    ensures forall i, j :: 0 <= i < j < |xs| && IsBase(xs[i]) ==> !IsBase(xs[j])
    ensures forall j :: 0 <= j < |xs| && xs[j].ArchLine? ==> exists i :: 0 <= i < j && IsBase(xs[i])
    decreases |xs|
  {
    if |xs| > 0 {
      var n := |xs| - 1;
      var ys := xs[..n];
      assert forall i :: 0 <= i < n ==> xs[i] == ys[i];
      HeaderBase(ys, blocklist);
    }
  }

  /** Every row a header scan collects. */
  predicate HeaderRow(e: TableEntry, blocklist: seq<string>)
  {
    e.name !in blocklist && e.entryPoint == Some("sys_" + e.name) && e.id <= 0xffff_ffff
  }

  /** A classified line: a number it carries fits `u32`. */
  predicate Fits(line: HeaderLine)
  {
    line.OtherLine? || line.id.None? || line.id.value <= 0xffff_ffff
  }

  lemma ClassifyAllFits(lines: seq<string>)
    ensures forall i :: 0 <= i < |ClassifyAll(lines)| ==> Fits(ClassifyAll(lines)[i])
  {
    MapLinesAt(lines, Classify);
  }

  /** Rows come only from lines whose name is not blocked, each with its `sys_` entry point and a `u32` id. */
  lemma {:induction false} HeaderRows(xs: seq<HeaderLine>, blocklist: seq<string>)
    requires forall i :: 0 <= i < |xs| ==> Fits(xs[i])
    requires ScanLines(Ok(START), xs, blocklist).Ok?
    ensures forall k :: 0 <= k < |ScanLines(Ok(START), xs, blocklist).value.table| ==>
      HeaderRow(ScanLines(Ok(START), xs, blocklist).value.table[k], blocklist)
    decreases |xs|
  {
    if |xs| > 0 {
      var n := |xs| - 1;
      assert forall i :: 0 <= i < n ==> xs[..n][i] == xs[i];
      HeaderRows(xs[..n], blocklist);
      assert Fits(xs[n]);
    }
  }
}
