/**
 * The errno table generator (syscalls-gen/src/errors.rs): `parse_errno`
 * reads the `#define E...` lines of the kernel's errno headers into
 * definitions and aliases, `fetch_errno` does so for several headers in
 * order, and `ErrnoFile`'s `Display` writes the definitions as the body of
 * an `errno_enum!` invocation.
 */
module ErrnoGen {
  import opened Wrappers
  import opened NumberFormat
  import opened Text
  import opened Patterns
  import opened LineReading

  /** One `#define` of an errno header. */
  datatype GenErrno =
    | Definition(name: string, num: nat, description: Option<string>)
    | Alias(alias: string, name: string, description: Option<string>)

  /** Why reading a header fails: the digits of a definition overflow `u32`. */
  datatype ErrnoError = NumberTooLarge

  /** What `(E\w+)` captures. */
  predicate IsErrnoName(s: string)
  {
    |s| >= 2 && s[0] == 'E' && forall i :: 0 <= i < |s| ==> IsWordChar(s[i])
  }

  /** `^#define\s+(E\w+)\s+`, shared by both patterns: the name and the text after it. */
  function DefineHead(line: string): (r: Option<(string, string)>)
    ensures r.Some? ==> IsErrnoName(r.value.0)
  {
    match Literal(line, "#define")
    case None => None
    case Some(a) =>
      match Spaces1(a)
      case None => None
      case Some(b) => NameThenSpace(b)
  }

  /** `(E\w+)\s+`: the name and the text after the spaces. */
  function NameThenSpace(b: string): (r: Option<(string, string)>)
    ensures r.Some? ==> IsErrnoName(r.value.0)
  {
    match Literal(b, "E")
    case None => None
    case Some(c) =>
      var w := Span(c, IsWordChar);
      if |w| == 0 then None
      else match Spaces1(c[|w|..])
        case None => None
        case Some(rest) => Some(("E" + w, rest))
  }

  /** A character of `[^\\*]`. */
  predicate IsCommentChar(c: char)
  {
    c != '\\' && c != '*'
  }

  /** A description with no whitespace at either end, as `trim` leaves it. */
  predicate Trimmed(d: Option<string>)
  {
    d.None? || |d.value| == 0 || (!IsSpace(d.value[0]) && !IsSpace(d.value[|d.value| - 1]))
  }

  /** `(?:\s+/\*([^\\*]+)\*\/)?`: the comment's text, trimmed, when it is there. */
  function Comment(rest: string): (r: Option<string>)
    ensures Trimmed(r)
  {
    match Spaces1(rest)
    case None => None
    case Some(a) =>
      match Literal(a, "/*")
      case None => None
      case Some(b) =>
        var body := Span(b, IsCommentChar);
        if |body| == 0 || !StartsWith(b[|body|..], "*/") then None else Some(Trim(body))
  }

  /** `RE_DEFINITION`: the name, the digits and the description. */
  function MatchDefinition(line: string): (r: Option<(string, string, Option<string>)>)
    ensures r.Some? ==> IsErrnoName(r.value.0) && |r.value.1| > 0 && AllDigits(r.value.1, 10)
    ensures r.Some? ==> Trimmed(r.value.2)
  {
    match DefineHead(line)
    case None => None
    case Some((name, rest)) =>
      var digits := Span(rest, IsAsciiDigit);
      if |digits| == 0 then None else Some((name, digits, Comment(rest[|digits|..])))
  }

  /** `RE_ALIAS`: the alias, the name it stands for and the description. */
  function MatchAlias(line: string): (r: Option<(string, string, Option<string>)>)
    ensures r.Some? ==> IsErrnoName(r.value.0) && IsErrnoName(r.value.1)
    ensures r.Some? ==> Trimmed(r.value.2)
  {
    match DefineHead(line)
    case None => None
    case Some((alias, rest)) =>
      match Literal(rest, "E")
      case None => None
      case Some(c) =>
        var w := Span(c, IsWordChar);
        if |w| == 0 then None else Some((alias, "E" + w, Comment(c[|w|..])))
  }

  /** One line of `parse_errno`: the definition pattern first, then the alias pattern. */
  function ParseErrnoLine(line: string): Result<Option<GenErrno>, ErrnoError>
  {
    match MatchDefinition(line)
    case Some((name, digits, description)) =>
      (match ParseU32(digits)
       case None => Err(NumberTooLarge)
       case Some(num) => Ok(Some(Definition(name, num, description))))
    case None =>
      match MatchAlias(line)
      case Some((alias, name, description)) => Ok(Some(Alias(alias, name, description)))
      case None => Ok(None)
  }

  /** Reads one line: an entry, nothing, or the error that stops the header. */
  type LineParser = string -> Result<Option<GenErrno>, ErrnoError>

  /** What the loop over a header's lines has pushed, and the error that stopped it, if any. */
  datatype ErrnoScan = ErrnoScan(found: seq<GenErrno>, failed: Option<ErrnoError>)

  /** The loop of `parse_errno` over `lines`, each read by `parse`. */
  function Scan(lines: seq<string>, parse: LineParser): ErrnoScan
  {
    if |lines| == 0 then ErrnoScan([], None)
    else
      var s := Scan(lines[..|lines| - 1], parse);
      if s.failed.Some? then s
      else match parse(lines[|lines| - 1])
        case Err(e) => ErrnoScan(s.found, Some(e))
        case Ok(None) => s
        case Ok(Some(x)) => ErrnoScan(s.found + [x], None)
  }

  /** `parse_errno`'s reading of one header's contents. */
  function HeaderScan(contents: string): ErrnoScan
  {
    Scan(Lines(contents), ParseErrnoLine)
  }

  /** The entries of the headers' contents, each read by `scan`, in order, or the first error. */
  function ErrnoFiles(files: seq<string>, scan: string -> ErrnoScan): Result<seq<GenErrno>, ErrnoError>
  {
    if |files| == 0 then Ok([])
    else match ErrnoFiles(files[..|files| - 1], scan)
      case Err(e) => Err(e)
      case Ok(xs) =>
        var s := scan(files[|files| - 1]);
        if s.failed.Some? then Err(s.failed.value) else Ok(xs + s.found)
  }

  /** The `Vec<Errno>` that `parse_errno` pushes to. */
  class ErrnoList {
    var items: seq<GenErrno>

    constructor()
      ensures items == []
    {
      items := [];
    }

    /**
     * `parse_errno`: pushes the entries of `contents` in line order; at a
     * number that does not fit, stops with the entries before it pushed.
     */
    method ParseErrno(contents: string) returns (r: Result<(), ErrnoError>)
      modifies this
      ensures items == old(items) + HeaderScan(contents).found
      ensures r.Err? <==> HeaderScan(contents).failed.Some?
      ensures r.Err? ==> HeaderScan(contents).failed == Some(r.error)
    {
      var lines := Lines(contents);
      var i := 0;
      while i < |lines|
        invariant 0 <= i <= |lines|
        invariant Scan(lines[..i], ParseErrnoLine).failed.None?
        invariant items == old(items) + Scan(lines[..i], ParseErrnoLine).found
      {
        ScanStep(lines, i, ParseErrnoLine);
        var parsed := ParseErrnoLine(lines[i]);
        if parsed.Err? {
          ScanStops(lines, i + 1, ParseErrnoLine);
          return Err(parsed.error);
        }
        if parsed.value.Some? {
          AppendAssoc(old(items), Scan(lines[..i], ParseErrnoLine).found, [parsed.value.value]);
          items := items + [parsed.value.value];
        }
        i := i + 1;
      }
      assert lines[..|lines|] == lines;
      r := Ok(());
    }
  }

  /** `fetch_errno` on the headers' contents, in the order of their paths. */
  method FetchErrno(files: seq<string>) returns (r: Result<seq<GenErrno>, ErrnoError>)
    ensures r == ErrnoFiles(files, HeaderScan)
  {
    var list := new ErrnoList();
    var h := 0;
    while h < |files|
      invariant 0 <= h <= |files|
      invariant ErrnoFiles(files[..h], HeaderScan) == Ok(list.items)
    {
      ErrnoFilesStep(files, h, HeaderScan);
      var res := list.ParseErrno(files[h]);
      if res.Err? {
        ErrnoFilesStop(files, h + 1, HeaderScan);
        return Err(res.error);
      }
      h := h + 1;
    }
    assert files[..|files|] == files;
    r := Ok(list.items);
  }

  /** One more line of the loop. */
  lemma ScanStep(lines: seq<string>, i: nat, parse: LineParser)
    requires i < |lines|
    ensures Scan(lines[..i + 1], parse) ==
      var s := Scan(lines[..i], parse);
      if s.failed.Some? then s
      else match parse(lines[i])
        case Err(e) => ErrnoScan(s.found, Some(e))
        case Ok(None) => s
        case Ok(Some(x)) => ErrnoScan(s.found + [x], None)
  {
    assert lines[..i + 1][..i] == lines[..i];
  }

  /** One more header of the loop. */
  lemma ErrnoFilesStep(files: seq<string>, h: nat, scan: string -> ErrnoScan)
    requires h < |files|
    ensures ErrnoFiles(files[..h + 1], scan) ==
      match ErrnoFiles(files[..h], scan)
      case Err(e) => Err(e)
      case Ok(xs) => if scan(files[h]).failed.Some? then Err(scan(files[h]).failed.value) else Ok(xs + scan(files[h]).found)
  {
    assert files[..h + 1][..h] == files[..h];
  }

  /** Once a line fails, later lines change nothing. */
  lemma {:induction false} ScanStops(lines: seq<string>, k: nat, parse: LineParser)
    requires k <= |lines| && Scan(lines[..k], parse).failed.Some?
    ensures Scan(lines, parse) == Scan(lines[..k], parse)
    decreases |lines| - k
  {
    if k < |lines| {
      assert lines[..k + 1][..k] == lines[..k];
      ScanStops(lines, k + 1, parse);
    } else {
      assert lines[..k] == lines;
    }
  }

  lemma {:induction false} ErrnoFilesStop(files: seq<string>, k: nat, scan: string -> ErrnoScan)
    requires k <= |files| && ErrnoFiles(files[..k], scan).Err?
    ensures ErrnoFiles(files, scan) == ErrnoFiles(files[..k], scan)
    decreases |files| - k
  {
    if k < |files| {
      assert files[..k + 1][..k] == files[..k];
      ErrnoFilesStop(files, k + 1, scan);
    } else {
      assert files[..k] == files;
    }
  }

  /** What `parse` contributes for each line: its entry, if it has one. */
  function Parsed(parse: LineParser): string -> seq<GenErrno>
  {
    line => if parse(line).Ok? && parse(line).value.Some? then [parse(line).value.value] else []
  }

  /**
   * A header's scan fails exactly when one of its lines does; otherwise it
   * holds every parsed line's entry, in line order, non-matching lines
   * skipped.
   */
  lemma {:induction false} ScanLines(lines: seq<string>, parse: LineParser)
    ensures Scan(lines, parse).failed.None? <==> forall i :: 0 <= i < |lines| ==> parse(lines[i]).Ok?
    ensures Scan(lines, parse).failed.None? ==> Scan(lines, parse).found == Flatten(lines, Parsed(parse))
  {
    if |lines| > 0 {
      var n := |lines| - 1;
      assert forall i :: 0 <= i < n ==> lines[..n][i] == lines[i];
      ScanLines(lines[..n], parse);
    }
  }

  /** Everything a header's scan found. */
  function FoundIn(scan: string -> ErrnoScan): string -> seq<GenErrno>
  {
    contents => scan(contents).found
  }

  /** The headers succeed exactly when each does, and their entries are concatenated in path order. */
  lemma {:induction false} ErrnoFilesInOrder(files: seq<string>, scan: string -> ErrnoScan)
    ensures ErrnoFiles(files, scan).Ok? <==> forall i :: 0 <= i < |files| ==> scan(files[i]).failed.None?
    ensures ErrnoFiles(files, scan).Ok? ==> ErrnoFiles(files, scan).value == Flatten(files, FoundIn(scan))
  {
    if |files| > 0 {
      var n := |files| - 1;
      assert forall i :: 0 <= i < n ==> files[..n][i] == files[i];
      ErrnoFilesInOrder(files[..n], scan);
    }
  }

  /** A definition's name is an errno name and its number fits `u32`. */
  predicate WellFormed(e: GenErrno)
  {
    match e
    case Definition(name, num, _) => IsErrnoName(name) && num <= 0xffff_ffff
    case Alias(alias, name, _) => IsErrnoName(alias) && IsErrnoName(name)
  }

  /** Everything `parse_errno` reads is well formed. */
  lemma {:induction false} ScanWellFormed(lines: seq<string>)
    ensures forall i :: 0 <= i < |Scan(lines, ParseErrnoLine).found| ==> WellFormed(Scan(lines, ParseErrnoLine).found[i])
    ensures forall i :: 0 <= i < |Scan(lines, ParseErrnoLine).found| ==> Trimmed(Scan(lines, ParseErrnoLine).found[i].description)
  {
    if |lines| > 0 {
      ScanWellFormed(lines[..|lines| - 1]);
      var x := ParseErrnoLine(lines[|lines| - 1]);
      if x.Ok? && x.value.Some? {
        ParsedWellFormed(lines[|lines| - 1]);
      }
    }
  }

  lemma ParsedWellFormed(line: string)
    requires ParseErrnoLine(line).Ok? && ParseErrnoLine(line).value.Some?
    ensures WellFormed(ParseErrnoLine(line).value.value)
    ensures Trimmed(ParseErrnoLine(line).value.value.description)
  {
  }

  /** A header line written the way the errno headers define a code. */
  function DefineLine(name: string, value: string, description: Option<string>): string
  {
    DefineOf(name, value + CommentText(description))
  }

  /** ` /* <description> */`, or nothing. */
  function CommentText(description: Option<string>): string
  {
    match description
    case None => ""
    case Some(d) => " " + ("/*" + ((" " + d + " ") + "*/"))
  }

  /** Text that can stand between `/* ` and ` */` and survives `trim` unchanged. */
  predicate CommentBody(d: string)
  {
    |d| > 0 && !IsSpace(d[0]) && !IsSpace(d[|d| - 1]) && forall i :: 0 <= i < |d| ==> IsCommentChar(d[i])
  }

  /** `#define <name> <rest>`. */
  function DefineOf(name: string, rest: string): string
  {
    "#define" + (" " + (name + (" " + rest)))
  }

  /** An errno name is `E` and a non-empty run of word characters. */
  lemma ErrnoNameTail(name: string)
    requires IsErrnoName(name)
    ensures name == "E" + name[1..] && |name[1..]| > 0
    ensures forall i :: 0 <= i < |name[1..]| ==> IsWordChar(name[1..][i])
  {
    assert forall i :: 0 <= i < |name[1..]| ==> name[1..][i] == name[i + 1];
  }

  lemma DefineHeadOf(name: string, rest: string)
    requires IsErrnoName(name)
    requires |rest| == 0 || !IsSpace(rest[0])
    ensures DefineHead(DefineOf(name, rest)) == Some((name, rest))
  {
    var b := name + (" " + rest);
    LiteralOf("#define", " " + b);
    assert name[0] == 'E';
    Spaces1Of(" ", b);
    NameThenSpaceOf(name, rest);
  }

  lemma NameThenSpaceOf(name: string, rest: string)
    requires IsErrnoName(name)
    requires |rest| == 0 || !IsSpace(rest[0])
    ensures NameThenSpace(name + (" " + rest)) == Some((name, rest))
  {
    var w := name[1..];
    var e := w + (" " + rest);
    ErrnoNameTail(name);
    assert name + (" " + rest) == "E" + e;
    LiteralOf("E", e);
    SpanOf(w, " " + rest, IsWordChar);
    assert e[|w|..] == " " + rest;
    Spaces1Of(" ", rest);
  }

  /** `trim` drops one space on each side of a word. */
  lemma TrimPadded(d: string)
    requires |d| > 0 && !IsSpace(d[0]) && !IsSpace(d[|d| - 1])
    ensures Trim(" " + d + " ") == d
  {
    var s := " " + d + " ";
    assert s[1] == d[0] && s[|s| - 2] == d[|d| - 1];
    assert SkipSpaces(s, 1) == 1;
    assert TrimEnd(s, |s| - 1) == |s| - 1;
    assert s[1..|s| - 1] == d;
  }

  lemma CommentOf(description: Option<string>)
    requires description.Some? ==> CommentBody(description.value)
    ensures Comment(CommentText(description)) == description
  {
    if description.Some? {
      var d := description.value;
      PaddedCommentChars(d);
      CommentAround(" " + d + " ");
      TrimPadded(d);
    }
  }

  lemma PaddedCommentChars(d: string)
    requires CommentBody(d)
    ensures forall i :: 0 <= i < |" " + d + " "| ==> IsCommentChar((" " + d + " ")[i])
  {
    var body := " " + d + " ";
    assert forall i :: 1 <= i < |body| - 1 ==> body[i] == d[i - 1];
  }

  /** A comment whose text is free of `\\` and `*` is read as its trimmed text. */
  lemma CommentAround(body: string)
    requires |body| > 0 && forall i :: 0 <= i < |body| ==> IsCommentChar(body[i])
    ensures Comment(" " + ("/*" + (body + "*/"))) == Some(Trim(body))
  {
    var b := body + "*/";
    var a := "/*" + b;
    Spaces1Of(" ", a);
    LiteralOf("/*", b);
    SpanOf(body, "*/", IsCommentChar);
    assert b[|body|..] == "*/";
  }

  /** `#define <name> <n>` with an optional comment reads as that definition. */
  lemma DefinitionLineOf(name: string, n: nat, description: Option<string>)
    requires IsErrnoName(name) && n <= 0xffff_ffff
    requires description.Some? ==> CommentBody(description.value)
    ensures ParseErrnoLine(DefineLine(name, Decimal(n), description)) == Ok(Some(Definition(name, n, description)))
  {
    DefinitionMatch(name, n, description);
    ParseU32Decimal(n);
  }

  /** Digits too large for `u32` are an error, not a skipped line. */
  lemma DefinitionOverflow(name: string, n: nat, description: Option<string>)
    requires IsErrnoName(name) && n > 0xffff_ffff
    requires description.Some? ==> CommentBody(description.value)
    ensures ParseErrnoLine(DefineLine(name, Decimal(n), description)) == Err(NumberTooLarge)
  {
    DefinitionMatch(name, n, description);
    ParseU32Overflow(n);
  }

  lemma DefinitionMatch(name: string, n: nat, description: Option<string>)
    requires IsErrnoName(name)
    requires description.Some? ==> CommentBody(description.value)
    ensures MatchDefinition(DefineLine(name, Decimal(n), description)) == Some((name, Decimal(n), description))
  {
    var d := Decimal(n);
    var c := CommentText(description);
    NaturalDigits(n);
    DefineHeadOf(name, d + c);
    assert |c| == 0 || c[0] == ' ';
    SpanOf(d, c, IsAsciiDigit);
    assert (d + c)[|d|..] == c;
    CommentOf(description);
  }

  /** `#define <alias> <name>` with an optional comment reads as that alias. */
  lemma AliasLineOf(alias: string, name: string, description: Option<string>)
    requires IsErrnoName(alias) && IsErrnoName(name)
    requires description.Some? ==> CommentBody(description.value)
    ensures ParseErrnoLine(DefineLine(alias, name, description)) == Ok(Some(Alias(alias, name, description)))
  {
    AliasNotDefinition(alias, name, description);
    AliasMatch(alias, name, description);
  }

  lemma AliasNotDefinition(alias: string, name: string, description: Option<string>)
    requires IsErrnoName(alias) && IsErrnoName(name)
    ensures MatchDefinition(DefineLine(alias, name, description)).None?
  {
    var c := CommentText(description);
    DefineHeadOf(alias, name + c);
    assert (name + c)[0] == 'E';
    assert Span(name + c, IsAsciiDigit) == [];
  }

  lemma AliasMatch(alias: string, name: string, description: Option<string>)
    requires IsErrnoName(alias) && IsErrnoName(name)
    requires description.Some? ==> CommentBody(description.value)
    ensures MatchAlias(DefineLine(alias, name, description)) == Some((alias, name, description))
  {
    var c := CommentText(description);
    var w := name[1..];
    DefineHeadOf(alias, name + c);
    ErrnoNameTail(name);
    assert name + c == "E" + (w + c);
    LiteralOf("E", w + c);
    assert |c| == 0 || c[0] == ' ';
    SpanOf(w, c, IsWordChar);
    assert (w + c)[|w|..] == c;
    CommentOf(description);
  }

  /** A line that is not a `#define` adds nothing. */
  lemma OtherLineSkipped(line: string)
    requires !StartsWith(line, "#define")
    ensures ParseErrnoLine(line) == Ok(None)
  {
  }

  /** The fixed text for the two codes the headers leave undescribed; `None` where `fmt` panics. */
  function DescriptionText(name: string, description: Option<string>): Option<string>
  {
    match description
    case Some(d) => Some(d)
    case None =>
      if name == "ERESTARTSYS" then Some("Restart syscall")
      else if name == "ERESTARTNOINTR" then Some("Restart if no interrupt")
      else None
  }

  /** `        <name>(<num>) = "<description>",` */
  function DefinitionLine(name: string, num: nat, description: string): string
  {
    INDENT + name + "(" + Decimal(num) + ") = \"" + description + "\","
  }

  const INDENT := "        "

  /** The line an entry writes: none for an alias, `None` for a definition `fmt` cannot describe. */
  function ItemLines(e: GenErrno): Option<seq<string>>
  {
    match e
    case Alias(_, _, _) => Some([])
    case Definition(name, num, description) =>
      match DescriptionText(name, description)
      case None => None
      case Some(text) => Some([DefinitionLine(name, num, text)])
  }

  function BodyLines(errnos: seq<GenErrno>): Option<seq<string>>
  {
    if |errnos| == 0 then Some([])
    else match BodyLines(errnos[..|errnos| - 1])
      case None => None
      case Some(body) =>
        match ItemLines(errnos[|errnos| - 1])
        case None => None
        case Some(lines) => Some(body + lines)
  }

  const ERRNO_HEADER: seq<string> := [
    // Split so that the first two characters can be read off without unfolding the whole literal.
    "//" + " This file is automatically generated. Do not edit!",
    "",
    "errno_enum! {",
    "    pub enum Errno {"
  ]

  const ERRNO_FOOTER: seq<string> := ["    }", "}"]

  /** The generated `src/errno/generated.rs`, or `None` where `fmt` panics. */
  function ErrnoFileLines(errnos: seq<GenErrno>): Option<seq<string>>
  {
    match BodyLines(errnos)
    case None => None
    case Some(body) => Some(ERRNO_HEADER + body + ERRNO_FOOTER)
  }

  /** `ErrnoFile::fmt`; `None` stands for its panic. */
  method WriteErrnoFile(errnos: seq<GenErrno>) returns (r: Option<seq<string>>)
    ensures r == ErrnoFileLines(errnos)
  {
    var body: seq<string> := [];
    var i := 0;
    while i < |errnos|
      invariant 0 <= i <= |errnos|
      invariant BodyLines(errnos[..i]) == Some(body)
    {
      BodyStep(errnos, i);
      var e := errnos[i];
      if e.Definition? {
        var text := DescriptionText(e.name, e.description);
        if text.None? {
          BodyLinesStop(errnos, i + 1);
          return None;
        }
        body := body + [DefinitionLine(e.name, e.num, text.value)];
      } else {
        assert body + [] == body;
      }
      i := i + 1;
    }
    assert errnos[..|errnos|] == errnos;
    r := Some(ERRNO_HEADER + body + ERRNO_FOOTER);
  }

  lemma BodyStep(errnos: seq<GenErrno>, i: nat)
    requires i < |errnos|
    ensures BodyLines(errnos[..i + 1]) ==
      match BodyLines(errnos[..i])
      case None => None
      case Some(body) => (match ItemLines(errnos[i]) case None => None case Some(lines) => Some(body + lines))
  {
    assert errnos[..i + 1][..i] == errnos[..i];
  }

  lemma {:induction false} BodyLinesStop(errnos: seq<GenErrno>, k: nat)
    requires k <= |errnos| && BodyLines(errnos[..k]).None?
    ensures BodyLines(errnos).None?
    decreases |errnos| - k
  {
    if k < |errnos| {
      assert errnos[..k + 1][..k] == errnos[..k];
      BodyLinesStop(errnos, k + 1);
    } else {
      assert errnos[..k] == errnos;
    }
  }

  /** A definition `fmt` has no description for. */
  predicate Undescribed(e: GenErrno)
  {
    e.Definition? && DescriptionText(e.name, e.description).None?
  }

  /** `fmt` panics exactly when some definition is undescribed. */
  lemma {:induction false} WritePanics(errnos: seq<GenErrno>)
    ensures ErrnoFileLines(errnos).None? <==> exists i :: 0 <= i < |errnos| && Undescribed(errnos[i])
  {
    BodyLinesNone(errnos);
  }

  lemma {:induction false} BodyLinesNone(errnos: seq<GenErrno>)
    ensures BodyLines(errnos).None? <==> exists i :: 0 <= i < |errnos| && Undescribed(errnos[i])
  {
    if |errnos| > 0 {
      var n := |errnos| - 1;
      assert forall i :: 0 <= i < n ==> errnos[..n][i] == errnos[i];
      BodyLinesNone(errnos[..n]);
      if BodyLines(errnos[..n]).None? {
        var i :| 0 <= i < n && Undescribed(errnos[..n][i]);
        assert Undescribed(errnos[i]);
      }
    }
  }

  /** An entry's lines, when it has them. */
  function ItemText(e: GenErrno): seq<string>
  {
    if ItemLines(e).Some? then ItemLines(e).value else []
  }

  lemma {:induction false} BodyFlatten(errnos: seq<GenErrno>)
    requires BodyLines(errnos).Some?
    ensures BodyLines(errnos).value == Flatten(errnos, ItemText)
  {
    if |errnos| > 0 {
      BodyLinesPrefix(errnos);
      BodyFlatten(errnos[..|errnos| - 1]);
    }
  }

  lemma BodyLinesPrefix(errnos: seq<GenErrno>)
    requires |errnos| > 0 && BodyLines(errnos).Some?
    ensures BodyLines(errnos[..|errnos| - 1]).Some?
  {
  }

  /** A variant as the enum reads it: `<name>(<u32>) = "<text>",`, indented by eight. */
  function DefinitionOf(line: string): Option<(string, nat, string)>
  {
    if !StartsWith(line, INDENT) then None else VariantOf(line[8..])
  }

  /** `<name>(<u32>) = "<text>",` */
  function VariantOf(rest: string): Option<(string, nat, string)>
  {
    var name := Span(rest, IsWordChar);
    if |name| == 0 then None
    else match Literal(rest[|name|..], "(")
      case None => None
      case Some(a) =>
        match NumberAndText(a)
        case None => None
        case Some((n, text)) => Some((name, n, text))
  }

  /** `<u32>) = "<text>",` */
  function NumberAndText(a: string): Option<(nat, string)>
  {
    var digits := Span(a, IsAsciiDigit);
    match Literal(a[|digits|..], ") = \"")
    case None => None
    case Some(b) =>
      if |b| < 2 || b[|b| - 2..] != "\"," then None
      else match ParseU32(digits)
        case None => None
        case Some(n) => Some((n, b[..|b| - 2]))
  }

  /** What a written entry declares: a definition's name, number and description. */
  function Written(e: GenErrno): seq<(string, nat, string)>
  {
    if e.Definition? && DescriptionText(e.name, e.description).Some? then
      [(e.name, e.num, DescriptionText(e.name, e.description).value)]
    else []
  }

  /**
   * The generated file reads back as the definitions, in order, with their
   * descriptions; aliases leave no trace.
   */
  lemma ErrnoReadBack(errnos: seq<GenErrno>)
    requires forall i :: 0 <= i < |errnos| ==> WellFormed(errnos[i])
    requires ErrnoFileLines(errnos).Some?
    ensures Collect(ErrnoFileLines(errnos).value, DefinitionOf) == Flatten(errnos, Written)
  {
    var body := BodyLines(errnos).value;
    BodyReadBack(errnos);
    DefinitionOfFraming();
    ErrnoFramingUnread(DefinitionOf);
    CollectParts(ERRNO_HEADER, body, ERRNO_FOOTER, DefinitionOf);
    assert [] + Flatten(errnos, Written) + [] == Flatten(errnos, Written);
  }

  lemma BodyReadBack(errnos: seq<GenErrno>)
    requires forall i :: 0 <= i < |errnos| ==> WellFormed(errnos[i])
    requires BodyLines(errnos).Some?
    ensures Collect(BodyLines(errnos).value, DefinitionOf) == Flatten(errnos, Written)
  {
    BodyFlatten(errnos);
    forall i | 0 <= i < |errnos|
      ensures Collect(ItemText(errnos[i]), DefinitionOf) == Written(errnos[i])
    {
      ItemReadBack(errnos[i]);
    }
    CollectFlatten(errnos, ItemText, DefinitionOf, Written);
  }

  lemma DefinitionOfFraming()
    ensures forall line :: Framing(line) ==> DefinitionOf(line).None?
  {
    forall line | Framing(line)
      ensures DefinitionOf(line).None?
    {
      PrefixAt(line, INDENT, 0);
      PrefixAt(line, INDENT, 4);
    }
  }

  lemma ErrnoFramingUnread<T>(read: string -> Option<T>)
    requires forall line :: Framing(line) ==> read(line).None?
    ensures Collect(ERRNO_HEADER, read) == [] && Collect(ERRNO_FOOTER, read) == []
  {
    var h := ERRNO_HEADER;
    assert h[0][0] == '/' && |h[1]| == 0 && h[2][0] == 'e' && h[3][4] == 'p';
    CollectNone(h, read);
    var close := "    }";
    assert close[4] == '}';
    CollectNone(ERRNO_FOOTER, read);
  }

  lemma ItemReadBack(e: GenErrno)
    requires WellFormed(e)
    ensures Collect(ItemText(e), DefinitionOf) == Written(e)
  {
    if e.Definition? && DescriptionText(e.name, e.description).Some? {
      var text := DescriptionText(e.name, e.description).value;
      DefinitionLineRead(e.name, e.num, text);
      assert ItemText(e) == [DefinitionLine(e.name, e.num, text)];
      assert [DefinitionLine(e.name, e.num, text)][..0] == [];
    }
  }

  /** A written definition line reads back as its name, number and description. */
  lemma DefinitionLineRead(name: string, num: nat, text: string)
    requires IsErrnoName(name) && num <= 0xffff_ffff
    ensures DefinitionOf(DefinitionLine(name, num, text)) == Some((name, num, text))
  {
    var a := Decimal(num) + (") = \"" + (text + "\","));
    var rest := name + ("(" + a);
    var line := DefinitionLine(name, num, text);
    assert line == INDENT + rest;
    StartsWithConcat(INDENT, rest);
    assert line[8..] == rest;
    VariantRead(name, a);
    NumberAndTextRead(num, text);
  }

  lemma VariantRead(name: string, a: string)
    requires IsErrnoName(name)
    ensures VariantOf(name + ("(" + a)) == (match NumberAndText(a) case None => None case Some((n, t)) => Some((name, n, t)))
  {
    SpanOf(name, "(" + a, IsWordChar);
    assert (name + ("(" + a))[|name|..] == "(" + a;
    LiteralOf("(", a);
  }

  lemma NumberAndTextRead(num: nat, text: string)
    requires num <= 0xffff_ffff
    ensures NumberAndText(Decimal(num) + (") = \"" + (text + "\","))) == Some((num, text))
  {
    var d := Decimal(num);
    var b := text + "\",";
    NaturalDigits(num);
    SpanOf(d, ") = \"" + b, IsAsciiDigit);
    assert (d + (") = \"" + b))[|d|..] == ") = \"" + b;
    LiteralOf(") = \"", b);
    assert b[|b| - 2..] == "\"," && b[..|b| - 2] == text;
    ParseU32Decimal(num);
  }
}
