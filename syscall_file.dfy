/**
 * `SyscallFile`'s `Display` (syscalls-gen/src/tables.rs:214-258): the
 * generated `src/arch/<arch>.rs`, one `Sysno` variant per table row with a
 * doc comment above it, and the last row named as `LAST`. The output is the
 * sequence of lines the `writeln!`s produce.
 */
module SyscallFile {
  import opened Wrappers
  import opened NumberFormat
  import opened Text
  import opened EntryOrder
  import opened LineReading

  /** `TableEntry::ident`: `break` is a keyword, so it is written as a raw identifier. */
  function Ident(name: string): string
  {
    if name == "break" then "r#" + name else name
  }

  /** Distinct names give distinct identifiers, as long as no name holds a `#`. */
  lemma IdentInjective(a: string, b: string)
    requires '#' !in a && '#' !in b
    ensures Ident(a) == Ident(b) ==> a == b
  {
  }

  /** A name that can stand as a variant: one word, not starting like a comment. */
  predicate VariantName(name: string)
  {
    |name| > 0 && NoSpace(name) && name[0] != '/'
  }

  /** Only `break` changes, and a name that can stand as a variant still can. */
  lemma IdentWord(name: string)
    ensures name != "break" ==> Ident(name) == name
    ensures VariantName(name) ==> VariantName(Ident(name))
  {
    if name == "break" {
      assert Ident(name) == ['r', '#', 'b', 'r', 'e', 'a', 'k'];
    }
  }

  /** The indentation of a variant and of its doc comment. */
  const INDENT := "        "

  const DOC_SEE := "        /// See ["
  const DOC_NOTE := "        /// NOTE: `"

  /** The doc comment above a row: a man page link, or a note that the kernel lacks it. */
  function DocLine(e: TableEntry): string
  {
    if e.entryPoint.Some? then DOC_SEE + SeeTail(Ident(e.name)) else DOC_NOTE + NoteTail(Ident(e.name))
  }

  function SeeTail(id: string): string
  {
    id + "(2)](https://man7.org/linux/man-pages/man2/" + id + ".2.html) for more info on this syscall."
  }

  function NoteTail(id: string): string
  {
    id + "` is not implemented in the kernel."
  }

  /** The variant itself, `<ident> = <id>,`. */
  function VariantLine(e: TableEntry): string
  {
    INDENT + Ident(e.name) + " = " + Decimal(e.id) + ","
  }

  const FILE_HEADER: seq<string> := [
    // Split so that the first two characters can be read off without unfolding the whole literal.
    "//" + " This file is automatically generated. Do not edit!",
    "",
    "syscall_enum! {",
    "    pub enum Sysno {"
  ]

  /** The line naming the final row as `LAST`. */
  function LastLine(t: seq<TableEntry>): string
    requires |t| > 0
  {
    "    LAST: " + Ident(t[|t| - 1].name) + ";"
  }

  function Footer(t: seq<TableEntry>): seq<string>
    requires |t| > 0
  {
    ["    }", LastLine(t), "}"]
  }

  /** The two lines of a row: its doc comment, then its variant. */
  function RowLines(e: TableEntry): seq<string>
  {
    [DocLine(e), VariantLine(e)]
  }

  function SyscallFileLines(t: seq<TableEntry>): seq<string>
    requires |t| > 0
  {
    FILE_HEADER + Flatten(t, RowLines) + Footer(t)
  }

  /** `SyscallFile::fmt`, which panics at `last().unwrap()` on an empty table. */
  method WriteSyscallFile(t: seq<TableEntry>) returns (out: seq<string>)
    requires |t| > 0
    ensures out == SyscallFileLines(t)
  {
    out := FILE_HEADER;
    var i := 0;
    while i < |t|
      invariant 0 <= i <= |t|
      invariant out == FILE_HEADER + Flatten(t[..i], RowLines)
    {
      FlattenSnoc(t, i, RowLines);
      AppendAssoc(FILE_HEADER, Flatten(t[..i], RowLines), [DocLine(t[i]), VariantLine(t[i])]);
      out := out + [DocLine(t[i]), VariantLine(t[i])];
      i := i + 1;
    }
    assert t[..|t|] == t;
    out := out + Footer(t);
  }

  /**
   * Any reader that skips the framing lines finds in the file what it finds
   * in the rows, then what it finds in the `LAST` line.
   */
  lemma {:induction false} CollectFile<T>(t: seq<TableEntry>, read: string -> Option<T>, f: TableEntry -> seq<T>)
    requires |t| > 0
    requires forall line :: Framing(line) ==> read(line).None?
    requires forall i :: 0 <= i < |t| ==> Collect(RowLines(t[i]), read) == f(t[i])
    ensures Collect(SyscallFileLines(t), read) == Flatten(t, f) + Found(LastLine(t), read)
  {
    var h, m, ft := FILE_HEADER, Flatten(t, RowLines), Footer(t);
    HeaderUnread(read);
    FooterRead(LastLine(t), read);
    CollectFlatten(t, RowLines, read, f);
    CollectParts(h, m, ft, read);
    assert [] + Flatten(t, f) == Flatten(t, f);
  }

  lemma HeaderUnread<T>(read: string -> Option<T>)
    requires forall line :: Framing(line) ==> read(line).None?
    ensures Collect(FILE_HEADER, read) == []
  {
    var h := FILE_HEADER;
    assert h[0][0] == '/' && |h[1]| == 0 && h[2][0] == 's' && h[3][4] == 'p';
    assert Framing(h[0]) && Framing(h[1]) && Framing(h[2]) && Framing(h[3]);
    assert h[..3] == [h[0], h[1], h[2]] && h[..3][..2] == [h[0], h[1]];
    assert [h[0], h[1]][..1] == [h[0]] && [h[0]][..0] == [];
    assert Collect([h[0]], read) == [];
    assert Collect([h[0], h[1]], read) == [];
    assert Collect([h[0], h[1], h[2]], read) == [];
    assert h == [h[0], h[1], h[2]] + [h[3]];
  }

  lemma FooterRead<T>(last: string, read: string -> Option<T>)
    requires forall line :: Framing(line) ==> read(line).None?
    ensures Collect(["    }", last, "}"], read) == Found(last, read)
  {
    var close := "    }";
    assert close[4] == '}';
    var f := [close, last, "}"];
    assert f[..2] == [close, last] && f[..2][..1] == [close] && [close][..0] == [];
    assert Collect([close], read) == [];
  }

  /**
   * A variant as the enum reads it: an indented line that is not a comment,
   * whose words are an identifier, `=` and a `u32` followed by a comma.
   */
  function VariantOf(line: string): (r: Option<(string, nat)>)
    ensures r.Some? ==> r.value.1 <= 0xffff_ffff
  {
    if !StartsWith(line, INDENT) || |line| == 8 || line[8] == '/' then None
    else
      var words := Tokens(line);
      if |words| != 3 || words[1] != "=" || |words[2]| == 0 || words[2][|words[2]| - 1] != ',' then None
      else match ParseU32(words[2][..|words[2]| - 1])
        case None => None
        case Some(id) => Some((words[0], id))
  }

  /** Which kind of doc comment a line is: `true` for a man page link, `false` for a note. */
  function DocKindOf(line: string): (r: Option<bool>)
    ensures r.Some? ==> StartsWith(line, INDENT)
  {
    if StartsWith(line, DOC_SEE) then Some(true)
    else if StartsWith(line, DOC_NOTE) then Some(false)
    else None
  }

  /** The identifier a `LAST: <ident>;` line names. */
  function LastOf(line: string): (r: Option<string>)
    ensures r.Some? ==> line == "    LAST: " + r.value + ";"
  {
    if |line| > 10 && StartsWith(line, "    LAST: ") && line[|line| - 1] == ';' then
      assert line == line[..10] + line[10..|line| - 1] + [line[|line| - 1]];
      Some(line[10..|line| - 1])
    else None
  }

  /** The variant a row declares. */
  function Declared(e: TableEntry): seq<(string, nat)>
  {
    [(Ident(e.name), e.id)]
  }

  /** Whether a row has an entry point. */
  function Implemented(e: TableEntry): seq<bool>
  {
    [e.entryPoint.Some?]
  }

  predicate EmittableRow(e: TableEntry)
  {
    VariantName(e.name) && e.id <= 0xffff_ffff
  }

  /**
   * The generated file reads back as the table: its variants are the rows'
   * identifiers and ids in order, its doc comments tell which rows have an
   * entry point, and `LAST` names the final row, once.
   */
  lemma {:induction false} ReadBack(t: seq<TableEntry>)
    requires |t| > 0 && forall i :: 0 <= i < |t| ==> EmittableRow(t[i])
    ensures Collect(SyscallFileLines(t), VariantOf) == Flatten(t, Declared)
    ensures Collect(SyscallFileLines(t), DocKindOf) == Flatten(t, Implemented)
    ensures Collect(SyscallFileLines(t), LastOf) == [Ident(t[|t| - 1].name)]
  {
    forall line | Framing(line)
      ensures VariantOf(line).None? && DocKindOf(line).None? && LastOf(line).None?
    {
      FramingLineUnread(line);
    }
    forall i | 0 <= i < |t|
      ensures Collect(RowLines(t[i]), VariantOf) == Declared(t[i])
      ensures Collect(RowLines(t[i]), DocKindOf) == Implemented(t[i])
      ensures Collect(RowLines(t[i]), LastOf) == Nothing(t[i])
    {
      RowReadBack(t[i]);
    }
    LastLineRead(Ident(t[|t| - 1].name));
    CollectFile(t, VariantOf, Declared);
    CollectFile(t, DocKindOf, Implemented);
    CollectFile(t, LastOf, Nothing);
    FlattenNothing<TableEntry, string>(t);
  }

  /** A framing line is no variant, no doc comment and no `LAST`. */
  lemma FramingLineUnread(line: string)
    requires Framing(line)
    ensures VariantOf(line).None? && DocKindOf(line).None? && LastOf(line).None?
  {
    PrefixAt(line, INDENT, 0);
    PrefixAt(line, INDENT, 4);
    PrefixAt(line, DOC_SEE, 0);
    PrefixAt(line, DOC_SEE, 4);
    PrefixAt(line, DOC_NOTE, 0);
    PrefixAt(line, DOC_NOTE, 4);
    PrefixAt(line, "    LAST: ", 0);
    PrefixAt(line, "    LAST: ", 4);
  }

  /** The `LAST` line names its identifier and is nothing else. */
  lemma LastLineRead(id: string)
    ensures VariantOf("    LAST: " + id + ";").None? && DocKindOf("    LAST: " + id + ";").None?
    ensures LastOf("    LAST: " + id + ";") == Some(id)
  {
    var line := "    LAST: " + id + ";";
    assert line == "    LAST: " + (id + ";");
    StartsWithConcat("    LAST: ", id + ";");
    assert line[4] == 'L' && line[|line| - 1] == ';';
    assert line[10..|line| - 1] == id;
    PrefixAt(line, INDENT, 4);
    PrefixAt(line, DOC_SEE, 4);
    PrefixAt(line, DOC_NOTE, 4);
  }

  /** The two lines of one row: the doc comment says whether it has an entry point, the variant gives its identifier and id. */
  lemma RowReadBack(e: TableEntry)
    requires EmittableRow(e)
    ensures Collect(RowLines(e), VariantOf) == Declared(e)
    ensures Collect(RowLines(e), DocKindOf) == Implemented(e)
    ensures Collect(RowLines(e), LastOf) == []
  {
    DocLineRead(e);
    VariantLineRead(e);
    CollectTwo(DocLine(e), VariantLine(e), VariantOf);
    CollectTwo(DocLine(e), VariantLine(e), DocKindOf);
    CollectTwo(DocLine(e), VariantLine(e), LastOf);
  }

  lemma DocLineRead(e: TableEntry)
    ensures VariantOf(DocLine(e)).None? && DocKindOf(DocLine(e)) == Some(e.entryPoint.Some?) && LastOf(DocLine(e)).None?
  {
    if e.entryPoint.Some? {
      SeeLineRead(e);
    } else {
      NoteLineRead(e);
    }
  }

  lemma SeeLineRead(e: TableEntry)
    requires e.entryPoint.Some?
    ensures VariantOf(DocLine(e)).None? && DocKindOf(DocLine(e)) == Some(true) && LastOf(DocLine(e)).None?
  {
    var line := DocLine(e);
    StartsWithConcat(DOC_SEE, SeeTail(Ident(e.name)));
    PrefixAt(line, DOC_SEE, 8);
    PrefixAt(line, "    LAST: ", 8);
  }

  lemma NoteLineRead(e: TableEntry)
    requires e.entryPoint.None?
    ensures VariantOf(DocLine(e)).None? && DocKindOf(DocLine(e)) == Some(false) && LastOf(DocLine(e)).None?
  {
    var line := DocLine(e);
    StartsWithConcat(DOC_NOTE, NoteTail(Ident(e.name)));
    PrefixAt(line, DOC_NOTE, 8);
    PrefixAt(line, DOC_NOTE, 12);
    PrefixAt(line, DOC_SEE, 12);
    PrefixAt(line, "    LAST: ", 8);
  }

  lemma VariantLineRead(e: TableEntry)
    requires EmittableRow(e)
    ensures VariantOf(VariantLine(e)) == Some((Ident(e.name), e.id))
    ensures DocKindOf(VariantLine(e)).None? && LastOf(VariantLine(e)).None?
  {
    var id := Ident(e.name);
    var d := Decimal(e.id);
    IdentWord(e.name);
    DecimalChars(e.id);
    var rest := id + " = " + d + ",";
    var line := VariantLine(e);
    assert line == INDENT + rest;
    VariantWords(id, d);
    StartsWithConcat(INDENT, rest);
    assert line[8] == id[0];
    ParseU32Decimal(e.id);
    VariantOfWords(line, id, d, e.id);
    IndentedUnread(line);
  }

  /** An indented line that is not a comment is no doc comment and no `LAST`. */
  lemma IndentedUnread(line: string)
    requires StartsWith(line, INDENT) && |line| > 8 && line[8] != '/'
    ensures DocKindOf(line).None? && LastOf(line).None?
  {
    PrefixAt(line, INDENT, 4);
    PrefixAt(line, DOC_SEE, 8);
    PrefixAt(line, DOC_NOTE, 8);
    PrefixAt(line, "    LAST: ", 4);
  }

  /** An indented line whose words are `<id> = <d>,`, with `d` a `u32`, declares `id`. */
  lemma VariantOfWords(line: string, id: string, d: string, n: nat)
    requires StartsWith(line, INDENT) && |line| > 8 && line[8] != '/'
    requires Tokens(line) == [id, "=", d + ","] && ParseU32(d) == Some(n)
    ensures VariantOf(line) == Some((id, n))
  {
    assert (d + ",")[..|d + ","| - 1] == d;
  }

  /** The words of a variant line. */
  lemma VariantWords(id: string, d: string)
    requires |id| > 0 && NoSpace(id) && |d| > 0 && NoSpace(d)
    ensures Tokens(INDENT + id + " = " + d + ",") == [id, "=", d + ","]
  {
    var num := d + ",";
    assert NoSpace(num) by {
      assert forall i :: 0 <= i < |d| ==> num[i] == d[i];
    }
    var tail := " " + ("=" + (" " + num));
    assert INDENT + id + " = " + d + "," == INDENT + (id + tail);
    TokensAfterSpaces(INDENT, id + tail);
    TokensCons(id, tail);
    TokensAfterSpaces(" ", "=" + (" " + num));
    TokensCons("=", " " + num);
    TokensAfterSpaces(" ", num);
    TokensOfWord(num);
  }
}
