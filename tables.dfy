/**
 * The syscall table generator (syscalls-gen/src/tables.rs): reading the rows
 * of a `syscall.tbl` file, or the `#define __NR_*` lines of `unistd.h`
 * headers, into sorted `TableEntry` rows, and writing those rows as the
 * body of a `syscall_enum!` invocation.
 */
module SyscallTables {
  import opened Wrappers
  import opened NumberFormat
  import opened Text
  import opened Patterns
  import opened EntryOrder

  /** An ABI column value a table is filtered by, with the number added to its ids. */
  datatype Abi = Abi(name: string, offset: nat)

  const COMMON := Abi("common", 0)
  const I386 := Abi("i386", 0)
  const NOSPU := Abi("nospu", 0)
  const B32 := Abi("32", 0)
  const B64 := Abi("64", 0)
  const O32 := Abi("o32", 4000)
  const N64 := Abi("n64", 5000)

  /** Why reading a table fails (the `bail!`s, the `?`s and the overflowing `+`). */
  datatype GenError =
    | MissingId
    | BadId
    | MissingAbi
    | MissingName
    | Overflow
    | DuplicateArchBase
    | ArchBaseMissing

  /** The index of the first ABI called `name`. */
  function FirstAbi(abis: seq<Abi>, name: string): (r: Option<nat>)
    ensures r.Some? ==> r.value < |abis| && abis[r.value].name == name
    ensures r.Some? ==> forall j :: 0 <= j < r.value ==> abis[j].name != name
    ensures r.None? ==> forall j :: 0 <= j < |abis| ==> abis[j].name != name
  {
    if |abis| == 0 then None
    else if abis[0].name == name then Some(0)
    else match FirstAbi(abis[1..], name)
      case None => None
      case Some(k) => Some(k + 1)
  }

  /**
   * One line of a `syscall.tbl` file: nothing for a blank line, a comment or
   * a row of an ABI not asked for; otherwise the row, its id moved by the
   * offset of the first matching ABI.
   */
  function ParseRow(line: string, abis: seq<Abi>): (r: Result<Option<TableEntry>, GenError>)
    ensures r.Ok? && r.value.Some? ==> r.value.value.id <= 0xffff_ffff
    ensures |Trim(line)| == 0 || Trim(line)[0] == '#' ==> r == Ok(None)
  {
    var l := Trim(line);
    if |l| == 0 || l[0] == '#' then Ok(None) else ParseFields(Tokens(l), abis)
  }

  /** The whitespace-separated fields of a row: id, ABI, name and entry point. */
  function ParseFields(fields: seq<string>, abis: seq<Abi>): (r: Result<Option<TableEntry>, GenError>)
    ensures r.Ok? && r.value.Some? ==> r.value.value.id <= 0xffff_ffff
    ensures |fields| == 0 ==> r == Err(MissingId)
    ensures |fields| > 0 && ParseU32(fields[0]).None? ==> r == Err(BadId)
    ensures |fields| == 1 && ParseU32(fields[0]).Some? ==> r == Err(MissingAbi)
    ensures |fields| == 2 && ParseU32(fields[0]).Some? ==> r == Err(MissingName)
    ensures |fields| >= 3 && ParseU32(fields[0]).Some? && FirstAbi(abis, fields[1]).None? ==> r == Ok(None)
    ensures r.Ok? && r.value.Some? ==>
      && |fields| >= 3 && ParseU32(fields[0]).Some? && FirstAbi(abis, fields[1]).Some?
      && r.value.value.id == ParseU32(fields[0]).value + abis[FirstAbi(abis, fields[1]).value].offset
      && r.value.value.name == fields[2]
      && r.value.value.entryPoint == (if |fields| > 3 then Some(fields[3]) else None)
  {
    if |fields| == 0 then Err(MissingId)
    else match ParseU32(fields[0])
      case None => Err(BadId)
      case Some(id) =>
        if |fields| == 1 then Err(MissingAbi)
        else if |fields| == 2 then Err(MissingName)
        else match FirstAbi(abis, fields[1])
          case None => Ok(None)
          case Some(k) =>
            if id + abis[k].offset > 0xffff_ffff then Err(Overflow)
            else
              var entryPoint := if |fields| > 3 then Some(fields[3]) else None;
              Ok(Some(TableEntry(id + abis[k].offset, fields[2], entryPoint)))
  }

  /** `table` after one more line. */
  function AddRow(table: seq<TableEntry>, line: string, abis: seq<Abi>): Result<seq<TableEntry>, GenError>
  {
    match ParseRow(line, abis)
    case Err(e) => Err(e)
    case Ok(None) => Ok(table)
    case Ok(Some(x)) => Ok(table + [x])
  }

  /** The rows of `lines` in file order, or the first line's error. */
  function Rows(lines: seq<string>, abis: seq<Abi>): Result<seq<TableEntry>, GenError>
  {
    if |lines| == 0 then Ok([])
    else match Rows(lines[..|lines| - 1], abis)
      case Err(e) => Err(e)
      case Ok(table) => AddRow(table, lines[|lines| - 1], abis)
  }

  function SortedTable(rows: Result<seq<TableEntry>, GenError>): Result<seq<TableEntry>, GenError>
  {
    match rows
    case Err(e) => Err(e)
    case Ok(table) => Ok(Sort(table))
  }

  /** `Table::fetch_table` on the file's `contents`. */
  method FetchTable(contents: string, abis: seq<Abi>) returns (r: Result<seq<TableEntry>, GenError>)
    ensures r == SortedTable(Rows(Lines(contents), abis))
    ensures r.Ok? ==> Sorted(r.value)
  {
    var lines := Lines(contents);
    var table: seq<TableEntry> := [];
    var i := 0;
    while i < |lines|
      invariant 0 <= i <= |lines|
      invariant Rows(lines[..i], abis) == Ok(table)
    {
      RowsSnoc(lines, i, abis);
      var row := ParseRow(lines[i], abis);
      assert AddRow(table, lines[i], abis) ==
        match row case Err(e) => Err(e) case Ok(None) => Ok(table) case Ok(Some(x)) => Ok(table + [x]);
      if row.Err? {
        RowsErrFinal(lines, i + 1, abis);
        return Err(row.error);
      }
      if row.value.Some? {
        table := table + [row.value.value];
      }
      i := i + 1;
    }
    assert lines[..|lines|] == lines;
    r := Ok(Sort(table));
  }

  /** One more line of the file, read on top of the rows before it. */
  lemma RowsSnoc(lines: seq<string>, i: nat, abis: seq<Abi>)
    requires i < |lines|
    ensures Rows(lines[..i], abis).Err? ==> Rows(lines[..i + 1], abis) == Rows(lines[..i], abis)
    ensures Rows(lines[..i], abis).Ok? ==> Rows(lines[..i + 1], abis) == AddRow(Rows(lines[..i], abis).value, lines[i], abis)
  {
    assert lines[..i + 1][..i] == lines[..i];
  }

  /** An error in the first `k` lines is the error of the whole file. */
  lemma RowsErrFinal(lines: seq<string>, k: nat, abis: seq<Abi>)
    requires k <= |lines| && Rows(lines[..k], abis).Err?
    ensures Rows(lines, abis) == Rows(lines[..k], abis)
  {
    SplitLines(lines, k);
    RowsConcat(lines[..k], lines[k..], abis);
  }

  lemma SplitLines(xs: seq<string>, k: nat)
    requires k <= |xs|
    ensures xs[..k] + xs[k..] == xs
  {
  }

  /** Reading two pieces of a file one after the other. */
  lemma {:induction false} RowsConcat(xs: seq<string>, ys: seq<string>, abis: seq<Abi>)
    ensures Rows(xs + ys, abis) ==
      match Rows(xs, abis)
      case Err(e) => Err(e)
      case Ok(a) => (match Rows(ys, abis) case Err(e) => Err(e) case Ok(b) => Ok(a + b))
    decreases |ys|
  {
    if |ys| == 0 {
      assert xs + ys == xs;
      if Rows(xs, abis).Ok? {
        assert Rows(xs, abis).value + [] == Rows(xs, abis).value;
      }
    } else {
      var n := |ys| - 1;
      assert (xs + ys)[..|xs + ys| - 1] == xs + ys[..n];
      assert (xs + ys)[|xs + ys| - 1] == ys[n];
      RowsConcat(xs, ys[..n], abis);
      if Rows(xs, abis).Ok? && Rows(ys[..n], abis).Ok? {
        AddRowAfter(Rows(xs, abis).value, Rows(ys[..n], abis).value, ys[n], abis);
      }
    }
  }

  lemma AddRowAfter(a: seq<TableEntry>, b: seq<TableEntry>, line: string, abis: seq<Abi>)
    ensures AddRow(a + b, line, abis) ==
      match AddRow(b, line, abis) case Err(e) => Err(e) case Ok(c) => Ok(a + c)
  {
    match ParseRow(line, abis)
    case Err(e) =>
    case Ok(None) =>
    case Ok(Some(x)) =>
      assert a + b + [x] == a + (b + [x]);
  }

  /** Every row read has an id that fits the `u32` field. */
  lemma {:induction false} RowsIdsFit(lines: seq<string>, abis: seq<Abi>)
    requires Rows(lines, abis).Ok?
    ensures forall i :: 0 <= i < |Rows(lines, abis).value| ==> Rows(lines, abis).value[i].id <= 0xffff_ffff
  {
    if |lines| > 0 {
      RowsIdsFit(lines[..|lines| - 1], abis);
    }
  }

  /** `Unwords` of non-empty, space-free words starts with the first word's first character and ends with the last's last. */
  lemma {:induction false} UnwordsEnds(words: seq<string>, sep: string)
    requires |words| > 0 && forall i :: 0 <= i < |words| ==> |words[i]| > 0
    ensures |Unwords(words, sep)| > 0
    ensures Unwords(words, sep)[0] == words[0][0]
    ensures Unwords(words, sep)[|Unwords(words, sep)| - 1] == words[|words| - 1][|words[|words| - 1]| - 1]
  {
    if |words| > 1 {
      UnwordsEnds(words[1..], sep);
    }
  }

  lemma DecimalWord(i: int)
    ensures |Decimal(i)| > 0 && NoSpace(Decimal(i)) && Decimal(i)[0] != '#'
  {
    DecimalChars(i);
  }

  /**
   * A row written as its fields separated by whitespace reads back as those
   * fields: the id moved by the first matching ABI's offset, the name, and
   * the fourth field, if any, as the entry point; fields after the fourth do
   * not matter, and a row of an ABI not asked for is dropped.
   */
  lemma CanonicalRow(id: nat, abi: string, name: string, extra: seq<string>, sep: string, abis: seq<Abi>)
    requires id <= 0xffff_ffff
    requires |abi| > 0 && NoSpace(abi) && |name| > 0 && NoSpace(name)
    requires forall i :: 0 <= i < |extra| ==> |extra[i]| > 0 && NoSpace(extra[i])
    requires |sep| > 0 && forall i :: 0 <= i < |sep| ==> IsSpace(sep[i])
    ensures FirstAbi(abis, abi).None? ==> ParseRow(Unwords([Decimal(id), abi, name] + extra, sep), abis) == Ok(None)
    ensures FirstAbi(abis, abi).Some? ==>
      var offset := abis[FirstAbi(abis, abi).value].offset;
      ParseRow(Unwords([Decimal(id), abi, name] + extra, sep), abis) ==
        if id + offset > 0xffff_ffff then Err(Overflow)
        else Ok(Some(TableEntry(id + offset, name, if |extra| > 0 then Some(extra[0]) else None)))
  {
    var words := [Decimal(id), abi, name] + extra;
    DecimalWord(id);
    assert forall i :: 0 <= i < |words| ==> |words[i]| > 0 && NoSpace(words[i]) by {
      forall i | 0 <= i < |words| ensures |words[i]| > 0 && NoSpace(words[i]) {
        if i >= 3 {
          assert words[i] == extra[i - 3];
        }
      }
    }
    CanonicalFields(words, sep);
    FieldsOfRow(id, abi, name, extra, abis);
  }

  /** The fields of such a row, already split. */
  lemma FieldsOfRow(id: nat, abi: string, name: string, extra: seq<string>, abis: seq<Abi>)
    requires id <= 0xffff_ffff
    ensures FirstAbi(abis, abi).None? ==> ParseFields([Decimal(id), abi, name] + extra, abis) == Ok(None)
    ensures FirstAbi(abis, abi).Some? ==>
      var offset := abis[FirstAbi(abis, abi).value].offset;
      ParseFields([Decimal(id), abi, name] + extra, abis) ==
        if id + offset > 0xffff_ffff then Err(Overflow)
        else Ok(Some(TableEntry(id + offset, name, if |extra| > 0 then Some(extra[0]) else None)))
  {
    var words := [Decimal(id), abi, name] + extra;
    ParseU32Decimal(id);
    assert words[0] == Decimal(id) && words[1] == abi && words[2] == name;
    assert |words| > 3 ==> words[3] == extra[0];
  }

  /** Space-free words joined by whitespace form a row line whose fields are those words. */
  lemma CanonicalFields(words: seq<string>, sep: string)
    requires |words| >= 3 && forall i :: 0 <= i < |words| ==> |words[i]| > 0 && NoSpace(words[i])
    requires words[0][0] != '#'
    requires |sep| > 0 && forall i :: 0 <= i < |sep| ==> IsSpace(sep[i])
    ensures forall abis :: ParseRow(Unwords(words, sep), abis) == ParseFields(words, abis)
  {
    var line := Unwords(words, sep);
    UnwordsEnds(words, sep);
    TrimNoop(line);
    TokensOfUnwords(words, sep);
  }
}
