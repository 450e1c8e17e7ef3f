/**
 * `Errno`, the error code of a failed syscall (src/errno/mod.rs and the
 * `errno_enum!` macro of src/errno/macros.rs).
 *
 * The generated list of error constants is a parameter: a sequence of
 * `NAME(code) = "description"` items in the order the generator emits them.
 * `usize` is `width` bits wide, 32 or 64.
 */
module Errnos {
  import opened Wrappers
  import opened MachineInts
  import opened NumberFormat

  /** The newtype over `i32`; equality, ordering and hashing are by `code`. */
  datatype Errno = Errno(code: I32)

  /** One item of the generated list: the constant `name` with `code`, documented by `doc`. */
  datatype ErrnoItem = ErrnoItem(name: string, code: I32, doc: string)

  type ErrnoTable = seq<ErrnoItem>

  /** The generator leaves aliases out, so no two items share a code. */
  predicate DistinctCodes(tbl: ErrnoTable)
  {
    forall i, j :: 0 <= i < j < |tbl| ==> tbl[i].code != tbl[j].code
  }

  /** The constant that item `i` of the list declares. */
  function Constant(tbl: ErrnoTable, i: nat): (e: Errno)
    requires i < |tbl|
    ensures e.code == tbl[i].code
  {
    Errno(tbl[i].code)
  }

  // The constants of the asm-generic list that the code refers to.
  const ENOENT: Errno := Errno(2)
  const EAGAIN: Errno := Errno(11)
  const EDEADLK: Errno := Errno(35)
  /** Aliases: the same value under a second name. */
  const EWOULDBLOCK: Errno := EAGAIN
  const EDEADLOCK: Errno := EDEADLK

  lemma AliasesShareCodes()
    ensures EWOULDBLOCK == EAGAIN && EWOULDBLOCK.code == 11
    ensures EDEADLOCK == EDEADLK && EDEADLOCK.code == 35
  {
  }

  /** `Errno::new`. */
  function New(num: I32): (e: Errno)
    ensures IntoRaw(e) == num
  {
    Errno(num)
  }

  /** `Errno::into_raw`. */
  function IntoRaw(e: Errno): I32
  {
    e.code
  }

  lemma NewIntoRaw(e: Errno)
    ensures New(IntoRaw(e)) == e
  {
  }

  /** `Errno::is_valid`: every code below 4096, negative codes included. */
  predicate IsValid(e: Errno)
  {
    e.code < 4096
  }

  /** Some item of the list carries `code`. */
  predicate Known(tbl: ErrnoTable, code: int)
  {
    exists i :: 0 <= i < |tbl| && tbl[i].code == code
  }

  /** The match arms of `name_and_description`, from arm `k` on: the first arm for `code` wins. */
  function Lookup(tbl: ErrnoTable, code: I32, k: nat): (r: Option<(string, string)>)
    requires k <= |tbl|
    ensures r.Some? <==> exists i :: k <= i < |tbl| && tbl[i].code == code
    ensures r.Some? ==> exists i :: k <= i < |tbl| && tbl[i].code == code && r.value == (tbl[i].name, tbl[i].doc)
                                   && forall j :: k <= j < i ==> tbl[j].code != code
    decreases |tbl| - k
  {
    if k == |tbl| then None
    else if tbl[k].code == code then Some((tbl[k].name, tbl[k].doc))
    else Lookup(tbl, code, k + 1)
  }

  /** `name_and_description`: the item's name and doc string, or `None` for a code off the list. */
  function NameAndDescription(tbl: ErrnoTable, e: Errno): (r: Option<(string, string)>)
    ensures r.Some? <==> Known(tbl, e.code)
    ensures r.Some? ==> exists i :: 0 <= i < |tbl| && tbl[i].code == e.code && r.value == (tbl[i].name, tbl[i].doc)
  {
    Lookup(tbl, e.code, 0)
  }

  /** Each constant names and describes itself. */
  lemma ConstantNamesItself(tbl: ErrnoTable, i: nat)
    requires DistinctCodes(tbl) && i < |tbl|
    ensures NameAndDescription(tbl, Constant(tbl, i)) == Some((tbl[i].name, tbl[i].doc))
  {
  }

  /** `Errno::name`. */
  function Name(tbl: ErrnoTable, e: Errno): (r: Option<string>)
    ensures r.Some? <==> Known(tbl, e.code)
    ensures r.Some? ==> exists i :: 0 <= i < |tbl| && tbl[i].code == e.code && r.value == tbl[i].name
  {
    match NameAndDescription(tbl, e)
    case Some(pair) => Some(pair.0)
    case None => None
  }

  /** `Errno::description`: present exactly when the name is. */
  function Description(tbl: ErrnoTable, e: Errno): (r: Option<string>)
    ensures r.Some? <==> Name(tbl, e).Some?
    ensures r.Some? ==> exists i :: 0 <= i < |tbl| && tbl[i].code == e.code && r.value == tbl[i].doc
  {
    match NameAndDescription(tbl, e)
    case Some(pair) => Some(pair.1)
    case None => None
  }

  /** Largest value of a `width`-bit `usize`, plus one. */
  function UsizeLimit(width: nat): nat
    requires width == 32 || width == 64
  {
    if width == 32 then 0x1_0000_0000 else 0x1_0000_0000_0000_0000
  }

  /** A `width`-bit `usize` read as `isize`. */
  function Signed(width: nat, v: nat): int
    requires width == 32 || width == 64
  {
    if width == 32 then (if v <= 0x7fff_ffff then v else v - 0x1_0000_0000)
    else (if v <= 0x7fff_ffff_ffff_ffff then v else v - 0x1_0000_0000_0000_0000)
  }

  /** The low 32 bits of a value just below the top of a `usize`. */
  lemma LowHalfOfTop(width: nat, v: int, d: int)
    requires width == 32 || width == 64
    requires 1 <= d <= 4095 && v == UsizeLimit(width) - d
    ensures v % 0x1_0000_0000 == 0x1_0000_0000 - d
  {
    if width == 64 {
      assert v == 0xffff_ffff * 0x1_0000_0000 + (0x1_0000_0000 - d);
    }
  }

  /**
   * `Errno::from_ret`: a raw return value above `-4096isize as usize` is an
   * error whose code is the negated value, cast to `i32`; every other value
   * is returned unchanged.
   */
  function FromRet(width: nat, value: nat): (r: Result<nat, Errno>)
    requires width == 32 || width == 64
    requires value < UsizeLimit(width)
    ensures r.Err? <==> -4095 <= Signed(width, value) <= -1
    ensures r.Err? ==> r.error.code == -Signed(width, value) && 1 <= r.error.code <= 4095
    ensures r.Ok? ==> r.value == value
  {
    if value > UsizeLimit(width) - 4096 then
      var d := UsizeLimit(width) - value;
      LowHalfOfTop(width, value, d);
      Err(Errno(-AsI32(value)))
    else
      Ok(value)
  }

  /** Every error `from_ret` reports is a valid, positive code. */
  lemma FromRetErrorsValid(width: nat, value: nat)
    requires width == 32 || width == 64
    requires value < UsizeLimit(width)
    ensures FromRet(width, value).Err? ==> IsValid(FromRet(width, value).error) && FromRet(width, value).error.code > 0
  {
  }

  lemma FromRetExamples()
    ensures FromRet(64, 0x1_0000_0000_0000_0000 - 2) == Err(ENOENT)
    ensures FromRet(64, 2) == Ok(2)
    ensures FromRet(32, 0x1_0000_0000 - 11) == Err(EAGAIN)
  {
  }

  // `ErrnoSentinel::sentinel()` of each implementing type.
  const ISIZE_SENTINEL: int := -1
  const I32_SENTINEL: int := -1
  const I64_SENTINEL: int := -1
  const USIZE_SENTINEL: nat := 0xffff_ffff_ffff_ffff
  /** `-1isize as *mut c_void`: the address `-1` as a 64-bit pointer. */
  const POINTER_SENTINEL: nat := 0x1_0000_0000_0000_0000 + ISIZE_SENTINEL

  /** A raw pointer's sentinel is the all-ones address, the same bits as `usize::MAX`. */
  lemma PointerSentinelIsAllOnes()
    ensures POINTER_SENTINEL == USIZE_SENTINEL == AsU64(ISIZE_SENTINEL)
  {
  }

  /**
   * `Errno::result`: the type's sentinel means failure, reported as the
   * thread's last error `last` (read from the C runtime, so an input here).
   */
  function ResultOf<T(==)>(value: T, sentinel: T, last: Errno): (r: Result<T, Errno>)
    ensures r.Err? <==> value == sentinel
    ensures r.Err? ==> r.error == last
    ensures r.Ok? ==> r.value == value
  {
    if value == sentinel then Err(last) else Ok(value)
  }

  /** `Errno::result` for the signed integer types. */
  lemma ResultOfSigned(value: int, last: Errno)
    ensures ResultOf(value, I32_SENTINEL, last).Err? <==> value == -1
    ensures ResultOf(value, I64_SENTINEL, last) == ResultOf(value, ISIZE_SENTINEL, last)
    ensures value >= 0 ==> ResultOf(value, ISIZE_SENTINEL, last) == Ok(value)
  {
  }

  /**
   * `impl Display for Errno` as written: both branches that print the
   * number compute `-self.0` in `i32`, which overflows for `i32::MIN`
   * (`None` here: a panic in a debug build).
   */
  function DisplayAsWritten(tbl: ErrnoTable, e: Errno): (r: Option<string>)
    ensures r.None? <==> e.code == I32_MIN
  {
    if e.code == I32_MIN then None
    else
      match NameAndDescription(tbl, e)
      case Some(pair) => Some(Decimal(-(e.code as int)) + " " + pair.0 + " (" + pair.1 + ")")
      case None =>
        if IsValid(e) then Some(Decimal(-(e.code as int)))
        else Some("Invalid errno " + AlternateHex(e.code))
  }

  /** `Errno(i32::MIN)` is valid, so `Display` negates it, and its negation is no `i32`. */
  lemma DisplayOverflowsAtMin(tbl: ErrnoTable)
    ensures IsValid(Errno(I32_MIN)) && !(I32_MIN <= -I32_MIN <= I32_MAX)
    ensures DisplayAsWritten(tbl, Errno(I32_MIN)).None?
  {
  }

  /**
   * `impl Display for Errno` with the negation done without overflow:
   * `-N NAME (description)` for a listed code, `-N` for another valid code,
   * `Invalid errno 0x…` for the rest.
   */
  function Display(tbl: ErrnoTable, e: Errno): (s: string)
    ensures e.code != I32_MIN ==> DisplayAsWritten(tbl, e) == Some(s)
  {
    match NameAndDescription(tbl, e)
    case Some(pair) => Decimal(-(e.code as int)) + " " + pair.0 + " (" + pair.1 + ")"
    case None =>
      if IsValid(e) then Decimal(-(e.code as int))
      else "Invalid errno " + AlternateHex(e.code)
  }

  /** The text of a listed code: its negation, name and description. */
  lemma DisplayListed(tbl: ErrnoTable, e: Errno, name: string, desc: string)
    requires NameAndDescription(tbl, e) == Some((name, desc))
    ensures Display(tbl, e) == Decimal(-(e.code as int)) + " " + name + " (" + desc + ")"
    ensures ParseDecimal(FirstWord(Display(tbl, e))) == Some(-(e.code as int))
  {
    var d := Decimal(-(e.code as int));
    JoinTail(d, " ", name, " (", desc, ")");
    LeadingNumber(-(e.code as int), " " + name + " (" + desc + ")");
  }

  lemma JoinTail(a: string, b: string, c: string, d: string, e: string, f: string)
    ensures a + b + c + d + e + f == a + (b + c + d + e + f)
  {
  }

  /** The text of a valid code off the list: just its negation. */
  lemma DisplayUnlistedValid(tbl: ErrnoTable, e: Errno)
    requires !Known(tbl, e.code) && IsValid(e)
    ensures ParseDecimal(FirstWord(Display(tbl, e))) == Some(-(e.code as int))
  {
    assert Display(tbl, e) == Decimal(-(e.code as int)) + [];
    LeadingNumber(-(e.code as int), []);
  }

  /** The text of an invalid code off the list: the code in hex. */
  lemma DisplayInvalid(tbl: ErrnoTable, e: Errno)
    requires !Known(tbl, e.code) && !IsValid(e)
    ensures |Display(tbl, e)| > 14 && Display(tbl, e)[..14] == "Invalid errno "
    ensures ParseAlternateHex(Display(tbl, e)[14..]) == Some(e.code as int)
  {
    var s := Display(tbl, e);
    assert s == "Invalid errno " + AlternateHex(e.code);
    assert s[14..] == AlternateHex(e.code);
    AlternateHexRoundTrip(e.code);
  }

  /**
   * The code can be read back from the text: it is the first word of the
   * text of a listed or valid code, and the hex tail of the text of any
   * other code.
   */
  lemma DisplayShowsCode(tbl: ErrnoTable, e: Errno)
    ensures Known(tbl, e.code) || IsValid(e) ==>
      ParseDecimal(FirstWord(Display(tbl, e))) == Some(-(e.code as int))
    ensures !Known(tbl, e.code) && !IsValid(e) ==>
      |Display(tbl, e)| > 14 && Display(tbl, e)[..14] == "Invalid errno "
      && ParseAlternateHex(Display(tbl, e)[14..]) == Some(e.code as int)
  {
    match NameAndDescription(tbl, e)
    case Some(pair) => DisplayListed(tbl, e, pair.0, pair.1);
    case None =>
      if IsValid(e) {
        DisplayUnlistedValid(tbl, e);
      } else {
        DisplayInvalid(tbl, e);
      }
  }

  /** `ENOENT` with its asm-generic description prints as `-2 ENOENT (No such file or directory)`. */
  lemma DisplayExample()
    ensures Display([ErrnoItem("ENOENT", 2, "No such file or directory")], ENOENT)
         == "-2" + " " + "ENOENT" + " (" + "No such file or directory" + ")"
  {
    var tbl := [ErrnoItem("ENOENT", 2, "No such file or directory")];
    assert NameAndDescription(tbl, ENOENT) == Some(("ENOENT", "No such file or directory")) by {
      assert Lookup(tbl, 2, 0) == Some((tbl[0].name, tbl[0].doc));
    }
    assert Decimal(-2) == "-2" by {
      assert Digits(2, 10) == [DigitChar(2)];
    }
    DisplayListed(tbl, ENOENT, "ENOENT", "No such file or directory");
  }
}
