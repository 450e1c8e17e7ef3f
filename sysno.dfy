/**
 * The `Sysno` enum that the `syscall_enum!` macro generates from an
 * architecture's syscall table (src/arch/macros.rs).
 *
 * The generated table is a parameter: a sequence of `(id, name)` rows in the
 * order the generator emits them (ascending ids, distinct names, the final
 * row named `LAST`). A `Sysno` value is the discriminant of one variant.
 */
module Syscalls {
  import opened Wrappers

  const I32_MAX: int := 0x7fff_ffff

  /** One variant of the generated enum: `name = id,`. */
  datatype Entry = Entry(id: int, name: string)

  type Table = seq<Entry>

  /**
   * What the generated enum guarantees about its table: at least one
   * variant, non-negative `i32` discriminants in ascending order (hence distinct), and
   * distinct identifiers.
   */
  predicate WellFormed(t: Table)
  {
    && |t| > 0
    && (forall i :: 0 <= i < |t| ==> 0 <= t[i].id <= I32_MAX)
    && (forall i, j :: 0 <= i < j < |t| ==> t[i].id < t[j].id)
    && (forall i, j :: 0 <= i < j < |t| ==> t[i].name != t[j].name)
  }

  /** A syscall number. Equality, ordering and hashing are by `id`. */
  datatype Sysno = Sysno(id: int)

  /** `id` is the number of some variant of `t`. */
  predicate Listed(t: Table, id: int)
  {
    exists i :: 0 <= i < |t| && t[i].id == id
  }

  /** No variant of `t` has a number strictly between `lo` and `hi`. */
  predicate NoneBetween(t: Table, lo: int, hi: int)
  {
    forall i :: 0 <= i < |t| ==> !(lo < t[i].id < hi)
  }

  /** Variant numbers grow with the row index, so rows are told apart by id. */
  lemma IdsOrdered(t: Table, i: nat, j: nat)
    requires WellFormed(t) && i < |t| && j < |t|
    ensures i < j <==> t[i].id < t[j].id
    ensures i == j <==> t[i].id == t[j].id
  {
  }

  /** Linear scan for the row numbered `id`, from row `k` on. */
  function FindId(t: Table, id: int, k: nat): (r: Option<nat>)
    requires k <= |t|
    ensures r.Some? ==> k <= r.value < |t| && t[r.value].id == id
    ensures r.None? ==> forall i :: k <= i < |t| ==> t[i].id != id
    decreases |t| - k
  {
    if k == |t| then None
    else if t[k].id == id then Some(k)
    else FindId(t, id, k + 1)
  }

  /** The row of a listed number. */
  function IndexOf(t: Table, id: int): (k: nat)
    requires Listed(t, id)
    ensures k < |t| && t[k].id == id
  {
    FindId(t, id, 0).value
  }

  /** `Sysno::new`: the variant numbered `id`, or `None` for a hole. */
  function New(t: Table, id: nat): (r: Option<Sysno>)
    ensures r == if Listed(t, id) then Some(Sysno(id)) else None
  {
    match FindId(t, id, 0)
    case Some(_) => Some(Sysno(id))
    case None => None
  }

  /** `Sysno::id`: the discriminant as an `i32`. */
  function Id(s: Sysno): (r: int)
    ensures Sysno(r) == s
  {
    s.id
  }

  /** `Sysno::name`: the identifier of the variant. */
  function Name(t: Table, s: Sysno): (r: string)
    requires Listed(t, s.id)
    ensures Entry(s.id, r) in t
  {
    t[IndexOf(t, s.id)].name
  }

  /** Scan for the row named `name`, from row `k` on. */
  function FindName(t: Table, name: string, k: nat): (r: Option<nat>)
    requires k <= |t|
    ensures r.Some? ==> k <= r.value < |t| && t[r.value].name == name
    ensures r.None? ==> forall i :: k <= i < |t| ==> t[i].name != name
    decreases |t| - k
  {
    if k == |t| then None
    else if t[k].name == name then Some(k)
    else FindName(t, name, k + 1)
  }

  /** `FromStr for Sysno`: the variant with this identifier, or `Err(())`. */
  function FromStr(t: Table, name: string): (r: Result<Sysno, ()>)
    ensures r.Ok? ==> Entry(r.value.id, name) in t
    ensures r.Err? ==> forall i :: 0 <= i < |t| ==> t[i].name != name
  {
    match FindName(t, name, 0)
    case Some(k) => Ok(Sysno(t[k].id))
    case None => Err(())
  }

  /** Parsing the name of a syscall gives that syscall back. */
  lemma FromStrName(t: Table, s: Sysno)
    requires WellFormed(t) && Listed(t, s.id)
    ensures FromStr(t, Name(t, s)) == Ok(s)
  {
    var k := IndexOf(t, s.id);
    var m := FindName(t, t[k].name, 0).value;
    IdsOrdered(t, k, m);
  }

  /** Any name that parses is the name of the syscall it parses to. */
  lemma NameFromStr(t: Table, name: string)
    requires WellFormed(t) && FromStr(t, name).Ok?
    ensures Listed(t, FromStr(t, name).value.id)
    ensures Name(t, FromStr(t, name).value) == name
  {
    var k := FindName(t, name, 0).value;
    var m := IndexOf(t, t[k].id);
    IdsOrdered(t, k, m);
  }

  /** `Sysno::ALL`: every variant, in table order. */
  function All(t: Table): (r: seq<Sysno>)
    ensures |r| == |t|
    ensures forall i :: 0 <= i < |t| ==> r[i] == Sysno(t[i].id)
  {
    seq(|t|, i requires 0 <= i < |t| => Sysno(t[i].id))
  }

  /** The numbers of all syscalls. */
  function ListedIds(t: Table): (r: set<int>)
    ensures forall i :: 0 <= i < |t| ==> t[i].id in r
    ensures forall x :: x in r ==> Listed(t, x)
    decreases |t|
  {
    if |t| == 0 then {}
    else
      var u := t[..|t| - 1];
      var r := ListedIds(u) + {t[|t| - 1].id};
      assert forall x :: x in ListedIds(u) ==> Listed(t, x) by {
        forall x | x in ListedIds(u)
          ensures Listed(t, x)
        {
          var i :| 0 <= i < |u| && u[i].id == x;
          assert t[i].id == x;
        }
      }
      r
  }

  lemma ListedInIds(t: Table, x: int)
    requires Listed(t, x)
    ensures x in ListedIds(t)
  {
  }

  /** Distinct rows have distinct numbers, so there are `count()` of them. */
  lemma {:induction false} ListedIdsCount(t: Table)
    requires WellFormed(t)
    ensures |ListedIds(t)| == |t|
    decreases |t|
  {
    var u := t[..|t| - 1];
    if |t| > 1 {
      assert WellFormed(u);
      ListedIdsCount(u);
      var last := t[|t| - 1].id;
      forall i | 0 <= i < |u|
        ensures u[i].id != last
      {
        IdsOrdered(t, i, |t| - 1);
      }
      assert !Listed(u, last);
    } else {
      assert ListedIds(u) == {};
    }
  }

  /** `Sysno::first`. */
  function First(t: Table): (r: Sysno)
    requires |t| > 0
    ensures Listed(t, r.id)
  {
    Sysno(t[0].id)
  }

  /** `Sysno::last`: the variant the table names `LAST`, its final row. */
  function Last(t: Table): (r: Sysno)
    requires |t| > 0
    ensures Listed(t, r.id)
  {
    Sysno(t[|t| - 1].id)
  }

  /** Every syscall lies between `first()` and `last()`. */
  lemma FirstLastBound(t: Table, s: Sysno)
    requires WellFormed(t) && Listed(t, s.id)
    ensures First(t).id <= s.id <= Last(t).id
  {
    var k := IndexOf(t, s.id);
    if k > 0 {
      IdsOrdered(t, 0, k);
    }
    if k < |t| - 1 {
      IdsOrdered(t, k, |t| - 1);
    }
  }

  /** `Sysno::count`: the number of variants. */
  function Count(t: Table): (r: nat)
    ensures r == |All(t)|
  {
    |t|
  }

  /** `Sysno::table_size`: the span of numbers from first to last, holes included. */
  function TableSize(t: Table): (r: nat)
    requires WellFormed(t)
    ensures forall i :: 0 <= i < |t| ==> 0 <= t[i].id - First(t).id < r
    ensures t[|t| - 1].id - First(t).id == r - 1
  {
    (Last(t).id - First(t).id) + 1
  }

  /** Ascending distinct numbers are at least one apart per row. */
  lemma {:induction false} IdSpread(t: Table, i: nat, j: nat)
    requires WellFormed(t) && i <= j < |t|
    ensures t[j].id - t[i].id >= j - i
    decreases j - i
  {
    if i < j {
      IdSpread(t, i, j - 1);
    }
  }

  /** There are never more syscalls than table slots. */
  lemma CountWithinTableSize(t: Table)
    requires WellFormed(t)
    ensures Count(t) <= TableSize(t)
  {
    IdSpread(t, 0, |t| - 1);
  }

  /**
   * The syscall after `s` in the table, as the documentation of
   * `Sysno::next` describes it: `None` exactly for the last one.
   */
  function Successor(t: Table, s: Sysno): (r: Option<Sysno>)
    requires WellFormed(t) && Listed(t, s.id)
    ensures r.None? <==> s == Last(t)
    ensures r.Some? ==> Listed(t, r.value.id) && s.id < r.value.id
    ensures r.Some? ==> NoneBetween(t, s.id, r.value.id)
  {
    var k := IndexOf(t, s.id);
    if k == |t| - 1 then None
    else
      assert forall i :: 0 <= i < |t| ==> !(s.id < t[i].id < t[k + 1].id) by {
        forall i | 0 <= i < |t|
          ensures !(s.id < t[i].id < t[k + 1].id)
        {
          IdsOrdered(t, i, k);
          IdsOrdered(t, i, k + 1);
        }
      }
      Some(Sysno(t[k + 1].id))
  }

  /** The successor is the one listed syscall above `s` with nothing listed in between. */
  lemma SuccessorUnique(t: Table, s: Sysno, n: Sysno)
    requires WellFormed(t) && Listed(t, s.id) && Listed(t, n.id)
    requires s.id < n.id && NoneBetween(t, s.id, n.id)
    ensures Successor(t, s) == Some(n)
  {
    var k := IndexOf(t, s.id);
    var m := IndexOf(t, n.id);
    IdsOrdered(t, k, m);
  }

  /**
   * What `Sysno::next` returns as written: its scan stops before
   * `last().id`, so the successor is dropped when it is the last syscall.
   */
  function NextAsWritten(t: Table, s: Sysno): (r: Option<Sysno>)
    requires WellFormed(t) && Listed(t, s.id)
  {
    match Successor(t, s)
    case Some(n) => if n == Last(t) then None else Some(n)
    case None => None
  }

  /** `Sysno::next` as written: scans upward while `next_id < last().id`. */
  method Next(t: Table, s: Sysno) returns (r: Option<Sysno>)
    requires WellFormed(t) && Listed(t, s.id)
    ensures r == NextAsWritten(t, s)
  {
    if s == Last(t) {
      return None;
    }
    FirstLastBound(t, s);
    var nextId := s.id + 1;
    while nextId < Last(t).id
      invariant s.id < nextId <= Last(t).id
      invariant NoneBetween(t, s.id, nextId)
      decreases Last(t).id - nextId
    {
      var candidate := New(t, nextId);
      if candidate.Some? {
        SuccessorUnique(t, s, candidate.value);
        return candidate;
      }
      nextId := nextId + 1;
    }
    SuccessorUnique(t, s, Last(t));
    return None;
  }

  /** `Sysno::next` with the scan bound the documentation calls for (`<=`). */
  method NextFixed(t: Table, s: Sysno) returns (r: Option<Sysno>)
    requires WellFormed(t) && Listed(t, s.id)
    ensures r == Successor(t, s)
  {
    if s == Last(t) {
      return None;
    }
    FirstLastBound(t, s);
    var nextId := s.id + 1;
    while nextId <= Last(t).id
      invariant s.id < nextId <= Last(t).id + 1
      invariant NoneBetween(t, s.id, nextId)
      decreases Last(t).id - nextId
    {
      var candidate := New(t, nextId);
      if candidate.Some? {
        SuccessorUnique(t, s, candidate.value);
        return candidate;
      }
      nextId := nextId + 1;
    }
    assert false;
  }

  /** As written, `next` never yields `last()`, and fails on the row before it. */
  lemma NextAsWrittenSkipsLast(t: Table, s: Sysno)
    requires WellFormed(t) && Listed(t, s.id) && |t| >= 2
    ensures NextAsWritten(t, s) != Some(Last(t))
    ensures s == Sysno(t[|t| - 2].id) ==> NextAsWritten(t, s) == None && s != Last(t)
  {
    if s == Sysno(t[|t| - 2].id) {
      IdsOrdered(t, |t| - 2, |t| - 1);
      SuccessorUnique(t, s, Last(t));
    }
  }

  /** `Sysno::iter` as written: `successors(Some(first()), next)`, from `s` on. */
  function IterFrom(t: Table, s: Sysno): (r: seq<Sysno>)
    requires WellFormed(t) && Listed(t, s.id)
    decreases Last(t).id - s.id
  {
    FirstLastBound(t, s);
    match NextAsWritten(t, s)
    case None => [s]
    case Some(n) => [s] + IterFrom(t, n)
  }

  function Iter(t: Table): (r: seq<Sysno>)
    requires WellFormed(t)
  {
    IterFrom(t, First(t))
  }

  /** `Sysno::iter` over the corrected `next`. */
  function IterFixedFrom(t: Table, s: Sysno): (r: seq<Sysno>)
    requires WellFormed(t) && Listed(t, s.id)
    decreases Last(t).id - s.id
  {
    FirstLastBound(t, s);
    match Successor(t, s)
    case None => [s]
    case Some(n) => [s] + IterFixedFrom(t, n)
  }

  function IterFixed(t: Table): (r: seq<Sysno>)
    requires WellFormed(t)
  {
    IterFixedFrom(t, First(t))
  }

  /** The successor of row `k` is row `k + 1`. */
  lemma SuccessorOfRow(t: Table, k: nat)
    requires WellFormed(t) && k < |t|
    ensures k < |t| - 1 ==> Successor(t, Sysno(t[k].id)) == Some(Sysno(t[k + 1].id))
    ensures k == |t| - 1 ==> Successor(t, Sysno(t[k].id)) == None
  {
    IdsOrdered(t, IndexOf(t, t[k].id), k);
    if k < |t| - 1 {
      IdsOrdered(t, IndexOf(t, t[k].id), k + 1);
    }
  }

  /** A slice of `ALL` is its first syscall followed by the rest. */
  lemma AllSlice(t: Table, k: nat, n: nat)
    requires k < n <= |t|
    ensures All(t)[k..n] == [Sysno(t[k].id)] + All(t)[k + 1..n]
  {
  }

  lemma {:induction false} IterFixedFromRow(t: Table, k: nat)
    requires WellFormed(t) && k < |t|
    ensures IterFixedFrom(t, Sysno(t[k].id)) == All(t)[k..|t|]
    decreases |t| - k
  {
    SuccessorOfRow(t, k);
    AllSlice(t, k, |t|);
    if k < |t| - 1 {
      IterFixedFromRow(t, k + 1);
      assert IterFixedFrom(t, Sysno(t[k].id)) == [Sysno(t[k].id)] + IterFixedFrom(t, Sysno(t[k + 1].id));
    } else {
      assert IterFixedFrom(t, Sysno(t[k].id)) == [Sysno(t[k].id)];
      assert All(t)[k + 1..|t|] == [];
    }
  }

  /** With the corrected bound, iteration yields every syscall once, in table order. */
  lemma IterFixedIsAll(t: Table)
    requires WellFormed(t)
    ensures IterFixed(t) == All(t)
  {
    IterFixedFromRow(t, 0);
    assert All(t)[0..|t|] == All(t);
  }

  lemma {:induction false} IterFromRow(t: Table, k: nat)
    requires WellFormed(t) && k < |t| - 1
    ensures IterFrom(t, Sysno(t[k].id)) == All(t)[k..|t| - 1]
    decreases |t| - k
  {
    var s := Sysno(t[k].id);
    SuccessorOfRow(t, k);
    AllSlice(t, k, |t| - 1);
    if k < |t| - 2 {
      IdsOrdered(t, k + 1, |t| - 1);
      assert NextAsWritten(t, s) == Some(Sysno(t[k + 1].id));
      IterFromRow(t, k + 1);
      assert IterFrom(t, s) == [s] + IterFrom(t, Sysno(t[k + 1].id));
    } else {
      assert NextAsWritten(t, s) == None;
      assert IterFrom(t, s) == [s];
      assert All(t)[k + 1..|t| - 1] == [];
    }
  }

  /** As written, iteration over a table of two or more rows stops before `last()`. */
  lemma IterMissesLast(t: Table)
    requires WellFormed(t) && |t| >= 2
    ensures Iter(t) == All(t)[..|t| - 1]
    ensures Last(t) !in Iter(t)
  {
    IterFromRow(t, 0);
    forall i | 0 <= i < |t| - 1
      ensures Iter(t)[i] != Last(t)
    {
      IdsOrdered(t, i, |t| - 1);
    }
  }

  /** `u32 as usize` and `i32 as usize` on a 64-bit target. */
  function U32AsUsize(id: nat): (r: nat)
    requires id <= 0xffff_ffff
    ensures r == id
  {
    id
  }

  function I32AsUsize(id: int): (r: nat)
    requires -0x8000_0000 <= id <= I32_MAX
    ensures id >= 0 ==> r == id
    ensures id < 0 ==> r > I32_MAX
  {
    if id >= 0 then id else 0x1_0000_0000_0000_0000 + id
  }

  /** `From<u32> for Sysno`: panics exactly when `new` gives `None`. */
  function FromU32(t: Table, id: nat): (r: Sysno)
    requires id <= 0xffff_ffff && New(t, U32AsUsize(id)).Some?
    ensures r.id == id && Listed(t, r.id)
  {
    New(t, U32AsUsize(id)).value
  }

  /** `From<i32> for Sysno`: panics exactly when `new` gives `None`. */
  function FromI32(t: Table, id: int): (r: Sysno)
    requires WellFormed(t)
    requires -0x8000_0000 <= id <= I32_MAX && New(t, I32AsUsize(id)).Some?
    ensures r.id == id && Listed(t, r.id)
  {
    New(t, I32AsUsize(id)).value
  }

  /** A negative `i32` never names a syscall, so `From<i32>` panics on it. */
  lemma NegativeNeverListed(t: Table, id: int)
    requires WellFormed(t) && -0x8000_0000 <= id < 0
    ensures New(t, I32AsUsize(id)) == None
  {
  }
}
