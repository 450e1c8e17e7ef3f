/**
 * The order `#[derive(Ord)]` gives a generated table row
 * (syscalls-gen/src/tables.rs:30-35): by `id`, then `name`, then
 * `entry_point`, strings compared character by character and `None` before
 * any `Some`. `slice::sort` puts rows in this order.
 */
module EntryOrder {
  import opened Wrappers

  /** One row of a generated syscall table. */
  datatype TableEntry = TableEntry(id: nat, name: string, entryPoint: Option<string>)

  /** Lexicographic order on strings, a prefix first. */
  predicate StrLe(a: string, b: string)
    decreases |a|
  {
    |a| == 0 || (|b| > 0 && (a[0] < b[0] || (a[0] == b[0] && StrLe(a[1..], b[1..]))))
  }

  lemma {:induction false} StrLeReflexive(a: string)
    ensures StrLe(a, a)
    decreases |a|
  {
    if |a| > 0 {
      StrLeReflexive(a[1..]);
    }
  }

  lemma {:induction false} StrLeTotal(a: string, b: string)
    ensures StrLe(a, b) || StrLe(b, a)
    decreases |a|
  {
    if |a| > 0 && |b| > 0 && a[0] == b[0] {
      StrLeTotal(a[1..], b[1..]);
    }
  }

  lemma {:induction false} StrLeAntisymmetric(a: string, b: string)
    requires StrLe(a, b) && StrLe(b, a)
    ensures a == b
    decreases |a|
  {
    if |a| > 0 {
      StrLeAntisymmetric(a[1..], b[1..]);
      assert a == [a[0]] + a[1..] && b == [b[0]] + b[1..];
    }
  }

  lemma {:induction false} StrLeTransitive(a: string, b: string, c: string)
    requires StrLe(a, b) && StrLe(b, c)
    ensures StrLe(a, c)
    decreases |a|
  {
    if |a| > 0 && a[0] == b[0] && b[0] == c[0] {
      StrLeTransitive(a[1..], b[1..], c[1..]);
    }
  }

  /** `Option<String>` order: `None` first. */
  predicate OptLe(a: Option<string>, b: Option<string>)
  {
    a.None? || (b.Some? && StrLe(a.value, b.value))
  }

  /** The derived order on rows. */
  predicate EntryLe(x: TableEntry, y: TableEntry)
  {
    || x.id < y.id
    || (x.id == y.id && x.name != y.name && StrLe(x.name, y.name))
    || (x.id == y.id && x.name == y.name && OptLe(x.entryPoint, y.entryPoint))
  }

  lemma EntryLeReflexive(x: TableEntry)
    ensures EntryLe(x, x)
  {
    if x.entryPoint.Some? {
      StrLeReflexive(x.entryPoint.value);
    }
  }

  lemma EntryLeTotal(x: TableEntry, y: TableEntry)
    ensures EntryLe(x, y) || EntryLe(y, x)
  {
    StrLeTotal(x.name, y.name);
    if x.entryPoint.Some? && y.entryPoint.Some? {
      StrLeTotal(x.entryPoint.value, y.entryPoint.value);
    }
  }

  lemma EntryLeAntisymmetric(x: TableEntry, y: TableEntry)
    requires EntryLe(x, y) && EntryLe(y, x)
    ensures x == y
  {
    if x.name != y.name {
      StrLeAntisymmetric(x.name, y.name);
    }
    if x.entryPoint.Some? && y.entryPoint.Some? {
      StrLeAntisymmetric(x.entryPoint.value, y.entryPoint.value);
    }
  }

  lemma EntryLeTransitive(x: TableEntry, y: TableEntry, z: TableEntry)
    requires EntryLe(x, y) && EntryLe(y, z)
    ensures EntryLe(x, z)
  {
    if x.id == y.id == z.id {
      if x.name != y.name && y.name != z.name {
        StrLeTransitive(x.name, y.name, z.name);
        if x.name == z.name {
          StrLeAntisymmetric(x.name, y.name);
        }
      }
      if x.name == y.name == z.name && x.entryPoint.Some? {
        StrLeTransitive(x.entryPoint.value, y.entryPoint.value, z.entryPoint.value);
      }
    }
  }

  predicate Sorted(s: seq<TableEntry>)
  {
    forall i, j :: 0 <= i < j < |s| ==> EntryLe(s[i], s[j])
  }

  /** `x` placed into the sorted `s` before the first row it does not follow. */
  function Insert(x: TableEntry, s: seq<TableEntry>): (r: seq<TableEntry>)
    requires Sorted(s)
    ensures Sorted(r) && multiset(r) == multiset(s) + multiset{x}
  {
    if |s| == 0 then [x]
    else if EntryLe(x, s[0]) then
      SortedFront(x, s);
      [x] + s
    else
      EntryLeTotal(x, s[0]);
      var tail := Insert(x, s[1..]);
      SortedBehind(s, x, tail);
      assert s == [s[0]] + s[1..];
      [s[0]] + tail
  }

  /** A row no greater than the first of a sorted sequence can go in front. */
  lemma SortedFront(x: TableEntry, s: seq<TableEntry>)
    requires Sorted(s) && |s| > 0 && EntryLe(x, s[0])
    ensures Sorted([x] + s)
  {
    forall j | 0 <= j < |s| ensures EntryLe(x, s[j]) {
      if j > 0 { EntryLeTransitive(x, s[0], s[j]); }
    }
  }

  /** The first row of a sorted `s` goes in front of `x` and the rest of `s`, sorted. */
  lemma SortedBehind(s: seq<TableEntry>, x: TableEntry, tail: seq<TableEntry>)
    requires Sorted(s) && |s| > 0 && EntryLe(s[0], x)
    requires Sorted(tail) && multiset(tail) == multiset(s[1..]) + multiset{x}
    ensures Sorted([s[0]] + tail)
  {
    forall j | 0 <= j < |tail| ensures EntryLe(s[0], tail[j]) {
      assert tail[j] in multiset(tail);
      if tail[j] != x {
        assert tail[j] in multiset(s[1..]);
        var k :| 1 <= k < |s| && s[k] == tail[j] by {
          assert tail[j] in s[1..];
        }
      }
    }
  }

  /** The rows of `s` in the derived order (insertion sort). */
  function Sort(s: seq<TableEntry>): (r: seq<TableEntry>)
    ensures Sorted(r) && multiset(r) == multiset(s)
  {
    if |s| == 0 then []
    else
      assert s == s[..|s| - 1] + [s[|s| - 1]];
      Insert(s[|s| - 1], Sort(s[..|s| - 1]))
  }

  /**
   * The order is total and antisymmetric, so every sorting algorithm
   * (`slice::sort` included) yields the same sequence.
   */
  lemma {:induction false} SortedUnique(a: seq<TableEntry>, b: seq<TableEntry>)
    requires Sorted(a) && Sorted(b) && multiset(a) == multiset(b)
    ensures a == b
    decreases |a|
  {
    assert |a| == |multiset(a)| == |multiset(b)| == |b|;
    if |a| > 0 {
      SortedHeads(a, b);
      MultisetTail(a, b);
      SortedTail(a);
      SortedTail(b);
      SortedUnique(a[1..], b[1..]);
      assert a == [a[0]] + a[1..] && b == [b[0]] + b[1..];
    }
  }

  /** Two sorted arrangements of the same rows start alike. */
  lemma SortedHeads(a: seq<TableEntry>, b: seq<TableEntry>)
    requires Sorted(a) && Sorted(b) && multiset(a) == multiset(b) && |a| > 0 && |b| > 0
    ensures a[0] == b[0]
  {
    assert a[0] in multiset(b) && b[0] in multiset(a);
    var k :| 0 <= k < |b| && b[k] == a[0];
    var m :| 0 <= m < |a| && a[m] == b[0];
    assert EntryLe(a[0], b[0]) by { if m == 0 { EntryLeReflexive(a[0]); } }
    assert EntryLe(b[0], a[0]) by { if k == 0 { EntryLeReflexive(b[0]); } }
    EntryLeAntisymmetric(a[0], b[0]);
  }

  lemma MultisetTail(a: seq<TableEntry>, b: seq<TableEntry>)
    requires |a| > 0 && |b| > 0 && a[0] == b[0] && multiset(a) == multiset(b)
    ensures multiset(a[1..]) == multiset(b[1..])
  {
    assert a == [a[0]] + a[1..] && b == [b[0]] + b[1..];
    assert multiset(a) == multiset{a[0]} + multiset(a[1..]);
    assert multiset(b) == multiset{b[0]} + multiset(b[1..]);
    assert multiset(a[1..]) == multiset(a) - multiset{a[0]};
    assert multiset(b[1..]) == multiset(b) - multiset{b[0]};
  }

  lemma SortedTail(a: seq<TableEntry>)
    requires Sorted(a) && |a| > 0
    ensures Sorted(a[1..])
  {
    forall i, j | 0 <= i < j < |a| - 1 ensures EntryLe(a[1..][i], a[1..][j]) {
      assert a[1..][i] == a[i + 1] && a[1..][j] == a[j + 1];
    }
  }
}
