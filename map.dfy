/**
 * `SysnoMap<T>` (src/map.rs): a `SysnoSet` of present keys paired with an
 * array of `table_size()` slots, slot `id - first().id` holding the value of
 * syscall `id`. Only the set decides which keys are present; a slot whose
 * key is absent may hold anything.
 */
module SysnoMaps {
  import opened Wrappers
  import opened Words
  import opened Syscalls
  import opened SysnoSets

  /**
   * `data_idx`: the slot of `s`, `s.id - first().id`. It is the same offset
   * the set uses for the bit of `s`: word `offset / 64`, bit `offset % 64`.
   */
  function DataIdx(t: Table, s: Sysno): (r: nat)
    requires WellFormed(t) && Listed(t, s.id)
    ensures r < TableSize(t)
    ensures r == 64 * GetIdxMask(t, s).0 + BitPos(t, s)
  {
    FirstLastBound(t, s);
    s.id - First(t).id
  }

  /** Two syscalls share a slot only if they are the same syscall. */
  lemma DataIdxInjective(t: Table, s: Sysno, u: Sysno)
    requires WellFormed(t) && Listed(t, s.id) && Listed(t, u.id)
    ensures DataIdx(t, s) == DataIdx(t, u) <==> s == u
  {
  }

  /** The slots after storing each `(sysno, value)` of `items` in turn, as `extend` does. */
  function Stored<T>(t: Table, slots: seq<T>, items: seq<(Sysno, T)>): (r: seq<T>)
    requires WellFormed(t) && |slots| == TableSize(t)
    requires forall i :: 0 <= i < |items| ==> Listed(t, items[i].0.id)
    ensures |r| == |slots|
    decreases |items|
  {
    if items == [] then slots
    else Stored(t, slots[DataIdx(t, items[0].0) := items[0].1], items[1..])
  }

  /**
   * After storing `items`, a slot holds the value of the last item aimed at
   * it, and a slot no item aims at is unchanged.
   */
  lemma StoredSlot<T>(t: Table, slots: seq<T>, items: seq<(Sysno, T)>, k: nat)
    requires WellFormed(t) && |slots| == TableSize(t) && k < |slots|
    requires forall i :: 0 <= i < |items| ==> Listed(t, items[i].0.id)
    ensures (forall i :: 0 <= i < |items| ==> DataIdx(t, items[i].0) != k) ==> Stored(t, slots, items)[k] == slots[k]
    ensures forall i :: 0 <= i < |items| && DataIdx(t, items[i].0) == k
                  && (forall m :: i < m < |items| ==> DataIdx(t, items[m].0) != k)
                  ==> Stored(t, slots, items)[k] == items[i].1
  {
    if forall i :: 0 <= i < |items| ==> DataIdx(t, items[i].0) != k {
      StoredUntouched(t, slots, items, k);
    }
    forall i | 0 <= i < |items| && DataIdx(t, items[i].0) == k
      && (forall m :: i < m < |items| ==> DataIdx(t, items[m].0) != k)
      ensures Stored(t, slots, items)[k] == items[i].1
    {
      StoredLast(t, slots, items, k, i);
    }
  }

  lemma {:induction false} StoredUntouched<T>(t: Table, slots: seq<T>, items: seq<(Sysno, T)>, k: nat)
    requires WellFormed(t) && |slots| == TableSize(t) && k < |slots|
    requires forall i :: 0 <= i < |items| ==> Listed(t, items[i].0.id)
    requires forall i :: 0 <= i < |items| ==> DataIdx(t, items[i].0) != k
    ensures Stored(t, slots, items)[k] == slots[k]
    decreases |items|
  {
    if items != [] {
      var next := slots[DataIdx(t, items[0].0) := items[0].1];
      forall i | 0 <= i < |items[1..]|
        ensures Listed(t, items[1..][i].0.id) && DataIdx(t, items[1..][i].0) != k
      {
        assert items[1..][i] == items[i + 1];
      }
      StoredUntouched(t, next, items[1..], k);
    }
  }

  lemma {:induction false} StoredLast<T>(t: Table, slots: seq<T>, items: seq<(Sysno, T)>, k: nat, i: nat)
    requires WellFormed(t) && |slots| == TableSize(t) && k < |slots|
    requires forall j :: 0 <= j < |items| ==> Listed(t, items[j].0.id)
    requires i < |items| && DataIdx(t, items[i].0) == k
    requires forall m :: i < m < |items| ==> DataIdx(t, items[m].0) != k
    ensures Stored(t, slots, items)[k] == items[i].1
    decreases |items|
  {
    var next := slots[DataIdx(t, items[0].0) := items[0].1];
    forall j | 0 <= j < |items[1..]|
      ensures Listed(t, items[1..][j].0.id)
      ensures i < j + 1 ==> DataIdx(t, items[1..][j].0) != k
    {
      assert items[1..][j] == items[j + 1];
    }
    if i == 0 {
      StoredUntouched(t, next, items[1..], k);
    } else {
      assert items[1..][i - 1] == items[i];
      StoredLast(t, next, items[1..], k, i - 1);
    }
  }

  /** The numbers of the syscalls of `items`. */
  function ItemIds<T>(items: seq<(Sysno, T)>): set<int>
  {
    set i | 0 <= i < |items| :: items[i].0.id
  }

  lemma ItemIdsSnoc<T>(items: seq<(Sysno, T)>, i: nat)
    requires i < |items|
    ensures ItemIds(items[..i + 1]) == ItemIds(items[..i]) + {items[i].0.id}
  {
    var a, b := items[..i + 1], items[..i];
    forall x
      ensures x in ItemIds(a) <==> x in ItemIds(b) + {items[i].0.id}
    {
      if x in ItemIds(a) {
        var k :| 0 <= k < |a| && a[k].0.id == x;
        if k < i {
          assert b[k] == a[k];
        }
      }
      if x in ItemIds(b) {
        var k :| 0 <= k < |b| && b[k].0.id == x;
        assert a[k] == b[k];
      }
      if x == items[i].0.id {
        assert a[i] == items[i];
      }
    }
  }

  /** `SysnoMap<T>`: the set `is_set` of present keys and the `data` slots. */
  class SysnoMap<T> {
    const table: Table
    /** `is_set`: the present keys. */
    const isSet: SysnoSet
    /** `data`: one slot per number from `first().id` to `last().id`. */
    const data: array<T>
    /** The value `T::default()` yields; `remove` and `clear` leave it behind. */
    const default: T

    ghost predicate Valid()
      reads this, isSet, isSet.data
    {
      && isSet.Valid()
      && isSet.table == table
      && data.Length == TableSize(table)
      && data as object != isSet.data
    }

    /** The numbers of the present keys. */
    ghost function Keys(): (r: set<int>)
      reads this, isSet, isSet.data
      requires Valid()
      ensures r <= ListedIds(table)
    {
      isSet.Ids()
    }

    /** `SysnoMap::new`: no key present, the slots as given. */
    constructor (t: Table, slots: array<T>, default: T)
      requires WellFormed(t) && slots.Length == TableSize(t)
      ensures Valid() && table == t && data == slots && this.default == default
      ensures fresh(isSet) && fresh(isSet.data)
      ensures Keys() == {}
    {
      table := t;
      isSet := new SysnoSet.Empty(t);
      data := slots;
      this.default := default;
    }

    /** `SysnoMap::new_with_set`: exactly the keys of `keys` present. */
    constructor WithSet(t: Table, slots: array<T>, keys: SysnoSet, default: T)
      requires WellFormed(t) && slots.Length == TableSize(t)
      requires keys.Valid() && keys.table == t && slots as object != keys.data
      ensures Valid() && table == t && data == slots && isSet == keys && this.default == default
      ensures Keys() == old(keys.Ids())
    {
      table := t;
      isSet := keys;
      data := slots;
      this.default := default;
    }

    /** `SysnoMap::contains_key`. */
    function ContainsKey(s: Sysno): (r: bool)
      reads this, isSet, isSet.data
      requires Valid() && Listed(table, s.id)
      ensures r <==> s.id in Keys()
    {
      isSet.Contains(s)
    }

    /** `SysnoMap::is_empty`: that of the set. */
    function IsEmpty(): (r: bool)
      reads this, isSet, isSet.data
      requires Valid()
      ensures r <==> Keys() == {}
    {
      isSet.IsEmpty()
    }

    /** `SysnoMap::count`: that of the set. */
    function Count(): (r: nat)
      reads this, isSet, isSet.data
      requires Valid()
      ensures r == |Keys()|
    {
      isSet.Count()
    }

    /** `SysnoMap::get`: the slot of a present key, `None` for an absent one whatever its slot holds. */
    function Get(s: Sysno): (r: Option<T>)
      reads this, isSet, isSet.data, data
      requires Valid() && Listed(table, s.id)
      ensures r.Some? <==> s.id in Keys()
      ensures r.Some? ==> r.value == data[DataIdx(table, s)]
    {
      if isSet.Contains(s) then Some(data[DataIdx(table, s)]) else None
    }

    /**
     * `SysnoMap::get_mut`: the mutable reference it returns is modelled as
     * the index of the slot it refers to.
     */
    function GetMut(s: Sysno): (r: Option<nat>)
      reads this, isSet, isSet.data
      requires Valid() && Listed(table, s.id)
      ensures r.Some? <==> s.id in Keys()
      ensures r.Some? ==> r.value < data.Length && r.value == DataIdx(table, s)
    {
      if isSet.Contains(s) then Some(DataIdx(table, s)) else None
    }

    /** `SysnoMap::clear`: no key present and every slot back to `T::default()`. */
    method Clear()
      requires Valid()
      modifies isSet.data, data
      ensures Valid() && Keys() == {}
      ensures forall k :: 0 <= k < data.Length ==> data[k] == default
    {
      isSet.Clear();
      for k := 0 to data.Length
        invariant Valid() && Keys() == {}
        invariant forall m :: 0 <= m < k ==> data[m] == default
      {
        data[k] := default;
      }
    }

    /**
     * `SysnoMap::insert`: stores `value` in the slot of `s` and marks `s`
     * present; gives back the previous value only if `s` was present.
     */
    method Insert(s: Sysno, value: T) returns (r: Option<T>)
      requires Valid() && Listed(table, s.id)
      modifies isSet.data, data
      ensures Valid() && Keys() == old(Keys()) + {s.id}
      ensures data[..] == old(data[..])[DataIdx(table, s) := value]
      ensures r == if s.id in old(Keys()) then Some(old(data[DataIdx(table, s)])) else None
    {
      var idx := DataIdx(table, s);
      var previous := data[idx];
      data[idx] := value;
      var added := isSet.Insert(s);
      if added {
        r := None;
      } else {
        r := Some(previous);
      }
    }

    /**
     * `SysnoMap::remove`: for a present key, unmarks it and takes its value,
     * leaving `T::default()`; an absent key changes nothing.
     */
    method Remove(s: Sysno) returns (r: Option<T>)
      requires Valid() && Listed(table, s.id)
      modifies isSet.data, data
      ensures Valid() && Keys() == old(Keys()) - {s.id}
      ensures s.id in old(Keys()) ==>
        r == Some(old(data[DataIdx(table, s)])) && data[..] == old(data[..])[DataIdx(table, s) := default]
      ensures s.id !in old(Keys()) ==> r == None && data[..] == old(data[..])
    {
      var removed := isSet.Remove(s);
      if removed {
        var idx := DataIdx(table, s);
        r := Some(data[idx]);
        data[idx] := default;
      } else {
        r := None;
      }
    }

    /** `Extend::extend`: `insert` of each item in turn. */
    method Extend(items: seq<(Sysno, T)>)
      requires Valid() && forall i :: 0 <= i < |items| ==> Listed(table, items[i].0.id)
      modifies isSet.data, data
      ensures Valid() && Keys() == old(Keys()) + ItemIds(items)
      ensures data[..] == Stored(table, old(data[..]), items)
    {
      var i := 0;
      while i < |items|
        invariant 0 <= i <= |items| && Valid()
        invariant Keys() == old(Keys()) + ItemIds(items[..i])
        invariant Stored(table, old(data[..]), items) == Stored(table, data[..], items[i..])
      {
        ItemIdsSnoc(items, i);
        assert items[i..][1..] == items[i + 1..];
        var _ := Insert(items[i].0, items[i].1);
        i := i + 1;
      }
      assert items[..i] == items;
    }

    /** The numbers of the present keys in the order the set's iterator yields them. */
    function Order(): (r: seq<int>)
      reads this, isSet, isSet.data
      requires Valid()
    {
      Ascending(First(table).id, isSet.data[..], 0)
    }

    /**
     * `SysnoMap::iter`: the present keys in the set's iteration order, each
     * with the value `get` gives for it.
     */
    function Iter(): (r: seq<(Sysno, T)>)
      reads this, isSet, isSet.data, data
      requires Valid()
      ensures |r| == |Order()|
      ensures forall i :: 0 <= i < |r| ==> r[i].0.id == Order()[i] && Listed(table, r[i].0.id)
      ensures forall i :: 0 <= i < |r| ==> Get(r[i].0) == Some(r[i].1)
    {
      OrderedKeys();
      Entries(table, Order(), data[..])
    }

    /** `SysnoMap::values`: the values of `iter`, in the same order. */
    function Values(): (r: seq<T>)
      reads this, isSet, isSet.data, data
      requires Valid()
      ensures |r| == |Iter()|
      ensures forall i :: 0 <= i < |r| ==> r[i] == Iter()[i].1
    {
      Seconds(Iter())
    }

    /**
     * The set's iteration order lists exactly the present keys, each once,
     * ascending, and only listed syscalls.
     */
    lemma OrderedKeys()
      requires Valid()
      ensures forall x :: x in Order() <==> x in Keys()
      ensures Increasing(Order())
      ensures forall i :: 0 <= i < |Order()| ==> Listed(table, Order()[i])
    {
      IterationOrder(First(table).id, isSet.data[..]);
      forall i | 0 <= i < |Order()|
        ensures Listed(table, Order()[i])
      {
        assert Order()[i] in Order();
      }
    }
  }

  /** Each number of `ids` paired with the value in its slot. */
  function Entries<T>(t: Table, ids: seq<int>, slots: seq<T>): (r: seq<(Sysno, T)>)
    requires WellFormed(t) && |slots| == TableSize(t)
    requires forall i :: 0 <= i < |ids| ==> Listed(t, ids[i])
    ensures |r| == |ids|
    ensures forall i :: 0 <= i < |r| ==> r[i] == (Sysno(ids[i]), slots[DataIdx(t, Sysno(ids[i]))])
  {
    if ids == [] then []
    else [(Sysno(ids[0]), slots[DataIdx(t, Sysno(ids[0]))])] + Entries(t, ids[1..], slots)
  }

  /** The second components of `ps`, in order. */
  function Seconds<A, B>(ps: seq<(A, B)>): (r: seq<B>)
    ensures |r| == |ps| && forall i :: 0 <= i < |r| ==> r[i] == ps[i].1
  {
    if ps == [] then [] else [ps[0].1] + Seconds(ps[1..])
  }
}
