/**
 * `SysnoSet` (src/set.rs): a fixed-length array of `usize` words in which
 * bit `id - first().id` marks syscall `id` as a member.
 */
module SysnoSets {
  import opened Wrappers
  import opened Words
  import opened Syscalls

  /** `usize::MAX` on a 64-bit target. */
  const USIZE_MAX: nat := 0xffff_ffff_ffff_ffff

  /** `size_of::<usize>()` on a 64-bit target. */
  const USIZE_BYTES: nat := 8

  /** `bits_per::<T>()`: the size in bytes times 8, saturating at `usize::MAX`. */
  function BitsPer(size: nat): (r: nat)
    requires size <= USIZE_MAX
    ensures r <= USIZE_MAX
    ensures r == 0 <==> size == 0
    ensures size * 8 <= USIZE_MAX ==> r == size * 8
    ensures size * 8 > USIZE_MAX ==> r == USIZE_MAX
  {
    if size * 8 > USIZE_MAX then USIZE_MAX else size * 8
  }

  /**
   * `words::<T>(bits)`: how many values of a type `size` bytes wide hold
   * `bits` bits, rounded up; zero for a zero-sized type.
   */
  function WordsFor(size: nat, bits: nat): (r: nat)
    requires size <= USIZE_MAX
  {
    var width := BitsPer(size);
    if width == 0 then 0
    else bits / width + (if bits % width != 0 then 1 else 0)
  }

  /** `words` is the ceiling of `bits / width`: the fewest words that hold `bits`. */
  lemma WordsForIsCeiling(size: nat, bits: nat)
    requires 0 < size <= USIZE_MAX
    ensures var width := BitsPer(size);
      && WordsFor(size, bits) * width >= bits
      && (WordsFor(size, bits) == 0 || (WordsFor(size, bits) - 1) * width < bits)
  {
    var width := BitsPer(size);
    var q, m := bits / width, bits % width;
    assert bits == q * width + m && 0 <= m < width;
    if m != 0 {
      assert (q + 1) * width == q * width + width;
    }
  }

  /** A zero-sized word type needs no words at all. */
  lemma WordsForZeroSized(bits: nat)
    ensures WordsFor(0, bits) == 0
  {
  }

  /** The length of the `data` array: `words::<usize>(Sysno::table_size())`. */
  function WordCount(t: Table): nat
    requires WellFormed(t)
  {
    WordsFor(USIZE_BYTES, TableSize(t))
  }

  /** The syscall numbers a word sequence holds, bit `j` of word `k` standing for `first + 64 * k + j`. */
  function IdsOf(first: int, ws: seq<Word>): (r: set<int>)
    ensures forall x :: x in r ==> first <= x < first + 64 * |ws|
    decreases |ws|
  {
    if |ws| == 0 then {}
    else
      var n := |ws| - 1;
      IdsOf(first, ws[..n]) + BitsBelow(ws[n], first + 64 * n, WORD_WIDTH)
  }

  /** Splits a bit offset into a word index and a bit position. */
  lemma Split(p: int) returns (k: nat, j: nat)
    requires p >= 0
    ensures p == 64 * k + j && j < WORD_WIDTH
  {
    k, j := p / 64, p % 64;
  }

  /** Number `x == first + 64 * k + j` is held exactly when bit `j` of word `k` is set. */
  lemma {:induction false} IdsOfMember(first: int, ws: seq<Word>, x: int, k: nat, j: nat)
    requires k < |ws| && j < WORD_WIDTH && x == first + 64 * k + j
    ensures x in IdsOf(first, ws) <==> Bit(ws[k], j)
    decreases |ws|
  {
    var n := |ws| - 1;
    if k < n {
      IdsOfMember(first, ws[..n], x, k, j);
    }
  }

  /** `get_idx_mask`: the word index and the single-bit mask of a syscall. */
  function GetIdxMask(t: Table, s: Sysno): (r: (nat, Word))
    requires WellFormed(t) && Listed(t, s.id)
    ensures r.0 < WordCount(t)
  {
    FirstLastBound(t, s);
    WordsForIsCeiling(USIZE_BYTES, TableSize(t));
    var bit := s.id - First(t).id;
    (bit / 64, Mask(bit % 64))
  }

  /** The position, within its word, of the bit that stands for `s`. */
  function BitPos(t: Table, s: Sysno): (j: nat)
    requires WellFormed(t) && Listed(t, s.id)
    ensures j < WORD_WIDTH
  {
    FirstLastBound(t, s);
    (s.id - First(t).id) % 64
  }

  /**
   * `get_idx_mask` picks bit `j` of word `idx` with `first + 64 * idx + j`
   * the syscall's number, and the mask is `1 << j`.
   */
  lemma GetIdxMaskBit(t: Table, s: Sysno)
    requires WellFormed(t) && Listed(t, s.id)
    ensures GetIdxMask(t, s).1 == Mask(BitPos(t, s))
    ensures s.id == First(t).id + 64 * GetIdxMask(t, s).0 + BitPos(t, s)
  {
  }

  /** Bit `j` of a word read through the mask `1 << j`: `word & mask != 0`. */
  lemma MaskedWord(t: Table, ws: seq<Word>, s: Sysno)
    requires WellFormed(t) && Listed(t, s.id) && |ws| == WordCount(t)
    ensures And(ws[GetIdxMask(t, s).0], GetIdxMask(t, s).1) != 0 <==> s.id in IdsOf(First(t).id, ws)
  {
    GetIdxMaskBit(t, s);
    var (idx, mask) := GetIdxMask(t, s);
    AndMaskNonZero(ws[idx], BitPos(t, s));
    IdsOfMember(First(t).id, ws, s.id, idx, BitPos(t, s));
  }

  /** Setting the bit of `id == first + 64 * idx + j` adds exactly that number. */
  lemma SetBitIds(first: int, ws: seq<Word>, idx: nat, j: nat, w: Word, id: int)
    requires idx < |ws| && j < WORD_WIDTH && w == Or(ws[idx], Mask(j))
    requires id == first + 64 * idx + j
    ensures IdsOf(first, ws[idx := w]) == IdsOf(first, ws) + {id}
  {
    var ws' := ws[idx := w];
    forall x
      ensures x in IdsOf(first, ws') <==> x in IdsOf(first, ws) || x == id
    {
      if x in IdsOf(first, ws') || x in IdsOf(first, ws) || x == id {
        var k, i := Split(x - first);
        IdsOfMember(first, ws', x, k, i);
        IdsOfMember(first, ws, x, k, i);
        if k == idx {
          OrBit(ws[idx], Mask(j), i);
          MaskBit(j, i);
        }
      }
    }
  }

  /** Clearing the bit of `id == first + 64 * idx + j` removes exactly that number. */
  lemma ClearBitIds(first: int, ws: seq<Word>, idx: nat, j: nat, w: Word, id: int)
    requires idx < |ws| && j < WORD_WIDTH && w == AndNot(ws[idx], Mask(j))
    requires id == first + 64 * idx + j
    ensures IdsOf(first, ws[idx := w]) == IdsOf(first, ws) - {id}
  {
    var ws' := ws[idx := w];
    forall x
      ensures x in IdsOf(first, ws') <==> x in IdsOf(first, ws) && x != id
    {
      if x in IdsOf(first, ws') || x in IdsOf(first, ws) {
        var k, i := Split(x - first);
        IdsOfMember(first, ws', x, k, i);
        IdsOfMember(first, ws, x, k, i);
        if k == idx {
          AndNotBit(ws[idx], Mask(j), i);
          MaskBit(j, i);
        }
      }
    }
  }

  /** Words that are all zero hold nothing. */
  lemma ZeroWordsIds(first: int, ws: seq<Word>)
    requires forall k :: 0 <= k < |ws| ==> ws[k] == 0
    ensures IdsOf(first, ws) == {}
  {
    forall x | x in IdsOf(first, ws)
      ensures false
    {
      var k, i := Split(x - first);
      IdsOfMember(first, ws, x, k, i);
      ZeroBit(i);
    }
  }

  /** `.iter().all(|&x| x == 0)`. */
  function AllZero(ws: seq<Word>): (r: bool)
  {
    |ws| == 0 || (ws[0] == 0 && AllZero(ws[1..]))
  }

  lemma {:induction false} AllZeroAt(ws: seq<Word>, k: nat)
    requires AllZero(ws) && k < |ws|
    ensures ws[k] == 0
  {
    if k > 0 {
      AllZeroAt(ws[1..], k - 1);
    }
  }

  lemma {:induction false} NonZeroWord(ws: seq<Word>) returns (k: nat)
    requires !AllZero(ws)
    ensures k < |ws| && ws[k] != 0
  {
    if ws[0] != 0 {
      k := 0;
    } else {
      k := NonZeroWord(ws[1..]);
      k := k + 1;
    }
  }

  /** The words are all zero exactly when they hold no syscall. */
  lemma AllZeroIffNoIds(first: int, ws: seq<Word>)
    ensures AllZero(ws) <==> IdsOf(first, ws) == {}
  {
    if AllZero(ws) {
      forall x | x in IdsOf(first, ws)
        ensures false
      {
        var k, i := Split(x - first);
        IdsOfMember(first, ws, x, k, i);
        AllZeroAt(ws, k);
        ZeroBit(i);
      }
    } else {
      var k := NonZeroWord(ws);
      var i := TrailingZeros(ws[k]);
      TrailingZerosInWord(ws[k]);
      IdsOfMember(first, ws, first + 64 * k + i, k, i);
    }
  }

  /** `.iter().fold(0, |acc, x| acc + x.count_ones())`. */
  function SumOnes(ws: seq<Word>): (r: nat)
    decreases |ws|
  {
    if |ws| == 0 then 0 else SumOnes(ws[..|ws| - 1]) + CountOnes(ws[|ws| - 1])
  }

  lemma IdsOfSnoc(first: int, ws: seq<Word>, n: nat, base: int)
    requires n == |ws| - 1 && base == first + 64 * n
    ensures IdsOf(first, ws) == IdsOf(first, ws[..n]) + BitsBelow(ws[n], base, WORD_WIDTH)
  {
  }

  /** The last word adds its set bits to the numbers the words below it hold. */
  lemma IdsOfLastWord(first: int, ws: seq<Word>)
    requires |ws| > 0
    ensures |IdsOf(first, ws)| == |IdsOf(first, ws[..|ws| - 1])| + CountOnes(ws[|ws| - 1])
  {
    var n := |ws| - 1;
    var base := first + 64 * n;
    IdsOfSnoc(first, ws, n, base);
    OnesBelowCounts(ws[n], base, WORD_WIDTH);
    OnesBelowCounts(ws[n], 0, WORD_WIDTH);
    SeparatedUnionSize(IdsOf(first, ws[..n]), BitsBelow(ws[n], base, WORD_WIDTH), base);
  }

  /** The sum of the words' set bits is the number of syscalls they hold. */
  lemma {:induction false} SumOnesCounts(first: int, ws: seq<Word>)
    ensures SumOnes(ws) == |IdsOf(first, ws)|
    decreases |ws|
  {
    if |ws| > 0 {
      SumOnesCounts(first, ws[..|ws| - 1]);
      IdsOfLastWord(first, ws);
    }
  }

  /** Two sets on either side of `m` have the sizes of both together. */
  lemma SeparatedUnionSize(a: set<int>, b: set<int>, m: int)
    requires forall x :: x in a ==> x < m
    requires forall x :: x in b ==> x >= m
    ensures |a + b| == |a| + |b|
  {
    forall x | x in a
      ensures x !in b
    {
    }
    DisjointUnionSize(a, b);
  }

  lemma DisjointUnionSize<T>(a: set<T>, b: set<T>)
    requires forall x :: x in a ==> x !in b
    ensures |a + b| == |a| + |b|
  {
    assert a * b == {};
  }

  /** The word-wise combination `[op(a[0], b[0]), op(a[1], b[1]), …]`. */
  function Zip(op: (nat, nat) -> nat, a: seq<nat>, b: seq<nat>): (r: seq<nat>)
    requires |a| == |b|
    ensures |r| == |a|
    decreases |a|
  {
    if |a| == 0 then [] else Zip(op, a[..|a| - 1], b[..|a| - 1]) + [op(a[|a| - 1], b[|a| - 1])]
  }

  lemma {:induction false} ZipAt(op: (nat, nat) -> nat, a: seq<nat>, b: seq<nat>, k: nat)
    requires |a| == |b| && k < |a|
    ensures Zip(op, a, b)[k] == op(a[k], b[k])
    decreases |a|
  {
    if k < |a| - 1 {
      ZipAt(op, a[..|a| - 1], b[..|a| - 1], k);
    }
  }

  /** Extending both inputs by one word extends their combination by one word. */
  lemma ZipSnoc(op: (nat, nat) -> nat, a: seq<nat>, b: seq<nat>, i: nat)
    requires |a| == |b| && i < |a|
    ensures Zip(op, a[..i + 1], b[..i + 1]) == Zip(op, a[..i], b[..i]) + [op(a[i], b[i])]
  {
    assert a[..i + 1][..i] == a[..i];
    assert b[..i + 1][..i] == b[..i];
  }

  /** Word-wise `|` holds the union. */
  lemma UnionIds(first: int, a: seq<Word>, b: seq<Word>, ws: seq<Word>)
    requires |a| == |b| && ws == Zip(Or, a, b)
    ensures IdsOf(first, ws) == IdsOf(first, a) + IdsOf(first, b)
  {
    forall x | x in IdsOf(first, ws) || x in IdsOf(first, a) || x in IdsOf(first, b)
      ensures x in IdsOf(first, ws) <==> x in IdsOf(first, a) || x in IdsOf(first, b)
    {
      var k, i := Split(x - first);
      IdsOfMember(first, ws, x, k, i);
      IdsOfMember(first, a, x, k, i);
      IdsOfMember(first, b, x, k, i);
      ZipAt(Or, a, b, k);
      OrBit(a[k], b[k], i);
    }
  }

  /** Word-wise `&` holds the intersection. */
  lemma IntersectionIds(first: int, a: seq<Word>, b: seq<Word>, ws: seq<Word>)
    requires |a| == |b| && ws == Zip(And, a, b)
    ensures IdsOf(first, ws) == IdsOf(first, a) * IdsOf(first, b)
  {
    forall x | x in IdsOf(first, ws) || x in IdsOf(first, a)
      ensures x in IdsOf(first, ws) <==> x in IdsOf(first, a) && x in IdsOf(first, b)
    {
      var k, i := Split(x - first);
      IdsOfMember(first, ws, x, k, i);
      IdsOfMember(first, a, x, k, i);
      IdsOfMember(first, b, x, k, i);
      ZipAt(And, a, b, k);
      AndBit(a[k], b[k], i);
    }
  }

  /** Word-wise `& !` holds the difference. */
  lemma DifferenceIds(first: int, a: seq<Word>, b: seq<Word>, ws: seq<Word>)
    requires |a| == |b| && ws == Zip(AndNot, a, b)
    ensures IdsOf(first, ws) == IdsOf(first, a) - IdsOf(first, b)
  {
    forall x | x in IdsOf(first, ws) || x in IdsOf(first, a)
      ensures x in IdsOf(first, ws) <==> x in IdsOf(first, a) && x !in IdsOf(first, b)
    {
      var k, i := Split(x - first);
      IdsOfMember(first, ws, x, k, i);
      IdsOfMember(first, a, x, k, i);
      IdsOfMember(first, b, x, k, i);
      ZipAt(AndNot, a, b, k);
      AndNotBit(a[k], b[k], i);
    }
  }

  /** Word-wise `^` holds the symmetric difference. */
  lemma SymmetricDifferenceIds(first: int, a: seq<Word>, b: seq<Word>, ws: seq<Word>)
    requires |a| == |b| && ws == Zip(Xor, a, b)
    ensures IdsOf(first, ws) == (IdsOf(first, a) - IdsOf(first, b)) + (IdsOf(first, b) - IdsOf(first, a))
  {
    forall x | x in IdsOf(first, ws) || x in IdsOf(first, a) || x in IdsOf(first, b)
      ensures x in IdsOf(first, ws) <==> (x in IdsOf(first, a) <==> x !in IdsOf(first, b))
    {
      var k, i := Split(x - first);
      IdsOfMember(first, ws, x, k, i);
      IdsOfMember(first, a, x, k, i);
      IdsOfMember(first, b, x, k, i);
      ZipAt(Xor, a, b, k);
      XorBit(a[k], b[k], i);
    }
  }

  /**
   * The loop of the set operations:
   * `for (left, right) in data.iter_mut().zip(other.iter()) { *left = op(*left, *right) }`.
   */
  method ZipInPlace(data: array<Word>, other: array<Word>, op: (nat, nat) -> nat)
    requires data != other && data.Length == other.Length
    requires forall x: Word, y: Word :: op(x, y) < WORD_LIMIT
    modifies data
    ensures data[..] == Zip(op, old(data[..]), other[..])
  {
    ghost var a, b := data[..], other[..];
    var i := 0;
    while i < data.Length
      invariant 0 <= i <= data.Length
      invariant data[..i] == Zip(op, a[..i], b[..i])
      invariant forall k :: i <= k < data.Length ==> data[k] == a[k]
    {
      data[i] := op(data[i], other[i]);
      ZipSnoc(op, a, b, i);
      assert data[..i + 1] == data[..i] + [data[i]];
      i := i + 1;
    }
    assert data[..] == data[..i] && a == a[..i] && b == b[..i];
  }

  /**
   * The order in which the set's iterator yields numbers: word by word from
   * word `k` up, each word's set bits in ascending position.
   */
  function Ascending(first: int, ws: seq<Word>, k: nat): (r: seq<int>)
    requires k <= |ws|
    decreases |ws| - k
  {
    if k == |ws| then [] else AscendingFrom(ws[k], first + 64 * k, 0) + Ascending(first, ws, k + 1)
  }

  /** Iterating from word `k` yields numbers from word `k` on, in strictly ascending order. */
  lemma {:induction false} AscendingFacts(first: int, ws: seq<Word>, k: nat)
    requires k <= |ws|
    ensures forall x :: x in Ascending(first, ws, k) ==> first + 64 * k <= x
    ensures Increasing(Ascending(first, ws, k))
    decreases |ws| - k
  {
    if k < |ws| {
      var here, rest := AscendingFrom(ws[k], first + 64 * k, 0), Ascending(first, ws, k + 1);
      AscendingFromFacts(ws[k], first + 64 * k, 0);
      AscendingFacts(first, ws, k + 1);
      IncreasingConcat(here, rest);
    }
  }

  lemma IncreasingConcat(s: seq<int>, u: seq<int>)
    requires Increasing(s) && Increasing(u)
    requires forall x, y :: x in s && y in u ==> x < y
    ensures Increasing(s + u)
  {
    forall i, k | 0 <= i < k < |s + u|
      ensures (s + u)[i] < (s + u)[k]
    {
      if i < |s| && k >= |s| {
        assert s[i] in s && u[k - |s|] in u;
      }
    }
  }

  /** Iterating from word `k` yields exactly the set's numbers from word `k` on. */
  lemma {:induction false} AscendingMembers(first: int, ws: seq<Word>, k: nat)
    requires k <= |ws|
    ensures forall x :: x in Ascending(first, ws, k) ==> x in IdsOf(first, ws)
    ensures forall x :: x in IdsOf(first, ws) && first + 64 * k <= x ==> x in Ascending(first, ws, k)
    decreases |ws| - k
  {
    if k < |ws| {
      AscendingMembers(first, ws, k + 1);
      var base := first + 64 * k;
      AscendingFromFacts(ws[k], base, 0);
      forall x | x in AscendingFrom(ws[k], base, 0)
        ensures x in IdsOf(first, ws)
      {
        IdsOfMember(first, ws, x, k, x - base);
      }
      forall x | x in IdsOf(first, ws) && base <= x
        ensures x in Ascending(first, ws, k)
      {
        var m, j := Split(x - first);
        if m == k {
          IdsOfMember(first, ws, x, k, j);
        }
      }
    }
  }

  /** Zero words contribute nothing to the iteration. */
  lemma {:induction false} AscendingSkipZeros(first: int, ws: seq<Word>, from: nat, upto: nat)
    requires from <= upto <= |ws|
    requires forall k :: from <= k < upto ==> ws[k] == 0
    ensures Ascending(first, ws, from) == Ascending(first, ws, upto)
    decreases upto - from
  {
    if from < upto {
      AscendingFromZero(ws[from], first + 64 * from);
      AscendingSkipZeros(first, ws, from + 1, upto);
    }
  }

  /**
   * The set's iterator yields each of its numbers exactly once, in strictly
   * ascending order.
   */
  lemma IterationOrder(first: int, ws: seq<Word>)
    ensures forall x :: x in Ascending(first, ws, 0) <==> x in IdsOf(first, ws)
    ensures Increasing(Ascending(first, ws, 0))
  {
    AscendingMembers(first, ws, 0);
    AscendingFacts(first, ws, 0);
  }

  /**
   * What an iterator still has to yield when it holds `current`, taken
   * from word `count - 1`, and has consumed `count` words.
   */
  function PendingOf(first: int, ws: seq<Word>, current: Option<Word>, count: nat): (r: seq<int>)
    requires count <= |ws| && (current.Some? ==> count >= 1)
  {
    (if current.Some? then AscendingFrom(current.value, first + 64 * (count - 1), 0) else [])
      + Ascending(first, ws, count)
  }

  /**
   * Having started at word `from`, the word iterator stopped after `count`
   * words, on the non-zero word `c`, or at the end with `None`; every word it
   * passed on the way is zero.
   */
  ghost predicate Fetched(ws: seq<Word>, from: nat, c: Option<Word>, count: nat)
  {
    && from <= count <= |ws|
    && (c.Some? ==> from < count && c.value == ws[count - 1] && c.value != 0)
    && (c.None? ==> count == |ws|)
    && forall k :: from <= k < count && (c.None? || k < count - 1) ==> ws[k] == 0
  }

  /**
   * Fetching the next non-zero word after word `from` leaves the iteration
   * from word `from` pending.
   */
  lemma PendingAdvance(first: int, ws: seq<Word>, from: nat, c: Option<Word>, count: nat)
    requires Fetched(ws, from, c, count)
    ensures PendingOf(first, ws, c, count) == Ascending(first, ws, from)
  {
    if c.Some? {
      assert forall k :: from <= k < count - 1 ==> ws[k] == 0;
      AscendingSkipZeros(first, ws, from, count - 1);
      AscendingStep(first, ws, count - 1, count);
    } else {
      assert [] + Ascending(first, ws, count) == Ascending(first, ws, count);
      AscendingSkipZeros(first, ws, from, count);
    }
  }

  /** Iterating from word `k` lists word `k`, then iterates from word `k + 1`. */
  lemma AscendingStep(first: int, ws: seq<Word>, k: nat, next: nat)
    requires k < |ws| && next == k + 1
    ensures Ascending(first, ws, k) == AscendingFrom(ws[k], first + 64 * k, 0) + Ascending(first, ws, next)
  {
  }

  lemma ConsConcat(x: int, a: seq<int>, b: seq<int>)
    ensures ([x] + a) + b == [x] + (a + b)
  {
  }

  /** A word with no set bits left leaves only the later words pending. */
  lemma PendingDrained(first: int, ws: seq<Word>, w: Word, count: nat)
    requires 1 <= count <= |ws| && w == 0
    ensures PendingOf(first, ws, Some(w), count) == Ascending(first, ws, count)
  {
    AscendingFromZero(w, first + 64 * (count - 1));
  }

  /** A word that lists `x` before what `r` lists leaves `x` pending before what `r` leaves. */
  lemma PendingCons(first: int, ws: seq<Word>, w: Word, count: nat, x: int, r: Word)
    requires 1 <= count <= |ws|
    requires AscendingFrom(w, first + 64 * (count - 1), 0)
          == [x] + AscendingFrom(r, first + 64 * (count - 1), 0)
    ensures PendingOf(first, ws, Some(w), count) == [x] + PendingOf(first, ws, Some(r), count)
  {
    ConsConcat(x, AscendingFrom(r, first + 64 * (count - 1), 0), Ascending(first, ws, count));
  }

  /**
   * What a set iterator keeps true of the table, the words, the word being
   * taken apart and the number of words consumed.
   */
  ghost predicate IterInv(t: Table, ws: seq<Word>, current: Option<Word>, count: nat)
  {
    && WellFormed(t)
    && |ws| == WordCount(t)
    && count <= |ws|
    && (current.Some? ==> current.value != 0 && count >= 1)
    && (current.None? ==> count == |ws|)
    && forall x :: x in PendingOf(First(t).id, ws, current, count) ==> x in ListedIds(t)
  }

  /**
   * One step of the iterator: when the current word lists `id` before what
   * `rest` lists, `id` heads what is pending, and what follows it is pending
   * afterwards.
   */
  lemma IterStep(t: Table, ws: seq<Word>, word: Word, count: nat, rest: Word, id: int,
                 c: Option<Word>, count2: nat)
    requires IterInv(t, ws, Some(word), count)
    requires AscendingFrom(word, First(t).id + 64 * (count - 1), 0)
          == [id] + AscendingFrom(rest, First(t).id + 64 * (count - 1), 0)
    requires rest != 0 ==> c == Some(rest) && count2 == count
    requires rest == 0 ==> Fetched(ws, count, c, count2)
    ensures IterInv(t, ws, c, count2)
    ensures PendingOf(First(t).id, ws, Some(word), count) == [id] + PendingOf(First(t).id, ws, c, count2)
    ensures Listed(t, id) && 0 <= id <= I32_MAX
  {
    PendingStep(First(t).id, ws, word, count, rest, id, c, count2);
    ConsMembers(id, PendingOf(First(t).id, ws, Some(word), count), PendingOf(First(t).id, ws, c, count2));
    var k := IndexOf(t, id);
  }

  /**
   * The pending numbers across one step of the iterator, once the current
   * word is known to list `x` before what `rest` lists.
   */
  lemma PendingStep(first: int, ws: seq<Word>, word: Word, count: nat, rest: Word, x: int,
                    c: Option<Word>, count2: nat)
    requires 1 <= count <= |ws|
    requires AscendingFrom(word, first + 64 * (count - 1), 0)
          == [x] + AscendingFrom(rest, first + 64 * (count - 1), 0)
    requires rest != 0 ==> c == Some(rest) && count2 == count
    requires rest == 0 ==> Fetched(ws, count, c, count2)
    ensures count2 <= |ws| && (c.Some? ==> count2 >= 1)
    ensures PendingOf(first, ws, Some(word), count) == [x] + PendingOf(first, ws, c, count2)
  {
    PendingCons(first, ws, word, count, x, rest);
    if rest == 0 {
      PendingDrained(first, ws, rest, count);
      PendingAdvance(first, ws, count, c, count2);
    }
  }

  lemma ConsMembers(x: int, a: seq<int>, b: seq<int>)
    requires a == [x] + b
    ensures x in a && forall y :: y in b ==> y in a
  {
  }

  /** A fresh iterator, having fetched the first non-zero word, has the whole set pending in order. */
  lemma IterStart(t: Table, ws: seq<Word>, c: Option<Word>, count: nat)
    requires WellFormed(t) && |ws| == WordCount(t) && IdsOf(First(t).id, ws) <= ListedIds(t)
    requires Fetched(ws, 0, c, count)
    ensures IterInv(t, ws, c, count)
    ensures PendingOf(First(t).id, ws, c, count) == Ascending(First(t).id, ws, 0)
  {
    AscendingMembers(First(t).id, ws, 0);
    PendingAdvance(First(t).id, ws, 0, c, count);
  }

  /** The numbers of a list of syscalls. */
  function SysnoIds(ss: seq<Sysno>): (r: set<int>)
  {
    set s | s in ss :: s.id
  }

  /** The numbers of every listed syscall are exactly the table's numbers. */
  lemma AllIds(t: Table)
    requires WellFormed(t)
    ensures SysnoIds(Syscalls.All(t)) == ListedIds(t)
  {
    forall x
      ensures x in SysnoIds(Syscalls.All(t)) <==> x in ListedIds(t)
    {
      if x in ListedIds(t) {
        var k := IndexOf(t, x);
        assert Syscalls.All(t)[k] in Syscalls.All(t);
      }
    }
  }


  lemma SysnoIdsSnoc(ss: seq<Sysno>, i: nat)
    requires i < |ss|
    ensures SysnoIds(ss[..i + 1]) == SysnoIds(ss[..i]) + {ss[i].id}
  {
    assert ss[..i + 1] == ss[..i] + [ss[i]];
  }

  class SysnoSet {
    /** The architecture's syscall table the set ranges over. */
    const table: Table
    const data: array<Word>

    /**
     * The array has `words::<usize>(table_size())` words and no bit is set
     * for a number that is not a syscall.
     */
    ghost predicate Valid()
      reads this, data
    {
      && WellFormed(table)
      && data.Length == WordCount(table)
      && IdsOf(First(table).id, data[..]) <= ListedIds(table)
    }

    /** The numbers of the syscalls in the set. */
    ghost function Ids(): (r: set<int>)
      reads this, data
      requires Valid()
      ensures r <= ListedIds(table)
    {
      IdsOf(First(table).id, data[..])
    }

    /** `SysnoSet::empty`. */
    constructor Empty(t: Table)
      requires WellFormed(t)
      ensures table == t && fresh(data)
      ensures Valid() && Ids() == {}
    {
      table := t;
      data := new Word[WordCount(t)](_ => 0);
      new;
      ZeroWordsIds(First(t).id, data[..]);
    }

    /** `SysnoSet::new`: the set of exactly the listed syscalls. */
    constructor New(t: Table, syscalls: seq<Sysno>)
      requires WellFormed(t)
      requires forall i :: 0 <= i < |syscalls| ==> Listed(t, syscalls[i].id)
      ensures table == t && fresh(data)
      ensures Valid() && Ids() == SysnoIds(syscalls)
    {
      table := t;
      data := new Word[WordCount(t)](_ => 0);
      new;
      ZeroWordsIds(First(t).id, data[..]);
      var i := 0;
      while i < |syscalls|
        invariant 0 <= i <= |syscalls|
        invariant Valid()
        invariant Ids() == SysnoIds(syscalls[..i])
      {
        var (idx, mask) := GetIdxMask(t, syscalls[i]);
        SetBitOf(idx, mask, syscalls[i]);
        SysnoIdsSnoc(syscalls, i);
        i := i + 1;
      }
      assert syscalls[..i] == syscalls;
    }

    /** `data[idx] |= mask` with the index and mask of `s`. */
    method SetBitOf(idx: nat, mask: Word, s: Sysno)
      requires Valid() && Listed(table, s.id) && (idx, mask) == GetIdxMask(table, s)
      modifies data
      ensures Valid() && Ids() == old(Ids()) + {s.id}
    {
      ghost var before := data[..];
      GetIdxMaskBit(table, s);
      BitwiseWords();
      data[idx] := Or(data[idx], mask);
      SetBitIds(First(table).id, before, idx, BitPos(table, s), data[idx], s.id);
      assert data[..] == before[idx := data[idx]];
      ListedInIds(table, s.id);
    }

    /** `SysnoSet::all`: every syscall of the table. */
    static method All(t: Table) returns (r: SysnoSet)
      requires WellFormed(t)
      ensures fresh(r) && fresh(r.data) && r.table == t
      ensures r.Valid() && r.Ids() == ListedIds(t)
      ensures |r.Ids()| == Syscalls.Count(t)
    {
      ListedIdsCount(t);
      AllIds(t);
      r := new SysnoSet.New(t, Syscalls.All(t));
    }

    /** `SysnoSet::contains`: `data[idx] & mask != 0`. */
    function Contains(s: Sysno): (r: bool)
      reads this, data
      requires Valid() && Listed(table, s.id)
      ensures r <==> s.id in Ids()
    {
      var (idx, mask) := GetIdxMask(table, s);
      MaskedWord(table, data[..], s);
      And(data[idx], mask) != 0
    }

    /** `SysnoSet::is_empty`: every word is zero. */
    function IsEmpty(): (r: bool)
      reads this, data
      requires Valid()
      ensures r <==> Ids() == {}
    {
      AllZeroIffNoIds(First(table).id, data[..]);
      AllZero(data[..])
    }

    /** `SysnoSet::count`: the sum of the words' `count_ones`. */
    function Count(): (r: nat)
      reads this, data
      requires Valid()
      ensures r == |Ids()|
    {
      SumOnesCounts(First(table).id, data[..]);
      SumOnes(data[..])
    }

    /** `SysnoSet::clear`: zeroes every word. */
    method Clear()
      requires Valid()
      modifies data
      ensures Valid() && Ids() == {}
    {
      for k := 0 to data.Length
        invariant forall m :: 0 <= m < k ==> data[m] == 0
      {
        data[k] := 0;
      }
      ZeroWordsIds(First(table).id, data[..]);
    }

    /** `SysnoSet::insert`: true exactly when `s` was not yet a member. */
    method Insert(s: Sysno) returns (added: bool)
      requires Valid() && Listed(table, s.id)
      modifies data
      ensures Valid() && Ids() == old(Ids()) + {s.id}
      ensures added <==> s.id !in old(Ids())
    {
      var (idx, mask) := GetIdxMask(table, s);
      MaskedWord(table, data[..], s);
      var oldValue := And(data[idx], mask);
      SetBitOf(idx, mask, s);
      added := oldValue == 0;
    }

    /** `SysnoSet::remove`: true exactly when `s` was a member. */
    method Remove(s: Sysno) returns (removed: bool)
      requires Valid() && Listed(table, s.id)
      modifies data
      ensures Valid() && Ids() == old(Ids()) - {s.id}
      ensures removed <==> s.id in old(Ids())
    {
      var (idx, mask) := GetIdxMask(table, s);
      MaskedWord(table, data[..], s);
      var oldValue := And(data[idx], mask);
      ghost var before := data[..];
      GetIdxMaskBit(table, s);
      AndNotBound(data[idx], mask);
      data[idx] := AndNot(data[idx], mask);
      ClearBitIds(First(table).id, before, idx, BitPos(table, s), data[idx], s.id);
      assert data[..] == before[idx := data[idx]];
      removed := oldValue != 0;
    }

    /** `SysnoSet::union`: `data[i] |= other.data[i]` for every word. */
    method Union(other: SysnoSet)
      requires Valid() && other.Valid() && other.table == table && other.data != data
      modifies data
      ensures Valid() && Ids() == old(Ids()) + old(other.Ids())
    {
      ghost var a, b := data[..], other.data[..];
      BitwiseWords();
      ZipInPlace(data, other.data, Or);
      UnionIds(First(table).id, a, b, data[..]);
    }

    /** `SysnoSet::intersection`: `data[i] &= other.data[i]` for every word. */
    method Intersection(other: SysnoSet)
      requires Valid() && other.Valid() && other.table == table && other.data != data
      modifies data
      ensures Valid() && Ids() == old(Ids()) * old(other.Ids())
    {
      ghost var a, b := data[..], other.data[..];
      BitwiseWords();
      ZipInPlace(data, other.data, And);
      IntersectionIds(First(table).id, a, b, data[..]);
    }

    /** `SysnoSet::difference`: `data[i] &= !other.data[i]` for every word. */
    method Difference(other: SysnoSet)
      requires Valid() && other.Valid() && other.table == table && other.data != data
      modifies data
      ensures Valid() && Ids() == old(Ids()) - old(other.Ids())
    {
      ghost var a, b := data[..], other.data[..];
      BitwiseWords();
      ZipInPlace(data, other.data, AndNot);
      DifferenceIds(First(table).id, a, b, data[..]);
    }

    /** `SysnoSet::symmetric_difference`: `data[i] ^= other.data[i]` for every word. */
    method SymmetricDifference(other: SysnoSet)
      requires Valid() && other.Valid() && other.table == table && other.data != data
      modifies data
      ensures Valid()
      ensures Ids() == (old(Ids()) - old(other.Ids())) + (old(other.Ids()) - old(Ids()))
    {
      ghost var a, b := data[..], other.data[..];
      BitwiseWords();
      ZipInPlace(data, other.data, Xor);
      SymmetricDifferenceIds(First(table).id, a, b, data[..]);
    }

    /** `SysnoSet::iter`. */
    method Iter() returns (it: SysnoSetIter)
      requires Valid()
      ensures fresh(it) && fresh(it.words)
      ensures it.Valid() && it.table == table && it.words.data == data
      ensures it.Pending() == Ascending(First(table).id, data[..], 0)
    {
      it := new SysnoSetIter(table, data);
    }
  }

  /** `NonZeroUsizeIter`: the non-zero words of the set, counting every word it passes. */
  class NonZeroWordIter {
    const data: array<Word>
    /** How many words have been consumed. */
    var count: nat

    ghost predicate Valid()
      reads this
    {
      count <= data.Length
    }

    constructor (data: array<Word>)
      ensures this.data == data && count == 0 && Valid()
    {
      this.data := data;
      count := 0;
    }

    /** The next non-zero word; every word skipped on the way is zero. */
    method Next() returns (r: Option<Word>)
      requires Valid()
      modifies this
      ensures Valid() && Fetched(data[..], old(count), r, count)
    {
      while count < data.Length
        invariant old(count) <= count <= data.Length
        invariant forall k :: old(count) <= k < count ==> data[k] == 0
      {
        var item := data[count];
        count := count + 1;
        if item != 0 {
          return Some(item);
        }
      }
      return None;
    }
  }

  /** `SysnoSetIter`: extracts the lowest set bit of the current word, word by word. */
  class SysnoSetIter {
    const table: Table
    const words: NonZeroWordIter
    /** The word being taken apart; `None` only once the words are exhausted. */
    var current: Option<Word>

    ghost predicate Valid()
      reads this, words, words.data
    {
      words.Valid() && IterInv(table, words.data[..], current, words.count)
    }

    /** The numbers still to be yielded, in the order they will be. */
    ghost function Pending(): (r: seq<int>)
      reads this, words, words.data
      requires Valid()
    {
      PendingOf(First(table).id, words.data[..], current, words.count)
    }

    /** `SysnoSetIter::new`: starts at the first non-zero word. */
    constructor (t: Table, data: array<Word>)
      requires WellFormed(t) && data.Length == WordCount(t) && IdsOf(First(t).id, data[..]) <= ListedIds(t)
      ensures fresh(words) && table == t && words.data == data
      ensures Valid() && Pending() == Ascending(First(t).id, data[..], 0)
    {
      table := t;
      var w := new NonZeroWordIter(data);
      var c := w.Next();
      words := w;
      current := c;
      new;
      IterStart(t, data[..], c, w.count);
    }

    /** `Iterator::next`: yields the first pending number and drops it. */
    method Next() returns (r: Option<Sysno>)
      requires Valid()
      modifies this, words
      ensures Valid()
      ensures old(Pending()) == [] ==> r == None && Pending() == []
      ensures old(Pending()) != [] ==> r == Some(Sysno(old(Pending())[0])) && Pending() == old(Pending())[1..]
    {
      if current.None? {
        return None;
      }
      ghost var ws := words.data[..];
      ghost var count := words.count;
      var word := current.value;
      var index := words.count - 1;
      var bit := TrailingZeros(word);
      TrailingZerosInWord(word);
      AndNotBound(word, Mask(bit));
      var nextWord := AndNot(word, Mask(bit));
      var offset := First(table).id;
      var id := index * 64 + bit + offset;
      if nextWord != 0 {
        current := Some(nextWord);
      } else {
        current := words.Next();
      }
      PeelLowest(word, offset + 64 * (count - 1), bit, nextWord, id);
      IterStep(table, ws, word, count, nextWord, id, current, words.count);
      r := Some(FromU32(table, id));
    }
  }
}
