/**
 * Reading generated files back: a reader is a partial function from a line
 * to what it declares, and `Collect` gathers what a reader finds in a file,
 * line by line. The generators' output is built by `Flatten`ing the lines of
 * each table element; these lemmas split a reading along that structure.
 */
module LineReading {
  import opened Wrappers
  import opened Text

  /** What each element contributes, concatenated in order. */
  function Flatten<X, T>(t: seq<X>, f: X -> seq<T>): seq<T>
  {
    if |t| == 0 then [] else Flatten(t[..|t| - 1], f) + f(t[|t| - 1])
  }

  lemma FlattenSnoc<X, T>(t: seq<X>, i: nat, f: X -> seq<T>)
    requires i < |t|
    ensures Flatten(t[..i + 1], f) == Flatten(t[..i], f) + f(t[i])
  {
    assert t[..i + 1][..i] == t[..i];
  }

  lemma AppendAssoc<T>(a: seq<T>, b: seq<T>, c: seq<T>)
    ensures a + b + c == a + (b + c)
  {
  }

  /** What a reader finds in each line that `read` accepts, in order. */
  function Collect<T>(lines: seq<string>, read: string -> Option<T>): seq<T>
  {
    if |lines| == 0 then [] else Collect(lines[..|lines| - 1], read) + Found(lines[|lines| - 1], read)
  }

  function Found<T>(line: string, read: string -> Option<T>): seq<T>
  {
    if read(line).Some? then [read(line).value] else []
  }

  /** One more line adds what that line gives. */
  lemma CollectSnoc<T>(lines: seq<string>, i: nat, read: string -> Option<T>)
    requires i < |lines|
    ensures Collect(lines[..i + 1], read) == Collect(lines[..i], read) + Found(lines[i], read)
  {
    assert lines[..i + 1][..i] == lines[..i];
  }

  lemma {:induction false} CollectConcat<T>(a: seq<string>, b: seq<string>, read: string -> Option<T>)
    ensures Collect(a + b, read) == Collect(a, read) + Collect(b, read)
    decreases |b|
  {
    if |b| == 0 {
      assert a + b == a;
    } else {
      var n := |b| - 1;
      assert (a + b)[..|a + b| - 1] == a + b[..n];
      assert (a + b)[|a + b| - 1] == b[n];
      CollectConcat(a, b[..n], read);
    }
  }

  /** Reading the elements' lines is reading each element's lines in turn. */
  lemma {:induction false} CollectFlatten<X, T>(t: seq<X>, g: X -> seq<string>, read: string -> Option<T>, f: X -> seq<T>)
    requires forall i :: 0 <= i < |t| ==> Collect(g(t[i]), read) == f(t[i])
    ensures Collect(Flatten(t, g), read) == Flatten(t, f)
  {
    if |t| > 0 {
      var n := |t| - 1;
      assert forall i :: 0 <= i < n ==> t[..n][i] == t[i];
      CollectFlatten(t[..n], g, read, f);
      CollectConcat(Flatten(t[..n], g), g(t[n]), read);
    }
  }

  /**
   * A line of a generated file's header or footer: indented by fewer than
   * four spaces, or by four and not starting `LAST`. Enum items are indented
   * by eight.
   */
  predicate Framing(line: string)
  {
    |line| <= 4 || line[0] != ' ' || (line[4] != ' ' && line[4] != 'L')
  }

  /** Framing lines leave nothing for a reader that skips them. */
  lemma {:induction false} CollectNone<T>(lines: seq<string>, read: string -> Option<T>)
    requires forall i :: 0 <= i < |lines| ==> Framing(lines[i])
    requires forall line :: Framing(line) ==> read(line).None?
    ensures Collect(lines, read) == []
  {
    if |lines| > 0 {
      var n := |lines| - 1;
      assert forall i :: 0 <= i < n ==> lines[..n][i] == lines[i];
      CollectNone(lines[..n], read);
      assert Framing(lines[n]);
    }
  }

  lemma CollectParts<T>(h: seq<string>, m: seq<string>, f: seq<string>, read: string -> Option<T>)
    ensures Collect(h + m + f, read) == Collect(h, read) + Collect(m, read) + Collect(f, read)
  {
    CollectConcat(h, m, read);
    CollectConcat(h + m, f, read);
  }

  /** A line that starts with `p` has `p`'s characters. */
  lemma PrefixAt(line: string, p: string, k: nat)
    requires k < |p|
    ensures StartsWith(line, p) ==> line[k] == p[k]
  {
    if StartsWith(line, p) {
      assert line[k] == line[..|p|][k];
    }
  }

  lemma StartsWithConcat(p: string, x: string)
    ensures StartsWith(p + x, p)
  {
    assert (p + x)[..|p|] == p;
  }

  function Nothing<X, T>(x: X): seq<T>
  {
    []
  }

  lemma {:induction false} FlattenNothing<X, T>(t: seq<X>)
    ensures Flatten(t, Nothing<X, T>) == []
  {
    if |t| > 0 {
      FlattenNothing<X, T>(t[..|t| - 1]);
    }
  }

  lemma CollectTwo<T>(x: string, y: string, read: string -> Option<T>)
    ensures Collect([x, y], read) == Found(x, read) + Found(y, read)
  {
    assert [x, y][..1] == [x] && [x][..0] == [];
    assert Collect([x], read) == Found(x, read);
  }

}
