/**
  Row-by-row transformation of a table: every row becomes zero or more
  output rows, and the outputs are concatenated in row order.  The loader's
  passes are all of this shape.
 */
module Seqs {

  function FlatMap<T, U>(f: T -> seq<U>, xs: seq<T>): seq<U> {
    if xs == [] then [] else f(xs[0]) + FlatMap(f, xs[1..])
  }

  lemma FlatMapCons<T, U>(f: T -> seq<U>, x: T, t: seq<T>)
    ensures FlatMap(f, [x] + t) == f(x) + FlatMap(f, t)
  {
    assert ([x] + t)[0] == x && ([x] + t)[1..] == t;
  }

  lemma FlatMapSingle<T, U>(f: T -> seq<U>, x: T)
    ensures FlatMap(f, [x]) == f(x)
  {
    assert [x][1..] == [];
  }

  /** Transforming two blocks of rows gives the two transformed blocks, in order. */
  lemma {:induction false} FlatMapAppend<T, U>(f: T -> seq<U>, a: seq<T>, b: seq<T>)
    ensures FlatMap(f, a + b) == FlatMap(f, a) + FlatMap(f, b)
  {
    if a == [] {
      assert a + b == b;
    } else {
      var x, t := a[0], a[1..];
      assert a == [x] + t;
      assert a + b == [x] + (t + b);
      FlatMapCons(f, x, t + b);
      FlatMapCons(f, x, t);
      FlatMapAppend(f, t, b);
    }
  }

  /** An output row is produced exactly when some input row produces it. */
  lemma {:induction false} FlatMapMember<T, U>(f: T -> seq<U>, xs: seq<T>, y: U)
    ensures y in FlatMap(f, xs) <==> exists i :: 0 <= i < |xs| && y in f(xs[i])
  {
    if xs != [] {
      FlatMapMember(f, xs[1..], y);
      if y in FlatMap(f, xs[1..]) {
        var i :| 0 <= i < |xs[1..]| && y in f(xs[1..][i]);
        assert xs[i + 1] == xs[1..][i];
      }
      if exists i :: 0 <= i < |xs| && y in f(xs[i]) {
        var i :| 0 <= i < |xs| && y in f(xs[i]);
        if i > 0 {
          assert xs[1..][i - 1] == xs[i];
        }
      }
    }
  }

  /** A transformation that never expands a row never lengthens the table. */
  lemma {:induction false} FlatMapShrinks<T, U>(f: T -> seq<U>, xs: seq<T>)
    requires forall x :: |f(x)| <= 1
    ensures |FlatMap(f, xs)| <= |xs|
  {
    if xs != [] {
      FlatMapShrinks(f, xs[1..]);
    }
  }

  /** Two successive passes are one pass with the composed row transformation. */
  lemma {:induction false} FlatMapCompose<T, U, V>(f: T -> seq<U>, g: U -> seq<V>, h: T -> seq<V>, xs: seq<T>)
    requires forall x :: h(x) == FlatMap(g, f(x))
    ensures FlatMap(g, FlatMap(f, xs)) == FlatMap(h, xs)
  {
    if xs != [] {
      FlatMapCompose(f, g, h, xs[1..]);
      FlatMapAppend(g, f(xs[0]), FlatMap(f, xs[1..]));
    }
  }
}
