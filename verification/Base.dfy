/** Vocabulary shared by every module: optional values, results, bytes and concatenation. */
module Base {

  datatype Option<+T> = None | Some(value: T)

  datatype Result<+T, +E> = Success(value: T) | Failure(error: E)

  type byte = b: int | 0 <= b < 256

  /** All pieces, one after the other. */
  function Flatten<T>(pieces: seq<seq<T>>): seq<T> {
    if pieces == [] then [] else pieces[0] + Flatten(pieces[1..])
  }

  lemma {:induction false} FlattenConcat<T>(xs: seq<seq<T>>, ys: seq<seq<T>>)
    ensures Flatten(xs + ys) == Flatten(xs) + Flatten(ys)
  {
    if xs == [] {
      assert xs + ys == ys;
    } else {
      assert (xs + ys)[1..] == xs[1..] + ys;
      FlattenConcat(xs[1..], ys);
    }
  }

  lemma FlattenSnoc<T>(xs: seq<seq<T>>, y: seq<T>)
    ensures Flatten(xs + [y]) == Flatten(xs) + y
  {
    FlattenConcat(xs, [y]);
    assert Flatten([y]) == y + Flatten([]);
  }

  /** The first `k` pieces concatenate to a prefix of the whole. */
  lemma FlattenPrefix<T>(xs: seq<seq<T>>, k: nat)
    requires k <= |xs|
    ensures Flatten(xs[..k]) <= Flatten(xs)
    ensures Flatten(xs) == Flatten(xs[..k]) + Flatten(xs[k..])
  {
    FlattenConcat(xs[..k], xs[k..]);
    assert xs == xs[..k] + xs[k..];
  }

  // ---- Sequences regrouped ----

  lemma Associates<T>(a: seq<T>, b: seq<T>, c: seq<T>)
    ensures a + b + c == a + (b + c)
  {
  }

  lemma Regroup<T>(a: seq<T>, b: seq<T>, c: seq<T>, d: seq<T>)
    ensures a + (b + c) + d == (a + b) + (c + d)
  {
  }

  lemma PrefixCancels<T>(a: seq<T>, x: seq<T>, y: seq<T>)
    ensures a + x <= a + y <==> x <= y
  {
    assert (a + x)[|a|..] == x && (a + y)[|a|..] == y;
    if a + x <= a + y {
      assert forall i | 0 <= i < |x| :: x[i] == (a + x)[|a| + i] == (a + y)[|a| + i] == y[i];
    }
  }
}
