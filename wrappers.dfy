/** Option and Result values for the source's optional values and raised exceptions. */
module Wrappers {

  datatype Option<+T> = None | Some(value: T)

  /** A call that either returns a value or raises an error. */
  datatype Result<+T, +E> = Success(value: T) | Failure(error: E)

  /** The present values of `xs`, in order. */
  function Somes<T>(xs: seq<Option<T>>): seq<T>
  {
    if xs == [] then []
    else
      var before := Somes(xs[..|xs| - 1]);
      match xs[|xs| - 1]
      case None => before
      case Some(v) => before + [v]
  }

  /** Every value kept comes from some position of `xs`. */
  lemma {:induction false} SomesFrom<T>(xs: seq<Option<T>>, v: T)
    requires v in Somes(xs)
    ensures exists i :: 0 <= i < |xs| && xs[i] == Some(v)
  {
    var n := |xs| - 1;
    var before := Somes(xs[..n]);
    if v in before {
      SomesFrom(xs[..n], v);
      var i :| 0 <= i < n && xs[..n][i] == Some(v);
      assert xs[i] == Some(v);
    } else {
      assert xs[n] == Some(v);
    }
  }

  /** Nothing is kept iff every position is absent. */
  lemma {:induction false} SomesEmpty<T>(xs: seq<Option<T>>)
    ensures Somes(xs) == [] <==> forall i :: 0 <= i < |xs| ==> xs[i].None?
  {
    if xs != [] {
      var n := |xs| - 1;
      SomesEmpty(xs[..n]);
      if Somes(xs) == [] {
        forall i | 0 <= i < |xs| ensures xs[i].None? {
          if i < n {
            assert xs[i] == xs[..n][i];
          }
        }
      } else if xs[n].None? {
        var i :| 0 <= i < n && xs[..n][i].Some?;
        assert xs[i] == xs[..n][i];
      }
    }
  }

  /** The last value kept sits at a position `i` after which everything is absent. */
  lemma {:induction false} SomesLast<T>(xs: seq<Option<T>>) returns (i: nat)
    requires Somes(xs) != []
    ensures i < |xs| && xs[i] == Some(Somes(xs)[|Somes(xs)| - 1])
    ensures forall j :: i < j < |xs| ==> xs[j].None?
  {
    var n := |xs| - 1;
    var before := Somes(xs[..n]);
    match xs[n]
    case None =>
      i := SomesLast(xs[..n]);
      assert xs[i] == xs[..n][i];
      forall j | i < j < |xs| ensures xs[j].None? {
        if j < n {
          assert xs[j] == xs[..n][j];
        }
      }
    case Some(v) =>
      i := n;
  }
}
