/** Stock result shapes shared by the other modules. */
module Prelude {
  datatype Option<+T> = None | Some(value: T)

  datatype Result<+T, +E> = Ok(value: T) | Err(error: E)

  /** Some number lies outside, and above, any finite set: a new id can always be generated. */
  lemma {:induction false} FreshNat(used: set<nat>) returns (c: nat)
    ensures c !in used && forall u | u in used :: u < c
  {
    if used == {} {
      c := 0;
    } else {
      var u :| u in used;
      var d := FreshNat(used - {u});
      c := if d > u then d else u + 1;
      forall v | v in used ensures v < c { assert v == u || v in used - {u}; }
    }
  }

  lemma {:induction false} DistinctSize<T>(xs: seq<T>)
    requires forall i, j | 0 <= i < j < |xs| :: xs[i] != xs[j]
    ensures |set x | x in xs| == |xs|
  {
    if xs != [] {
      var n := |xs| - 1;
      DistinctSize(xs[..n]);
      assert xs == xs[..n] + [xs[n]];
      assert (set x | x in xs) == (set x | x in xs[..n]) + {xs[n]};
    }
  }

  function SumOf<T>(rank: T -> nat, xs: seq<T>): nat {
    if xs == [] then 0 else rank(xs[0]) + SumOf(rank, xs[1..])
  }

  lemma {:induction false} SumOfUpdate<T>(rank: T -> nat, xs: seq<T>, i: nat, x: T)
    requires i < |xs|
    ensures SumOf(rank, xs[i := x]) == SumOf(rank, xs) - rank(xs[i]) + rank(x)
  {
    if i > 0 {
      assert xs[i := x][1..] == xs[1..][i - 1 := x];
      SumOfUpdate(rank, xs[1..], i - 1, x);
    } else {
      assert xs[i := x][1..] == xs[1..];
    }
  }

  lemma SomeElement(s: set<int>)
    requires s != {}
    ensures exists x: int :: x in s
  {
    assert (forall x: int :: x !in s) ==> s == {};
  }
}
