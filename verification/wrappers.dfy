/** Failure-carrying result types shared by every puzzle module. */
module Wrappers {

  /** A value that may be missing: Rust's `Option`. */
  datatype Option<+T> = None | Some(value: T)

  /**
    The outcome of code that may panic. `Panic` stands for every abort the
    Rust code can reach: an `unwrap`/`expect` on a missing value, an index
    out of bounds, a `panic!` arm, or a loop that would never end.
  */
  datatype Outcome<+T> = Done(value: T) | Panic

  function Min(a: int, b: int): int { if a <= b then a else b }
  function Max(a: int, b: int): int { if a >= b then a else b }
  function Abs(a: int): nat { if a >= 0 then a else -a }

  /**
    `collect::<Option<Vec<_>>>()` over a mapped sequence: every element
    converted, or nothing when some element fails.
  */
  function Collect<A, B>(xs: seq<A>, f: A -> Option<B>): (r: Option<seq<B>>)
    ensures r.Some? <==> forall i :: 0 <= i < |xs| ==> f(xs[i]).Some?
    ensures r.Some? ==> |r.value| == |xs| && forall i :: 0 <= i < |xs| ==> f(xs[i]) == Some(r.value[i])
  {
    if |xs| == 0 then Some([])
    else
      var head, rest := f(xs[0]), Collect(xs[1..], f);
      assert forall i :: 1 <= i < |xs| ==> xs[1..][i - 1] == xs[i];
      if head.None? || rest.None? then None else Some([head.value] + rest.value)
  }
}
