/** Two things several modules share. */
module Basics {
  datatype Option<+T> = None | Some(value: T)

  /** In a sequence without repetition every member occurs once. */
  lemma {:induction false} DistinctCount(xs: seq<nat>, x: nat)
    requires forall a, b | 0 <= a < b < |xs| :: xs[a] != xs[b]
    ensures multiset(xs)[x] == if x in xs then 1 else 0
  {
    if xs != [] {
      var front, last := xs[..|xs| - 1], xs[|xs| - 1];
      assert xs == front + [last];
      DistinctCount(front, x);
      assert forall a | 0 <= a < |front| :: front[a] == xs[a];
    }
  }
}
