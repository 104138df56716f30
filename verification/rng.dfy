/** The random number generator (`impl Rng`) as an explicit stream of draws.

    Each `gen_range(-1.0..1.0)` call takes the next real from the front of the stream.
    A finite stream stands for a prefix of the generator's output; a function that
    needs more draws than the prefix holds reports `None`. */
module Rng {

  type Draws = seq<real>

  /** A value together with the draws left after producing it. */
  datatype Sample<T> = Sample(value: T, rest: Draws)

  /** Every draw lies in the half-open range `[-1, 1)` of `gen_range(-1.0..1.0)`. */
  predicate InRange(d: Draws) {
    forall i :: 0 <= i < |d| ==> -1.0 <= d[i] < 1.0
  }

  /** `rest` is what is left of `d` after a non-empty prefix has been consumed. */
  predicate Consumed(d: Draws, rest: Draws) {
    |rest| < |d| && rest == d[|d| - |rest|..]
  }

  /** `rest` is what is left of `d` after a possibly empty prefix has been consumed. */
  predicate Remains(d: Draws, rest: Draws) {
    |rest| <= |d| && rest == d[|d| - |rest|..]
  }

  lemma RemainsTransitive(d: Draws, mid: Draws, rest: Draws)
    requires Remains(d, mid) && Remains(mid, rest)
    ensures Remains(d, rest)
  {
  }
}
