/** Shared vocabulary of the label-alignment model: the faults the routines
    raise, label-sequence predicates, and small facts about index sequences. */
module Labels {

  datatype Option<T> = None | Some(value: T)

  datatype Result<T> = Success(value: T) | Failure(error: Error)

  /** The faults raised by compute_state_overlap and find_permutation. */
  datatype Error =
    | ShapeMismatch      // the two label arrays differ in shape
    | EmptyLabels        // min() of an empty label array has no identity
    | NegativeLabel      // some label is below zero
    | NegativeDimension  // an explicit K1 or K2 is negative, so np.zeros refuses it
    | TooManyStates      // the overlap has more rows than columns
    | UnmatchedRows      // the assignment solver did not match every row

  predicate NonNegative(s: seq<int>) {
    forall t :: 0 <= t < |s| ==> s[t] >= 0
  }

  predicate AllBelow(s: seq<int>, k: int) {
    forall t :: 0 <= t < |s| ==> s[t] < k
  }

  /** The largest label (numpy's max reduction). */
  function Max(s: seq<int>): (m: int)
    requires |s| > 0
    ensures forall t :: 0 <= t < |s| ==> s[t] <= m
    ensures exists t :: 0 <= t < |s| && s[t] == m
  {
    if |s| == 1 then s[0]
    else
      var m' := Max(s[..|s| - 1]);
      assert forall t :: 0 <= t < |s| - 1 ==> s[..|s| - 1][t] == s[t];
      if s[|s| - 1] > m' then s[|s| - 1] else m'
  }

  /** np.arange(n). */
  function Range(n: nat): seq<nat> {
    seq(n, i => i)
  }

  predicate Distinct(s: seq<nat>) {
    forall a, b :: 0 <= a < b < |s| ==> s[a] != s[b]
  }

  function Elements(s: seq<nat>): set<nat> {
    set x | x in s
  }

  /** A sequence without repetitions has as many elements as its set. */
  lemma {:induction false} DistinctCardinality(s: seq<nat>)
    requires Distinct(s)
    ensures |Elements(s)| == |s|
  {
    if s != [] {
      var n := |s| - 1;
      DistinctCardinality(s[..n]);
      assert s == s[..n] + [s[n]];
      assert Elements(s) == Elements(s[..n]) + {s[n]};
      assert s[n] !in Elements(s[..n]);
    }
  }
}
