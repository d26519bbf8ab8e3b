/** find_permutation: relabel the states of one labeling so that they agree
    as much as possible with another. */
module Alignment {
  import opened Labels
  import opened Overlap
  import opened Assignment

  /** The cost matrix -overlap handed to the solver. */
  function Negate(m: seq<seq<nat>>): seq<seq<int>> {
    seq(|m|, a requires 0 <= a < |m| => seq(|m[a]|, b requires 0 <= b < |m[a]| => -(m[a][b] as int)))
  }

  lemma {:induction false} NegatedCost(m: seq<seq<nat>>, p: seq<nat>)
    requires |p| <= |m| && forall i :: 0 <= i < |p| ==> p[i] < |m[i]|
    ensures Cost(Negate(m), p) == -Cost(m, p)
  {
    if p != [] {
      NegatedCost(m, p[..|p| - 1]);
    }
  }

  /** An assignment of least cost under -overlap has the greatest overlap. */
  lemma MaxOverlapFromMinCost(m: seq<seq<nat>>, k2: nat, cols: seq<nat>)
    requires Rectangular(m, k2) && IsAssignment(cols, |m|, k2)
    requires forall p {:trigger IsAssignment(p, |m|, k2)} :: IsAssignment(p, |m|, k2) ==> Cost(Negate(m), cols) <= Cost(Negate(m), p)
    ensures forall p {:trigger IsAssignment(p, |m|, k2)} :: IsAssignment(p, |m|, k2) ==> Cost(m, p) <= Cost(m, cols)
  {
    forall p | IsAssignment(p, |m|, k2) ensures Cost(m, p) <= Cost(m, cols) {
      NegatedCost(m, p);
      NegatedCost(m, cols);
    }
  }

  /** The columns below n that perm does not use, in ascending order. */
  function Unused(perm: seq<nat>, n: nat): seq<nat> {
    if n == 0 then []
    else Unused(perm, n - 1) + (if n - 1 in perm then [] else [n - 1])
  }

  lemma {:induction false} UnusedIsSetDifference(perm: seq<nat>, n: nat)
    ensures Distinct(Unused(perm, n))
    ensures forall c: nat :: c in Unused(perm, n) <==> c < n && c !in perm
  {
    if n > 0 {
      UnusedIsSetDifference(perm, n - 1);
    }
  }

  /** s holds every index 0..n-1 exactly once. */
  predicate IsPermutation(s: seq<nat>, n: nat) {
    && |s| == n
    && Distinct(s)
    && (forall k :: 0 <= k < |s| ==> s[k] < n)
    && (forall c: nat :: c < n ==> c in s)
  }

  /** Matched columns followed by the unused ones, in any order without
      repetition, make a permutation. */
  lemma PaddingIsPermutation(cols: seq<nat>, pad: seq<nat>, n: nat)
    requires IsAssignment(cols, |cols|, n)
    requires Distinct(pad) && forall c: nat :: c in pad <==> c < n && c !in cols
    ensures IsPermutation(cols + pad, n)
  {
    var s := cols + pad;
    forall a, b | 0 <= a < b < |s| ensures s[a] != s[b] {
      if a < |cols| <= b {
        assert s[b] == pad[b - |cols|];
        assert s[a] in cols;
      }
    }
    forall k | 0 <= k < |s| ensures s[k] < n {
      if k >= |cols| {
        assert s[k] == pad[k - |cols|] && pad[k - |cols|] in pad;
      }
    }
    forall c: nat | c < n ensures c in s {
      if c !in cols {
        assert c in pad;
      }
    }
    forall x | x in Elements(Range(n)) ensures x in Elements(s) {
      assert x in s;
    }
    forall x | x in Elements(s) ensures x in Elements(Range(n)) {
      var k :| 0 <= k < |s| && s[k] == x;
      assert Range(n)[x] == x;
    }
    assert Elements(s) == Elements(Range(n));
    DistinctCardinality(s);
    DistinctCardinality(Range(n));
  }

  /** find_permutation: on success, a permutation of the columns 0..K2-1 whose
      first K1 entries match rows with columns of greatest total overlap and
      whose remaining entries are the columns left unmatched. */
  function FindPermutation(z1: seq<int>, z2: seq<int>, k1Opt: Option<int>, k2Opt: Option<int>)
    : (r: Result<seq<nat>>)
    ensures var o := StateOverlap(z1, z2, k1Opt, k2Opt);
      r.Failure? <==> o.Failure? || o.value.k1 > o.value.k2
    ensures var o := StateOverlap(z1, z2, k1Opt, k2Opt);
      r.Failure? ==> r.error == if o.Failure? then o.error else TooManyStates
    ensures var o := StateOverlap(z1, z2, k1Opt, k2Opt);
      r.Success? ==>
        && IsPermutation(r.value, o.value.k2)
        && (forall p {:trigger IsAssignment(p, o.value.k1, o.value.k2)} :: IsAssignment(p, o.value.k1, o.value.k2) ==>
              Cost(o.value.counts, p) <= Cost(o.value.counts, r.value[..o.value.k1]))
        && (forall c: nat :: c in r.value[o.value.k1..] <==>
              c < o.value.k2 && c !in r.value[..o.value.k1])
  {
    match StateOverlap(z1, z2, k1Opt, k2Opt)
    case Failure(e) => Failure(e)
    case Success(t) =>
      if t.k1 > t.k2 then Failure(TooManyStates)
      else
        var (rowInd, cols) := LinearSumAssignment(Negate(t.counts), t.k2);
        if rowInd != Range(t.k1) then Failure(UnmatchedRows)
        else
          MaxOverlapFromMinCost(t.counts, t.k2, cols);
          UnusedIsSetDifference(cols, t.k2);
          PaddingIsPermutation(cols, Unused(cols, t.k2), t.k2);
          var perm := cols + Unused(cols, t.k2);
          assert perm[..t.k1] == cols && perm[t.k1..] == Unused(cols, t.k2);
          if t.k1 < t.k2 then Success(perm)
          else
            assert perm == cols;
            Success(cols)
  }

  // ---------------------------------------------------------------------------
  // Aligning a labeling with itself

  lemma {:induction false} EntryAtMostSum(s: seq<nat>, j: nat)
    requires j < |s|
    ensures s[j] <= Sum(s)
  {
    if j < |s| - 1 {
      EntryAtMostSum(s[..|s| - 1], j);
    }
  }

  /** The overlap of an assignment is at most the sum of the rows it covers,
      with equality exactly when each row's matched entry is its whole sum. */
  lemma {:induction false} CostAtMostTotal(m: seq<seq<nat>>, p: seq<nat>)
    requires |p| <= |m| && forall i :: 0 <= i < |p| ==> p[i] < |m[i]|
    ensures Cost(m, p) <= TotalSum(m[..|p|])
    ensures Cost(m, p) == TotalSum(m[..|p|]) <==> forall i :: 0 <= i < |p| ==> m[i][p[i]] == Sum(m[i])
  {
    if p != [] {
      var n := |p| - 1;
      CostAtMostTotal(m, p[..n]);
      EntryAtMostSum(m[n], p[n]);
      assert m[..|p|][..n] == m[..n];
    }
  }

  lemma {:induction false} DiagonalCount(z: seq<int>, a: int)
    ensures CoCount(z, z, a, a) == multiset(z)[a]
  {
    if |z| > 0 {
      var n := |z| - 1;
      DiagonalCount(z[..n], a);
      assert z == z[..n] + [z[n]];
    }
  }

  lemma {:induction false} OffDiagonalCount(z: seq<int>, a: int, b: int)
    requires a != b
    ensures CoCount(z, z, a, b) == 0
  {
    if |z| > 0 {
      OffDiagonalCount(z[..|z| - 1], a, b);
    }
  }

  /** In the table of a labeling against itself, a greatest-overlap
      assignment covers every time step. */
  lemma OptimalSelfCost(z: seq<int>, k: nat, perm: seq<nat>)
    requires NonNegative(z) && AllBelow(z, k) && IsAssignment(perm, k, k)
    requires forall p {:trigger IsAssignment(p, k, k)} :: IsAssignment(p, k, k) ==> Cost(Counts(z, z, k, k), p) <= Cost(Counts(z, z, k, k), perm)
    ensures Cost(Counts(z, z, k, k), perm) == |z|
  {
    var m := Counts(z, z, k, k);
    assert m[..k] == m;
    TotalSumIsLength(z, z, k, k);
    CostAtMostTotal(m, perm);
    forall i | 0 <= i < k ensures m[i][Range(k)[i]] == Sum(m[i]) {
      DiagonalCount(z, i);
      RowTotals(z, z, k, k, i);
    }
    CostAtMostTotal(m, Range(k));
    assert IsAssignment(Range(k), k, k);
  }

  /** No two of the states 0..k-1 are both missing from the labeling. */
  predicate AtMostOneAbsent(z: seq<int>, k: nat) {
    forall a, b :: 0 <= a < b < k ==> a in z || b in z
  }

  /** ... and when at most one state is missing, the identity is the only
      such assignment: every occurring state keeps its own column, which
      leaves the missing state only its own. */
  lemma OptimalSelfIsIdentity(z: seq<int>, k: nat, perm: seq<nat>)
    requires NonNegative(z) && AllBelow(z, k) && IsAssignment(perm, k, k)
    requires Cost(Counts(z, z, k, k), perm) == |z|
    requires AtMostOneAbsent(z, k)
    ensures perm == Range(k)
  {
    var m := Counts(z, z, k, k);
    assert m[..k] == m;
    TotalSumIsLength(z, z, k, k);
    CostAtMostTotal(m, perm);
    forall i | 0 <= i < k && i in z ensures perm[i] == i {
      RowTotals(z, z, k, k, i);
      assert m[i][perm[i]] == multiset(z)[i] > 0;
      if perm[i] != i {
        OffDiagonalCount(z, i, perm[i]);
      }
    }
    forall i | 0 <= i < k ensures perm[i] == i {
      var c := perm[i];
      if c != i {
        assert i in z || c in z by {
          if i < c {
            assert i in z || c in z;
          } else {
            assert c in z || i in z;
          }
        }
        assert false;
      }
    }
  }

  /** Conversely, when two states a < b are both missing, exchanging their
      columns yields another assignment with full overlap, so the solver may
      return a permutation other than the identity. */
  lemma TwoAbsentAllowSwap(z: seq<int>, k: nat, a: nat, b: nat)
    requires NonNegative(z) && AllBelow(z, k)
    requires a < b < k && a !in z && b !in z
    ensures var p := Range(k)[a := b][b := a];
      && IsAssignment(p, k, k) && p != Range(k)
      && Cost(Counts(z, z, k, k), p) == |z|
  {
    var m := Counts(z, z, k, k);
    var p := Range(k)[a := b][b := a];
    assert m[..k] == m;
    TotalSumIsLength(z, z, k, k);
    CostAtMostTotal(m, p);
    forall i | 0 <= i < k ensures m[i][p[i]] == Sum(m[i]) {
      RowTotals(z, z, k, k, i);
      if i == a || i == b {
        OffDiagonalCount(z, i, p[i]);
      } else {
        DiagonalCount(z, i);
      }
    }
    assert p[a] != Range(k)[a];
  }

  /** Aligning a labeling with itself, with the same number of states on both
      sides and every label inside the table, reaches an overlap equal to the
      length of the labeling: every time step agrees. */
  lemma SelfAlignmentOverlap(z: seq<int>, kOpt: Option<int>)
    requires StateOverlap(z, z, kOpt, kOpt).Success?
    requires kOpt.Some? ==> AllBelow(z, kOpt.value)
    ensures FindPermutation(z, z, kOpt, kOpt).Success?
    ensures var t := StateOverlap(z, z, kOpt, kOpt).value;
      Cost(t.counts, FindPermutation(z, z, kOpt, kOpt).value[..t.k1]) == |z|
  {
    var t := StateOverlap(z, z, kOpt, kOpt).value;
    var perm := FindPermutation(z, z, kOpt, kOpt).value;
    assert perm[..t.k1] == perm;
    OptimalSelfCost(z, t.k1, perm);
  }

  /** When moreover at most one state 0..K-1 is missing from the labeling,
      the alignment of a labeling with itself is the identity. */
  lemma SelfAlignmentIsIdentity(z: seq<int>, kOpt: Option<int>)
    requires StateOverlap(z, z, kOpt, kOpt).Success?
    requires kOpt.Some? ==> AllBelow(z, kOpt.value)
    requires AtMostOneAbsent(z, StateOverlap(z, z, kOpt, kOpt).value.k1)
    ensures FindPermutation(z, z, kOpt, kOpt) == Success(Range(StateOverlap(z, z, kOpt, kOpt).value.k1))
  {
    var t := StateOverlap(z, z, kOpt, kOpt).value;
    SelfAlignmentOverlap(z, kOpt);
    var perm := FindPermutation(z, z, kOpt, kOpt).value;
    assert perm[..t.k1] == perm;
    OptimalSelfIsIdentity(z, t.k1, perm);
  }
}
