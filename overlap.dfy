/** compute_state_overlap: the K1 x K2 contingency table of two labelings of
    the same time series. */
module Overlap {
  import opened Labels

  /** Number of time steps t with z1[t] == a and z2[t] == b: the count that
      np.sum((z1 == a) & (z2 == b)) returns. */
  function CoCount(z1: seq<int>, z2: seq<int>, a: int, b: int): nat
    requires |z1| == |z2|
  {
    if |z1| == 0 then 0
    else
      var n := |z1| - 1;
      CoCount(z1[..n], z2[..n], a, b) + (if z1[n] == a && z2[n] == b then 1 else 0)
  }

  /** The time steps CoCount counts, as a set. */
  ghost function Positions(z1: seq<int>, z2: seq<int>, a: int, b: int): set<int>
    requires |z1| == |z2|
  {
    set t | 0 <= t < |z1| && z1[t] == a && z2[t] == b
  }

  lemma {:induction false} CoCountIsCardinality(z1: seq<int>, z2: seq<int>, a: int, b: int)
    requires |z1| == |z2|
    ensures CoCount(z1, z2, a, b) == |Positions(z1, z2, a, b)|
  {
    if |z1| > 0 {
      var n := |z1| - 1;
      CoCountIsCardinality(z1[..n], z2[..n], a, b);
      assert Positions(z1, z2, a, b) ==
        Positions(z1[..n], z2[..n], a, b) + (if z1[n] == a && z2[n] == b then {n} else {});
    }
  }

  /** Row a of the table: the counts of (a, b) for every column b < k2. */
  function Row(z1: seq<int>, z2: seq<int>, a: int, k2: nat): seq<nat>
    requires |z1| == |z2|
  {
    seq(k2, b => CoCount(z1, z2, a, b))
  }

  /** The k1 x k2 table the two nested loops fill in. */
  function Counts(z1: seq<int>, z2: seq<int>, k1: nat, k2: nat): seq<seq<nat>>
    requires |z1| == |z2|
  {
    seq(k1, a => Row(z1, z2, a, k2))
  }

  /** The shape of an overlap matrix together with its entries. */
  datatype Table = Table(k1: nat, k2: nat, counts: seq<seq<nat>>)

  predicate Shaped(t: Table) {
    |t.counts| == t.k1 && forall a :: 0 <= a < t.k1 ==> |t.counts[a]| == t.k2
  }

  /** The number of states of one labeling: the K given by the caller, or
      one more than the largest label. */
  function Bound(z: seq<int>, kOpt: Option<int>): int
    requires |z| > 0
  {
    match kOpt
    case Some(k) => k
    case None => Max(z) + 1
  }

  /** The argument checks and the default state counts of compute_state_overlap,
      with the negative-dimension fault of np.zeros. */
  function ResolveShape(z1: seq<int>, z2: seq<int>, k1Opt: Option<int>, k2Opt: Option<int>)
    : (r: Result<(nat, nat)>)
    ensures r.Success? <==>
      && |z1| == |z2| && |z1| > 0
      && NonNegative(z1) && NonNegative(z2)
      && (k1Opt.Some? ==> k1Opt.value >= 0) && (k2Opt.Some? ==> k2Opt.value >= 0)
    ensures r.Failure? && |z1| != |z2| ==> r.error == ShapeMismatch
    ensures r.Failure? && |z1| == |z2| && |z1| == 0 ==> r.error == EmptyLabels
    ensures r.Failure? && |z1| == |z2| > 0 && !(NonNegative(z1) && NonNegative(z2)) ==>
      r.error == NegativeLabel
    ensures r.Failure? && |z1| == |z2| > 0 && NonNegative(z1) && NonNegative(z2) ==>
      r.error == NegativeDimension
    ensures r.Success? && k1Opt.Some? ==> r.value.0 == k1Opt.value
    ensures r.Success? && k2Opt.Some? ==> r.value.1 == k2Opt.value
    // a default state count covers every label and is the least that does
    ensures r.Success? && k1Opt.None? ==>
      AllBelow(z1, r.value.0) && exists t :: 0 <= t < |z1| && z1[t] == r.value.0 - 1
    ensures r.Success? && k2Opt.None? ==>
      AllBelow(z2, r.value.1) && exists t :: 0 <= t < |z2| && z2[t] == r.value.1 - 1
  {
    if |z1| != |z2| then Failure(ShapeMismatch)
    else if |z1| == 0 then Failure(EmptyLabels)
    else if !(NonNegative(z1) && NonNegative(z2)) then Failure(NegativeLabel)
    else
      var k1 := Bound(z1, k1Opt);
      var k2 := Bound(z2, k2Opt);
      if k1 < 0 || k2 < 0 then Failure(NegativeDimension)
      else Success((k1, k2))
  }

  lemma CountsAreCardinalities(z1: seq<int>, z2: seq<int>, k1: nat, k2: nat)
    requires |z1| == |z2|
    ensures forall a, b :: 0 <= a < k1 && 0 <= b < k2 ==>
      Counts(z1, z2, k1, k2)[a][b] == |Positions(z1, z2, a, b)|
  {
    forall a, b | 0 <= a < k1 && 0 <= b < k2
      ensures Counts(z1, z2, k1, k2)[a][b] == |Positions(z1, z2, a, b)|
    {
      CoCountIsCardinality(z1, z2, a, b);
    }
  }

  /** compute_state_overlap as a value: the faults of the argument checks, or
      the table whose entry [a][b] counts the steps labelled a by z1 and b by z2. */
  function StateOverlap(z1: seq<int>, z2: seq<int>, k1Opt: Option<int>, k2Opt: Option<int>)
    : (r: Result<Table>)
    ensures r.Failure? <==> ResolveShape(z1, z2, k1Opt, k2Opt).Failure?
    ensures r.Failure? ==> r.error == ResolveShape(z1, z2, k1Opt, k2Opt).error
    ensures r.Success? ==>
      && Shaped(r.value)
      && (r.value.k1, r.value.k2) == ResolveShape(z1, z2, k1Opt, k2Opt).value
      && r.value.counts == Counts(z1, z2, r.value.k1, r.value.k2)
      && forall a, b :: 0 <= a < r.value.k1 && 0 <= b < r.value.k2 ==>
           r.value.counts[a][b] == |Positions(z1, z2, a, b)|
  {
    match ResolveShape(z1, z2, k1Opt, k2Opt)
    case Failure(e) => Failure(e)
    case Success(shape) =>
      CountsAreCardinalities(z1, z2, shape.0, shape.1);
      Success(Table(shape.0, shape.1, Counts(z1, z2, shape.0, shape.1)))
  }

  /** The array holds exactly the table's shape and entries. */
  predicate Represents(m: array2<nat>, t: Table)
    reads m
  {
    && Shaped(t)
    && m.Length0 == t.k1 && m.Length1 == t.k2
    && forall a, b :: 0 <= a < t.k1 && 0 <= b < t.k2 ==> m[a, b] == t.counts[a][b]
  }

  /** compute_state_overlap as the code runs it: a zero-filled K1 x K2 array whose
      cells are written one by one in nested loops. */
  method ComputeStateOverlap(z1: seq<int>, z2: seq<int>, k1Opt: Option<int>, k2Opt: Option<int>)
    returns (r: Result<array2<nat>>)
    ensures r.Failure? ==> StateOverlap(z1, z2, k1Opt, k2Opt) == Failure(r.error)
    ensures r.Success? ==>
      && StateOverlap(z1, z2, k1Opt, k2Opt).Success?
      && fresh(r.value)
      && Represents(r.value, StateOverlap(z1, z2, k1Opt, k2Opt).value)
  {
    var shape := ResolveShape(z1, z2, k1Opt, k2Opt);
    if shape.Failure? {
      return Failure(shape.error);
    }
    var k1, k2 := shape.value.0, shape.value.1;
    var overlap := new nat[k1, k2];
    for a := 0 to k1
      invariant forall i, j :: 0 <= i < a && 0 <= j < k2 ==> overlap[i, j] == CoCount(z1, z2, i, j)
    {
      for b := 0 to k2
        invariant forall i, j :: 0 <= i < a && 0 <= j < k2 ==> overlap[i, j] == CoCount(z1, z2, i, j)
        invariant forall j :: 0 <= j < b ==> overlap[a, j] == CoCount(z1, z2, a, j)
      {
        overlap[a, b] := CoCount(z1, z2, a, b);
      }
    }
    return Success(overlap);
  }

  // ---------------------------------------------------------------------------
  // Row, column and grand totals of the table

  function Sum(s: seq<nat>): nat {
    if s == [] then 0 else Sum(s[..|s| - 1]) + s[|s| - 1]
  }

  function TotalSum(m: seq<seq<nat>>): nat {
    if m == [] then 0 else TotalSum(m[..|m| - 1]) + Sum(m[|m| - 1])
  }

  /** Column b of a matrix. */
  function Column(m: seq<seq<nat>>, b: nat): seq<nat>
    requires forall a :: 0 <= a < |m| ==> b < |m[a]|
  {
    seq(|m|, a requires 0 <= a < |m| => m[a][b])
  }

  lemma SumOfZeros(s: seq<nat>)
    requires forall i :: 0 <= i < |s| ==> s[i] == 0
    ensures Sum(s) == 0
  {
    if s != [] {
      SumOfZeros(s[..|s| - 1]);
    }
  }

  /** The table of two empty labelings sums to zero. */
  lemma EmptyTotalSum(z1: seq<int>, z2: seq<int>, k1: nat, k2: nat)
    requires |z1| == |z2| == 0
    ensures TotalSum(Counts(z1, z2, k1, k2)) == 0
  {
    if k1 > 0 {
      EmptyTotalSum(z1, z2, k1 - 1, k2);
      assert Counts(z1, z2, k1, k2)[..k1 - 1] == Counts(z1, z2, k1 - 1, k2);
      SumOfZeros(Row(z1, z2, k1 - 1, k2));
    }
  }

  /** Appending one time step adds one to row a's sum exactly when that step
      is labelled a by z1 and with a column below k2 by z2. */
  lemma {:induction false} RowSumStep(z1: seq<int>, z2: seq<int>, a: int, k2: nat)
    requires |z1| == |z2| > 0
    ensures var n := |z1| - 1;
      Sum(Row(z1, z2, a, k2)) ==
      Sum(Row(z1[..n], z2[..n], a, k2)) + (if z1[n] == a && 0 <= z2[n] < k2 then 1 else 0)
  {
    if k2 > 0 {
      var n := |z1| - 1;
      RowSumStep(z1, z2, a, k2 - 1);
      assert Row(z1, z2, a, k2)[..k2 - 1] == Row(z1, z2, a, k2 - 1);
      assert Row(z1[..n], z2[..n], a, k2)[..k2 - 1] == Row(z1[..n], z2[..n], a, k2 - 1);
    }
  }

  /** When every z2 label is a column of the table, row a sums to the number
      of occurrences of a in z1. */
  lemma {:induction false} RowSumIsLabelCount(z1: seq<int>, z2: seq<int>, a: int, k2: nat)
    requires |z1| == |z2| && NonNegative(z2) && AllBelow(z2, k2)
    ensures Sum(Row(z1, z2, a, k2)) == multiset(z1)[a]
  {
    if |z1| == 0 {
      SumOfZeros(Row(z1, z2, a, k2));
    } else {
      var n := |z1| - 1;
      RowSumStep(z1, z2, a, k2);
      RowSumIsLabelCount(z1[..n], z2[..n], a, k2);
      assert z1 == z1[..n] + [z1[n]];
    }
  }

  lemma {:induction false} CoCountTranspose(z1: seq<int>, z2: seq<int>, a: int, b: int)
    requires |z1| == |z2|
    ensures CoCount(z1, z2, a, b) == CoCount(z2, z1, b, a)
  {
    if |z1| > 0 {
      var n := |z1| - 1;
      CoCountTranspose(z1[..n], z2[..n], a, b);
    }
  }

  /** Row a of the table sums to the occurrences of a in z1. */
  lemma RowTotals(z1: seq<int>, z2: seq<int>, k1: nat, k2: nat, a: nat)
    requires |z1| == |z2| && NonNegative(z2) && AllBelow(z2, k2) && a < k1
    ensures Sum(Counts(z1, z2, k1, k2)[a]) == multiset(z1)[a]
  {
    RowSumIsLabelCount(z1, z2, a, k2);
  }

  /** Column b of the table sums to the occurrences of b in z2. */
  lemma ColumnTotals(z1: seq<int>, z2: seq<int>, k1: nat, k2: nat, b: nat)
    requires |z1| == |z2| && NonNegative(z1) && AllBelow(z1, k1) && b < k2
    ensures Sum(Column(Counts(z1, z2, k1, k2), b)) == multiset(z2)[b]
  {
    forall a | 0 <= a < k1 ensures Column(Counts(z1, z2, k1, k2), b)[a] == Row(z2, z1, b, k1)[a] {
      CoCountTranspose(z1, z2, a, b);
    }
    assert Column(Counts(z1, z2, k1, k2), b) == Row(z2, z1, b, k1);
    RowSumIsLabelCount(z2, z1, b, k1);
  }

  /** Appending one time step adds one to the grand total exactly when both
      of its labels fall inside the table. */
  lemma {:induction false} TotalSumStep(z1: seq<int>, z2: seq<int>, k1: nat, k2: nat)
    requires |z1| == |z2| > 0
    ensures var n := |z1| - 1;
      TotalSum(Counts(z1, z2, k1, k2)) ==
      TotalSum(Counts(z1[..n], z2[..n], k1, k2)) + (if 0 <= z1[n] < k1 && 0 <= z2[n] < k2 then 1 else 0)
  {
    if k1 > 0 {
      var n := |z1| - 1;
      RowSumStep(z1, z2, k1 - 1, k2);
      TotalSumStep(z1, z2, k1 - 1, k2);
      assert Counts(z1, z2, k1, k2)[..k1 - 1] == Counts(z1, z2, k1 - 1, k2);
      assert Counts(z1[..n], z2[..n], k1, k2)[..k1 - 1] == Counts(z1[..n], z2[..n], k1 - 1, k2);
    }
  }

  /** When every label lies inside the table, its entries sum to the length
      of the labelings. */
  lemma {:induction false} TotalSumIsLength(z1: seq<int>, z2: seq<int>, k1: nat, k2: nat)
    requires |z1| == |z2|
    requires NonNegative(z1) && AllBelow(z1, k1) && NonNegative(z2) && AllBelow(z2, k2)
    ensures TotalSum(Counts(z1, z2, k1, k2)) == |z1|
  {
    if |z1| == 0 {
      EmptyTotalSum(z1, z2, k1, k2);
    } else {
      var n := |z1| - 1;
      TotalSumStep(z1, z2, k1, k2);
      TotalSumIsLength(z1[..n], z2[..n], k1, k2);
    }
  }

  /** With the default state counts every label lies inside the table, so the
      table sums to the length of the labelings and its rows and columns to
      the label frequencies. */
  lemma DefaultTotals(z1: seq<int>, z2: seq<int>)
    requires StateOverlap(z1, z2, None, None).Success?
    ensures var t := StateOverlap(z1, z2, None, None).value;
      && TotalSum(t.counts) == |z1|
      && (forall a :: 0 <= a < t.k1 ==> Sum(t.counts[a]) == multiset(z1)[a])
      && (forall b :: 0 <= b < t.k2 ==> Sum(Column(t.counts, b)) == multiset(z2)[b])
  {
    var t := StateOverlap(z1, z2, None, None).value;
    TotalSumIsLength(z1, z2, t.k1, t.k2);
    forall a | 0 <= a < t.k1 ensures Sum(t.counts[a]) == multiset(z1)[a] {
      RowTotals(z1, z2, t.k1, t.k2, a);
    }
    forall b | 0 <= b < t.k2 ensures Sum(Column(t.counts, b)) == multiset(z2)[b] {
      ColumnTotals(z1, z2, t.k1, t.k2, b);
    }
  }
}
