/** Two concrete alignments, worked through the model. */
module AlignmentExamples {
  import opened Labels
  import opened Overlap
  import opened Assignment
  import opened Alignment

  lemma SwappedCounts()
    ensures Counts([0, 0, 1, 1], [1, 1, 0, 0], 2, 2) == [[0, 2], [2, 0]]
  {
    var z1, z2 := [0, 0, 1, 1], [1, 1, 0, 0];
    var m := Counts(z1, z2, 2, 2);
    assert z1[..3] == [0, 0, 1] && z1[..3][..2] == [0, 0] && [0, 0][..1] == [0];
    assert z2[..3] == [1, 1, 0] && z2[..3][..2] == [1, 1] && [1, 1][..1] == [1];
    assert [0][..0] == [] && [1][..0] == [];
    forall a, b | 0 <= a < 2 && 0 <= b < 2
      ensures CoCount(z1, z2, a, b) == if a != b then 2 else 0
    {
      assert CoCount([0], [1], a, b) == if a == 0 && b == 1 then 1 else 0;
      assert CoCount([0, 0], [1, 1], a, b) == if a == 0 && b == 1 then 2 else 0;
      assert CoCount([0, 0, 1], [1, 1, 0], a, b) ==
        if a == 0 && b == 1 then 2 else if a == 1 && b == 0 then 1 else 0;
    }
    assert m[0] == Row(z1, z2, 0, 2) && m[1] == Row(z1, z2, 1, 2);
    assert m[0] == [0, 2] && m[1] == [2, 0];
  }

  /** Two labelings that differ only in the names of their states have an
      anti-diagonal overlap ... */
  lemma SwappedOverlap()
    ensures StateOverlap([0, 0, 1, 1], [1, 1, 0, 0], None, None) == Success(Table(2, 2, [[0, 2], [2, 0]]))
  {
    assert Max([0, 0, 1, 1]) == 1 && Max([1, 1, 0, 0]) == 1;
    SwappedCounts();
  }

  /** The cost of an assignment of two rows, entry by entry. */
  lemma PairCost(m: seq<seq<nat>>, p: seq<nat>)
    requires |m| == 2 && |p| == 2 && p[0] < |m[0]| && p[1] < |m[1]|
    ensures Cost(m, p) == m[0][p[0]] + m[1][p[1]]
  {
    assert p[..1][..0] == [];
    assert Cost(m, p[..1]) == m[0][p[0]];
  }

  /** On the anti-diagonal table, the only permutation whose matched
      columns reach the greatest overlap is the swap. */
  lemma SwapIsBest(t: Table, perm: seq<nat>)
    requires Shaped(t) && t.k1 == 2 && t.k2 == 2
    requires t.counts[0][0] == 0 && t.counts[0][1] == 2
    requires t.counts[1][0] == 2 && t.counts[1][1] == 0
    requires IsPermutation(perm, t.k2)
    requires forall p {:trigger IsAssignment(p, t.k1, t.k2)} :: IsAssignment(p, t.k1, t.k2) ==>
      Cost(t.counts, p) <= Cost(t.counts, perm[..t.k1])
    ensures perm == [1, 0]
  {
    assert IsAssignment([1, 0], 2, 2);
    PairCost(t.counts, [1, 0]);
    assert perm[..2] == perm;
    PairCost(t.counts, perm);
    assert perm == [perm[0], perm[1]];
  }

  /** Any labelings with that table are aligned by the swap. */
  lemma SwapAligned(z1: seq<int>, z2: seq<int>, k1Opt: Option<int>, k2Opt: Option<int>)
    requires StateOverlap(z1, z2, k1Opt, k2Opt).Success?
    requires var t := StateOverlap(z1, z2, k1Opt, k2Opt).value;
      && t.k1 == 2 && t.k2 == 2
      && t.counts[0][0] == 0 && t.counts[0][1] == 2 && t.counts[1][0] == 2 && t.counts[1][1] == 0
    ensures FindPermutation(z1, z2, k1Opt, k2Opt) == Success([1, 0])
  {
    SwapIsBest(StateOverlap(z1, z2, k1Opt, k2Opt).value, FindPermutation(z1, z2, k1Opt, k2Opt).value);
  }

  /** ... and the alignment swaps the two states. */
  lemma SwappedLabels()
    ensures FindPermutation([0, 0, 1, 1], [1, 1, 0, 0], None, None) == Success([1, 0])
  {
    SwappedOverlap();
    SwapAligned([0, 0, 1, 1], [1, 1, 0, 0], None, None);
  }

  lemma TieCounts()
    ensures Counts([0, 0, 0, 1, 1], [0, 1, 2, 2, 2], 2, 3) == [[1, 1, 1], [0, 0, 2]]
  {
    var z1, z2 := [0, 0, 0, 1, 1], [0, 1, 2, 2, 2];
    var m := Counts(z1, z2, 2, 3);
    assert z1[..4] == [0, 0, 0, 1] && z1[..4][..3] == [0, 0, 0] && [0, 0, 0][..2] == [0, 0];
    assert z2[..4] == [0, 1, 2, 2] && z2[..4][..3] == [0, 1, 2] && [0, 1, 2][..2] == [0, 1];
    assert [0, 0][..1] == [0] && [0, 1][..1] == [0] && [0][..0] == [];
    forall a, b | 0 <= a < 2 && 0 <= b < 3
      ensures CoCount(z1, z2, a, b) == [[1, 1, 1], [0, 0, 2]][a][b]
    {
      assert CoCount([0], [0], a, b) == if a == 0 && b == 0 then 1 else 0;
      assert CoCount([0, 0], [0, 1], a, b) == if a == 0 && b < 2 then 1 else 0;
      assert CoCount([0, 0, 0], [0, 1, 2], a, b) == if a == 0 then 1 else 0;
      assert CoCount([0, 0, 0, 1], [0, 1, 2, 2], a, b) ==
        if a == 0 then 1 else if b == 2 then 1 else 0;
    }
    assert m[0] == Row(z1, z2, 0, 3) && m[1] == Row(z1, z2, 1, 3);
    assert m[0] == [1, 1, 1] && m[1] == [0, 0, 2];
  }

  /** Five steps with two states against three, the case with a tie in the
      first row ... */
  lemma TieOverlap()
    ensures StateOverlap([0, 0, 0, 1, 1], [0, 1, 2, 2, 2], Some(2), Some(3))
      == Success(Table(2, 3, [[1, 1, 1], [0, 0, 2]]))
  {
    TieCounts();
  }

  /** On the tie table, a permutation whose matched columns reach the
      greatest overlap sends row 1 to column 2 and row 0 to one of the tied
      columns 0 and 1. */
  lemma TieChoice(t: Table, perm: seq<nat>)
    requires Shaped(t) && t.k1 == 2 && t.k2 == 3
    requires t.counts[0][0] == 1 && t.counts[0][1] == 1 && t.counts[0][2] == 1
    requires t.counts[1][0] == 0 && t.counts[1][1] == 0 && t.counts[1][2] == 2
    requires IsPermutation(perm, t.k2)
    requires forall p {:trigger IsAssignment(p, t.k1, t.k2)} :: IsAssignment(p, t.k1, t.k2) ==>
      Cost(t.counts, p) <= Cost(t.counts, perm[..t.k1])
    ensures perm[1] == 2 && perm[0] in {0, 1}
  {
    assert IsAssignment([0, 2], 2, 3);
    PairCost(t.counts, [0, 2]);
    PairCost(t.counts, perm[..2]);
  }

  /** Any labelings with that table are aligned that way. */
  lemma TieAligned(z1: seq<int>, z2: seq<int>, k1Opt: Option<int>, k2Opt: Option<int>)
    requires StateOverlap(z1, z2, k1Opt, k2Opt).Success?
    requires var t := StateOverlap(z1, z2, k1Opt, k2Opt).value;
      && t.k1 == 2 && t.k2 == 3
      && t.counts[0][0] == 1 && t.counts[0][1] == 1 && t.counts[0][2] == 1
      && t.counts[1][0] == 0 && t.counts[1][1] == 0 && t.counts[1][2] == 2
    ensures var r := FindPermutation(z1, z2, k1Opt, k2Opt);
      && r.Success? && IsPermutation(r.value, 3)
      && r.value[1] == 2 && r.value[0] in {0, 1}
  {
    TieChoice(StateOverlap(z1, z2, k1Opt, k2Opt).value, FindPermutation(z1, z2, k1Opt, k2Opt).value);
  }

  /** ... whose alignment sends state 1 to column 2 and pads with the column
      row 0 left over. */
  lemma TieLabels()
    ensures var r := FindPermutation([0, 0, 0, 1, 1], [0, 1, 2, 2, 2], Some(2), Some(3));
      && r.Success? && IsPermutation(r.value, 3)
      && r.value[1] == 2 && r.value[0] in {0, 1}
  {
    TieOverlap();
    TieAligned([0, 0, 0, 1, 1], [0, 1, 2, 2, 2], Some(2), Some(3));
  }
}
