/** The rectangular linear assignment problem that
    scipy.optimize.linear_sum_assignment solves: match every row of a cost
    matrix with a distinct column so that the total cost is least. The
    library's algorithm is replaced by an exhaustive search that meets the
    same contract. */
module Assignment {
  import opened Labels

  /** Every row of the cost matrix has k2 columns. */
  predicate Rectangular(cost: seq<seq<int>>, k2: nat) {
    forall i :: 0 <= i < |cost| ==> |cost[i]| == k2
  }

  /** p matches row i with column p[i], for the n rows 0..n-1, and no two
      rows share a column. */
  predicate IsAssignment(p: seq<nat>, n: nat, k2: nat) {
    && |p| == n
    && Distinct(p)
    && forall i :: 0 <= i < |p| ==> p[i] < k2
  }

  /** An assignment of the first n rows that also avoids the columns in used. */
  predicate Fits(p: seq<nat>, n: nat, k2: nat, used: set<nat>) {
    IsAssignment(p, n, k2) && forall i :: 0 <= i < |p| ==> p[i] !in used
  }

  /** Total cost of matching row i with column p[i], for every i < |p|. */
  function Cost(cost: seq<seq<int>>, p: seq<nat>): int
    requires |p| <= |cost|
    requires forall i :: 0 <= i < |p| ==> p[i] < |cost[i]|
  {
    if p == [] then 0
    else Cost(cost, p[..|p| - 1]) + cost[|p| - 1][p[|p| - 1]]
  }

  /** The least-cost assignment of rows 0..n-1 to columns outside used, or
      None when the columns run out. */
  function Best(cost: seq<seq<int>>, k2: nat, n: nat, used: set<nat>): (r: Option<seq<nat>>)
    requires Rectangular(cost, k2) && n <= |cost|
    ensures r.Some? ==> Fits(r.value, n, k2, used)
    decreases n, k2 + 1, 0
  {
    if n == 0 then Some([]) else BestFrom(cost, k2, n, used, 0)
  }

  /** The least-cost assignment of rows 0..n-1 to columns outside used among
      those that give row n-1 a column c or above. */
  function BestFrom(cost: seq<seq<int>>, k2: nat, n: nat, used: set<nat>, c: nat)
    : (r: Option<seq<nat>>)
    requires Rectangular(cost, k2) && 0 < n <= |cost| && c <= k2
    ensures r.Some? ==> Fits(r.value, n, k2, used) && r.value[n - 1] >= c
    decreases n, k2 - c, 1
  {
    if c == k2 then None
    else Cheaper(cost, k2, n, BestWith(cost, k2, n, used, c), BestFrom(cost, k2, n, used, c + 1))
  }

  /** The least-cost assignment of rows 0..n-1 to columns outside used that
      gives row n-1 the column c. */
  function BestWith(cost: seq<seq<int>>, k2: nat, n: nat, used: set<nat>, c: nat)
    : (r: Option<seq<nat>>)
    requires Rectangular(cost, k2) && 0 < n <= |cost| && c < k2
    ensures r.Some? ==> Fits(r.value, n, k2, used) && r.value[n - 1] == c
    decreases n, k2 - c, 0
  {
    if c in used then None
    else match Best(cost, k2, n - 1, used + {c})
      case None => None
      case Some(q) => Some(q + [c])
  }

  /** The cheaper of two candidate assignments of rows 0..n-1, preferring the
      first on a tie; a missing candidate loses. */
  function Cheaper(cost: seq<seq<int>>, k2: nat, n: nat, a: Option<seq<nat>>, b: Option<seq<nat>>)
    : (r: Option<seq<nat>>)
    requires Rectangular(cost, k2) && n <= |cost|
    requires a.Some? ==> IsAssignment(a.value, n, k2)
    requires b.Some? ==> IsAssignment(b.value, n, k2)
    ensures r == a || r == b
    ensures a.Some? ==> r.Some? && Cost(cost, r.value) <= Cost(cost, a.value)
    ensures b.Some? ==> r.Some? && Cost(cost, r.value) <= Cost(cost, b.value)
  {
    match (a, b)
    case (None, _) => b
    case (Some(x), None) => a
    case (Some(x), Some(y)) => if Cost(cost, x) <= Cost(cost, y) then a else b
  }

  lemma CostOfExtension(cost: seq<seq<int>>, q: seq<nat>, c: nat)
    requires |q| < |cost| && c < |cost[|q|]|
    requires forall i :: 0 <= i < |q| ==> q[i] < |cost[i]|
    ensures Cost(cost, q + [c]) == Cost(cost, q) + cost[|q|][c]
  {
    assert (q + [c])[..|q|] == q;
  }

  /** Dropping the last row of an assignment frees its column. */
  lemma FrontFits(p: seq<nat>, n: nat, k2: nat, used: set<nat>)
    requires 0 < n && Fits(p, n, k2, used)
    ensures Fits(p[..n - 1], n - 1, k2, used + {p[n - 1]})
  {
  }

  /** No assignment that fits costs less than the one Best returns. */
  lemma {:induction false} BestIsOptimal(cost: seq<seq<int>>, k2: nat, n: nat, used: set<nat>, p: seq<nat>)
    requires Rectangular(cost, k2) && n <= |cost| && Fits(p, n, k2, used)
    ensures Best(cost, k2, n, used).Some?
    ensures Cost(cost, Best(cost, k2, n, used).value) <= Cost(cost, p)
    decreases n, k2 + 1, 0
  {
    if n > 0 {
      BestFromIsOptimal(cost, k2, n, used, 0, p);
    }
  }

  lemma {:induction false} BestFromIsOptimal(cost: seq<seq<int>>, k2: nat, n: nat, used: set<nat>, c: nat, p: seq<nat>)
    requires Rectangular(cost, k2) && 0 < n <= |cost| && c <= k2
    requires Fits(p, n, k2, used) && p[n - 1] >= c
    ensures BestFrom(cost, k2, n, used, c).Some?
    ensures Cost(cost, BestFrom(cost, k2, n, used, c).value) <= Cost(cost, p)
    decreases n, k2 - c, 1
  {
    if p[n - 1] == c {
      BestWithIsOptimal(cost, k2, n, used, c, p);
    } else {
      BestFromIsOptimal(cost, k2, n, used, c + 1, p);
    }
  }

  lemma {:induction false} BestWithIsOptimal(cost: seq<seq<int>>, k2: nat, n: nat, used: set<nat>, c: nat, p: seq<nat>)
    requires Rectangular(cost, k2) && 0 < n <= |cost| && c < k2
    requires Fits(p, n, k2, used) && p[n - 1] == c
    ensures BestWith(cost, k2, n, used, c).Some?
    ensures Cost(cost, BestWith(cost, k2, n, used, c).value) <= Cost(cost, p)
    decreases n, k2 - c, 0
  {
    var front := p[..n - 1];
    FrontFits(p, n, k2, used);
    BestIsOptimal(cost, k2, n - 1, used + {c}, front);
    var q := Best(cost, k2, n - 1, used + {c}).value;
    CostOfExtension(cost, q, c);
    assert p == front + [c];
    CostOfExtension(cost, front, c);
  }

  /** With at least as many columns as rows an assignment exists, and Best
      finds one that no other assignment undercuts. */
  lemma BestOfAll(cost: seq<seq<int>>, k2: nat)
    requires Rectangular(cost, k2) && |cost| <= k2
    ensures Best(cost, k2, |cost|, {}).Some?
    ensures forall p {:trigger IsAssignment(p, |cost|, k2)} :: IsAssignment(p, |cost|, k2) ==>
      Cost(cost, Best(cost, k2, |cost|, {}).value) <= Cost(cost, p)
  {
    BestIsOptimal(cost, k2, |cost|, {}, Range(|cost|));
    forall p | IsAssignment(p, |cost|, k2)
      ensures Cost(cost, Best(cost, k2, |cost|, {}).value) <= Cost(cost, p)
    {
      BestIsOptimal(cost, k2, |cost|, {}, p);
    }
  }

  /** linear_sum_assignment(cost) for a matrix with no more rows than
      columns: the matched row indices, which are 0..K1-1 in order, and the
      column matched with each row; no assignment costs less. */
  function LinearSumAssignment(cost: seq<seq<int>>, k2: nat): (r: (seq<nat>, seq<nat>))
    requires Rectangular(cost, k2) && |cost| <= k2
    ensures r.0 == Range(|cost|)
    ensures IsAssignment(r.1, |cost|, k2)
    ensures forall p {:trigger IsAssignment(p, |cost|, k2)} :: IsAssignment(p, |cost|, k2) ==> Cost(cost, r.1) <= Cost(cost, p)
  {
    BestOfAll(cost, k2);
    (Range(|cost|), Best(cost, k2, |cost|, {}).value)
  }
}
