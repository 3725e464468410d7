/** The developer-to-project assignment model: the variables and the
    constraints that DemoChocoSolver posts, stated as predicates over a
    candidate 0/1 matrix, with facts about the posted constraints. */
module Assignment {

  /** A candidate value of the decision matrix, indexed [developer][project]. */
  type Matrix = seq<seq<int>>

  /** The data of one problem: the two dimensions, the per-developer limit,
      the constant availabilities, durations and deadlines (in months), and
      the horizon that every assigned project's deadline must meet. */
  datatype Instance = Instance(
    nbDevelopers: nat,
    nbProjects: nat,
    maxProjectsPerDeveloper: int,
    availability: seq<int>,
    duration: seq<int>,
    deadline: seq<int>,
    horizon: int)

  /** The data arrays are long enough for the loops that turn them into
      constant variables; a shorter array makes those loops index out of range. */
  predicate WellFormed(p: Instance) {
    && |p.availability| >= p.nbDevelopers
    && |p.duration| >= p.nbProjects
    && |p.deadline| >= p.nbProjects
  }

  /** The value of a sum constraint's left-hand side. */
  function Sum(s: seq<int>): int {
    if s == [] then 0 else Sum(s[..|s| - 1]) + s[|s| - 1]
  }

  /** The matrix has one row per developer and one column per project. */
  predicate Shaped(p: Instance, a: Matrix) {
    |a| == p.nbDevelopers && forall i :: 0 <= i < |a| ==> |a[i]| == p.nbProjects
  }

  /** The column of project j, gathered one developer at a time. */
  function Column(a: Matrix, j: nat): seq<int>
    requires forall i :: 0 <= i < |a| ==> j < |a[i]|
  {
    seq(|a|, i requires 0 <= i < |a| => a[i][j])
  }

  /** Every entry lies in the domain {0, 1} the matrix variables are created with. */
  predicate Binary(a: Matrix) {
    forall i, j :: 0 <= i < |a| && 0 <= j < |a[i]| ==> a[i][j] == 0 || a[i][j] == 1
  }

  /** Capacity: each developer's row sums to at most maxProjectsPerDeveloper. */
  predicate WithinCapacity(p: Instance, a: Matrix)
    requires Shaped(p, a)
  {
    forall i :: 0 <= i < |a| ==> Sum(a[i]) <= p.maxProjectsPerDeveloper
  }

  /** Coverage: each project's column sums to at least 1. */
  predicate Covered(p: Instance, a: Matrix)
    requires Shaped(p, a)
  {
    forall j :: 0 <= j < p.nbProjects ==> Sum(Column(a, j)) >= 1
  }

  /** The consequence of the conditional constraint on (i, j): the developer is
      available for the project's whole duration and the project's deadline
      is within the horizon. */
  predicate Compatible(p: Instance, i: nat, j: nat)
    requires WellFormed(p) && i < p.nbDevelopers && j < p.nbProjects
  {
    p.availability[i] >= p.duration[j] && p.deadline[j] <= p.horizon
  }

  /** The conditional constraint, posted for every pair: an entry equal to 1
      demands the consequence; an entry that is not 1 demands nothing. */
  predicate TimingRespected(p: Instance, a: Matrix)
    requires WellFormed(p) && Shaped(p, a)
  {
    forall i, j :: 0 <= i < p.nbDevelopers && 0 <= j < p.nbProjects && a[i][j] == 1 ==>
      Compatible(p, i, j)
  }

  /** A solution: exactly the conjunction of everything that is posted. */
  predicate Valid(p: Instance, a: Matrix)
    requires WellFormed(p)
  {
    && Shaped(p, a)
    && Binary(a)
    && WithinCapacity(p, a)
    && Covered(p, a)
    && TimingRespected(p, a)
  }

  // ---------------------------------------------------------------------
  // Facts about sums

  /** Extending a prefix by one addend adds that addend to its sum. */
  lemma SumPrefixStep(s: seq<int>, k: nat)
    requires k < |s|
    ensures Sum(s[..k + 1]) == Sum(s[..k]) + s[k]
  {
    assert s[..k + 1][..k] == s[..k];
  }

  /** Changing one addend changes the sum by the difference. */
  lemma {:induction false} SumUpdate(s: seq<int>, k: nat, v: int)
    requires k < |s|
    ensures Sum(s[k := v]) == Sum(s) - s[k] + v
  {
    var n := |s| - 1;
    if k == n {
      assert s[k := v][..n] == s[..n];
    } else {
      assert s[k := v][..n] == s[..n][k := v];
      SumUpdate(s[..n], k, v);
    }
  }

  /** With no negative addend, a prefix never sums to more than the whole. */
  lemma {:induction false} PrefixSumAtMostSum(s: seq<int>, k: nat)
    requires k <= |s|
    requires forall q :: 0 <= q < |s| ==> s[q] >= 0
    ensures Sum(s[..k]) <= Sum(s)
  {
    if k == |s| {
      assert s[..k] == s;
    } else {
      var n := |s| - 1;
      assert s[..n][..k] == s[..k];
      PrefixSumAtMostSum(s[..n], k);
    }
  }

  /** A 0/1 sequence that sums to at least 1 has an entry equal to 1. */
  lemma {:induction false} PositiveSumHasOne(s: seq<int>)
    requires forall q :: 0 <= q < |s| ==> s[q] == 0 || s[q] == 1
    requires Sum(s) >= 1
    ensures exists q :: 0 <= q < |s| && s[q] == 1
  {
    var n := |s| - 1;
    if s[n] != 1 {
      PositiveSumHasOne(s[..n]);
      var q :| 0 <= q < n && s[..n][q] == 1;
      assert s[q] == 1;
    }
  }

  /** Summing a pointwise sum is summing each side. */
  lemma {:induction false} SumPointwise(x: seq<int>, y: seq<int>, z: seq<int>)
    requires |x| == |y| == |z|
    requires forall k :: 0 <= k < |z| ==> z[k] == x[k] + y[k]
    ensures Sum(z) == Sum(x) + Sum(y)
  {
    if z != [] {
      var n := |z| - 1;
      SumPointwise(x[..n], y[..n], z[..n]);
    }
  }

  lemma {:induction false} SumAtMost(s: seq<int>, c: int)
    requires forall k :: 0 <= k < |s| ==> s[k] <= c
    ensures Sum(s) <= |s| * c
  {
    if s != [] {
      var n := |s| - 1;
      SumAtMost(s[..n], c);
      assert |s| * c == n * c + c;
    }
  }

  lemma {:induction false} SumAtLeast(s: seq<int>, c: int)
    requires forall k :: 0 <= k < |s| ==> s[k] >= c
    ensures Sum(s) >= |s| * c
  {
    if s != [] {
      var n := |s| - 1;
      SumAtLeast(s[..n], c);
      assert |s| * c == n * c + c;
    }
  }

  // ---------------------------------------------------------------------
  // Facts about the posted constraints

  /** The conditional constraint runs one way only. Setting an entry to 0
      never violates it, and setting it to 1 violates it exactly when the
      consequence fails: the consequence never forces an entry. */
  lemma TimingAtEntry(p: Instance, a: Matrix, i: nat, j: nat, v: int)
    requires WellFormed(p) && Shaped(p, a) && TimingRespected(p, a)
    requires i < p.nbDevelopers && j < p.nbProjects
    ensures Shaped(p, a[i := a[i][j := v]])
    ensures TimingRespected(p, a[i := a[i][j := v]]) <==> (v != 1 || Compatible(p, i, j))
  {
    var b := a[i := a[i][j := v]];
    assert b[i][j] == v;
  }

  /** Withdrawing a developer from a project keeps the matrix 0/1 and keeps
      the capacity and the conditional constraints; only coverage can break. */
  lemma ClearingKeepsCapacityAndTiming(p: Instance, a: Matrix, i: nat, j: nat)
    requires WellFormed(p) && Shaped(p, a) && i < p.nbDevelopers && j < p.nbProjects
    requires Binary(a) && WithinCapacity(p, a) && TimingRespected(p, a)
    ensures Shaped(p, a[i := a[i][j := 0]])
    ensures Binary(a[i := a[i][j := 0]])
    ensures WithinCapacity(p, a[i := a[i][j := 0]])
    ensures TimingRespected(p, a[i := a[i][j := 0]])
  {
    var b := a[i := a[i][j := 0]];
    SumUpdate(a[i], j, 0);
    assert Sum(b[i]) <= Sum(a[i]);
  }

  /** A project that no developer is compatible with cannot be covered, so
      the instance has no solution at all. */
  lemma UncoverableProjectIsInfeasible(p: Instance, j: nat)
    requires WellFormed(p) && j < p.nbProjects
    requires forall i :: 0 <= i < p.nbDevelopers ==> !Compatible(p, i, j)
    ensures forall b :: !Valid(p, b)
  {
    forall b ensures !Valid(p, b) {
      if Shaped(p, b) && Binary(b) && Covered(p, b) {
        var col := Column(b, j);
        PositiveSumHasOne(col);
        var i :| 0 <= i < |col| && col[i] == 1;
        assert b[i][j] == 1 && !Compatible(p, i, j);
      }
    }
  }

  /** A negative capacity leaves no solution once there is a developer: a
      0/1 row never sums to less than 0. */
  lemma NegativeCapacityIsInfeasible(p: Instance)
    requires WellFormed(p) && p.nbDevelopers > 0 && p.maxProjectsPerDeveloper < 0
    ensures forall b :: !Valid(p, b)
  {
    forall b ensures !Valid(p, b) {
      if Shaped(p, b) && Binary(b) {
        SumAtLeast(b[0], 0);
      }
    }
  }

  /** With no developers and no projects the empty matrix is a solution,
      whatever the capacity. */
  lemma EmptyInstanceIsFeasible(p: Instance)
    requires p.nbDevelopers == 0 && p.nbProjects == 0
    ensures WellFormed(p) && Valid(p, [])
  {
  }

  /** The row sums of a matrix, one per developer. */
  function RowSums(a: Matrix): seq<int> {
    seq(|a|, i requires 0 <= i < |a| => Sum(a[i]))
  }

  /** The column sums of a matrix with m columns, one per project. */
  function ColumnSums(a: Matrix, m: nat): seq<int>
    requires forall i :: 0 <= i < |a| ==> |a[i]| == m
  {
    seq(m, j requires 0 <= j < m => Sum(Column(a, j)))
  }

  /** Counting the ones of a matrix row by row or column by column gives the
      same total. */
  lemma {:induction false} RowTotalIsColumnTotal(a: Matrix, m: nat)
    requires forall i :: 0 <= i < |a| ==> |a[i]| == m
    ensures Sum(RowSums(a)) == Sum(ColumnSums(a, m))
  {
    if a == [] {
      SumAtMost(ColumnSums(a, m), 0);
      SumAtLeast(ColumnSums(a, m), 0);
    } else {
      var n := |a| - 1;
      var front, last := a[..n], a[n];
      RowTotalIsColumnTotal(front, m);
      assert RowSums(a)[..n] == RowSums(front);
      forall j | 0 <= j < m
        ensures ColumnSums(a, m)[j] == ColumnSums(front, m)[j] + last[j]
      {
        assert Column(a, j)[..n] == Column(front, j);
      }
      SumPointwise(ColumnSums(front, m), last, ColumnSums(a, m));
    }
  }

  /** Capacity and coverage together bound the number of projects: a
      solution exists only if the developers' combined capacity reaches it. */
  lemma CoverageNeedsCapacity(p: Instance, a: Matrix)
    requires WellFormed(p) && Valid(p, a)
    ensures p.nbProjects <= p.nbDevelopers * p.maxProjectsPerDeveloper
  {
    RowTotalIsColumnTotal(a, p.nbProjects);
    SumAtMost(RowSums(a), p.maxProjectsPerDeveloper);
    SumAtLeast(ColumnSums(a, p.nbProjects), 1);
  }
}
