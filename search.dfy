/** The search that stands in for the library's solve(): a depth-first walk
    over the cells of the matrix in row-major order, each cell tried with 0
    and then 1, with every decision undone when the branch below it fails.
    Before a value is tried the posted constraints are consulted: 1 is
    skipped when the conditional constraint's consequence fails or the row
    is already at capacity, and 0 is skipped on the last row when nothing
    above covers the column. */
module Search {
  import opened Assignment
  import opened Evaluate

  /** What solving reports: a solution, a proof that none exists, or data
      arrays too short for the declared dimensions. */
  datatype Outcome = Solved(assign: Matrix) | Infeasible | Malformed

  /** b is a full matrix that agrees with g on every cell that comes before
      (i, j) in row-major order. */
  ghost predicate AgreesBefore(p: Instance, g: Matrix, b: Matrix, i: nat, j: nat) {
    && Shaped(p, g)
    && Shaped(p, b)
    && forall r, c :: 0 <= r < p.nbDevelopers && 0 <= c < p.nbProjects && (r < i || (r == i && c < j)) ==>
         b[r][c] == g[r][c]
  }

  /** No solution keeps the decisions g holds before (i, j). */
  ghost predicate NoValidExtension(p: Instance, g: Matrix, i: nat, j: nat)
    requires WellFormed(p)
  {
    forall b :: AgreesBefore(p, g, b, i, j) ==> !Valid(p, b)
  }

  /** No solution keeps the decisions g holds before (i, j) and puts v at (i, j). */
  ghost predicate NoValidWith(p: Instance, g: Matrix, i: nat, j: nat, v: int)
    requires WellFormed(p) && i < p.nbDevelopers && j < p.nbProjects
  {
    forall b :: AgreesBefore(p, g, b, i, j) && b[i][j] == v ==> !Valid(p, b)
  }

  /** g' is g with cell (i, j) set to v. */
  ghost predicate SetAt(p: Instance, g: Matrix, g': Matrix, i: nat, j: nat, v: int) {
    && Shaped(p, g)
    && Shaped(p, g')
    && i < p.nbDevelopers && j < p.nbProjects
    && g'[i][j] == v
    && forall r, c :: 0 <= r < p.nbDevelopers && 0 <= c < p.nbProjects && (r != i || c != j) ==>
         g'[r][c] == g[r][c]
  }

  /** Two matrices of the same shape with the same cells are equal. */
  lemma SameCells(p: Instance, g: Matrix, h: Matrix)
    requires Shaped(p, g) && Shaped(p, h)
    requires forall r, c :: 0 <= r < p.nbDevelopers && 0 <= c < p.nbProjects ==> g[r][c] == h[r][c]
    ensures g == h
  {
    forall r | 0 <= r < p.nbDevelopers ensures g[r] == h[r] {
      assert forall c :: 0 <= c < p.nbProjects ==> g[r][c] == h[r][c];
    }
  }

  /** Setting cell (i, j) to v adds v to the load of row i up to column j. */
  lemma LoadAfterSet(p: Instance, g: Matrix, g': Matrix, i: nat, j: nat, v: int)
    requires SetAt(p, g, g', i, j, v)
    ensures Sum(g'[i][..j + 1]) == Sum(g[i][..j]) + v
  {
    assert g'[i][..j + 1][..j] == g'[i][..j];
    assert g'[i][..j] == g[i][..j];
  }

  /** A completion of g' through (i, j + 1) is a completion of g through (i, j). */
  lemma AgreesThroughSet(p: Instance, g: Matrix, g': Matrix, b: Matrix, i: nat, j: nat, v: int)
    requires SetAt(p, g, g', i, j, v) && AgreesBefore(p, g', b, i, j + 1)
    ensures AgreesBefore(p, g, b, i, j) && b[i][j] == v
  {
  }

  /** A branch that failed below (i, j + 1) rules out the value it tried at (i, j). */
  lemma BranchClosed(p: Instance, g: Matrix, g': Matrix, i: nat, j: nat, v: int)
    requires WellFormed(p) && SetAt(p, g, g', i, j, v)
    requires NoValidExtension(p, g', i, j + 1)
    ensures NoValidWith(p, g, i, j, v)
  {
    forall b | AgreesBefore(p, g, b, i, j) && b[i][j] == v ensures !Valid(p, b) {
      assert AgreesBefore(p, g', b, i, j + 1);
    }
  }

  /** Value 1 at (i, j) is excluded when the consequence of the conditional
      constraint fails, or when row i already carries as many ones before
      column j as the capacity allows. */
  lemma OneExcluded(p: Instance, g: Matrix, i: nat, j: nat)
    requires WellFormed(p) && Shaped(p, g) && i < p.nbDevelopers && j < p.nbProjects
    requires !Compatible(p, i, j) || Sum(g[i][..j]) + 1 > p.maxProjectsPerDeveloper
    ensures NoValidWith(p, g, i, j, 1)
  {
    forall b | AgreesBefore(p, g, b, i, j) && b[i][j] == 1 ensures !Valid(p, b) {
      if Compatible(p, i, j) && Binary(b) {
        assert b[i][..j] == g[i][..j];
        assert b[i][..j + 1][..j] == b[i][..j];
        assert Sum(b[i][..j + 1]) > p.maxProjectsPerDeveloper;
        PrefixSumAtMostSum(b[i], j + 1);
      }
    }
  }

  /** Value 0 on the last row of column j is excluded when the rows above
      already sum to less than 1 there: the column could not be covered. */
  lemma ZeroExcluded(p: Instance, g: Matrix, i: nat, j: nat)
    requires WellFormed(p) && Shaped(p, g) && i + 1 == p.nbDevelopers && j < p.nbProjects
    requires Sum(Column(g, j)[..i]) < 1
    ensures NoValidWith(p, g, i, j, 0)
  {
    forall b | AgreesBefore(p, g, b, i, j) && b[i][j] == 0 ensures !Valid(p, b) {
      var col := Column(b, j);
      assert col[..i] == Column(g, j)[..i];
      assert Sum(col) == Sum(col[..i]);
    }
  }

  /** Once both values of (i, j) are ruled out, nothing extends g through (i, j). */
  lemma CellClosed(p: Instance, g: Matrix, i: nat, j: nat)
    requires WellFormed(p) && i < p.nbDevelopers && j < p.nbProjects
    requires NoValidWith(p, g, i, j, 0) && NoValidWith(p, g, i, j, 1)
    ensures NoValidExtension(p, g, i, j)
  {
    forall b | AgreesBefore(p, g, b, i, j) ensures !Valid(p, b) {
      if Binary(b) {
        assert b[i][j] == 0 || b[i][j] == 1;
      }
    }
  }

  /** Passing the end of a row is moving to the start of the next one. */
  lemma RowClosed(p: Instance, g: Matrix, i: nat)
    requires WellFormed(p) && NoValidExtension(p, g, i + 1, 0)
    ensures NoValidExtension(p, g, i, p.nbProjects)
  {
    forall b | AgreesBefore(p, g, b, i, p.nbProjects) ensures !Valid(p, b) {
      assert AgreesBefore(p, g, b, i + 1, 0);
    }
  }

  /** With every cell decided, the only completion is g itself. */
  lemma LeafClosed(p: Instance, g: Matrix)
    requires WellFormed(p) && Shaped(p, g) && !Valid(p, g)
    ensures NoValidExtension(p, g, p.nbDevelopers, 0)
  {
    forall b | AgreesBefore(p, g, b, p.nbDevelopers, 0) ensures !Valid(p, b) {
      SameCells(p, g, b);
    }
  }

  /** Searches the cells from (i, j) on, given that load is what row i holds
      before column j. On success the array holds a solution that keeps every
      decision made before (i, j); on failure the array is restored and no
      solution keeps those decisions. */
  method Search(p: Instance, a: array2<int>, i: nat, j: nat, load: int) returns (found: bool)
    requires WellFormed(p) && Fits(p, a)
    requires i <= p.nbDevelopers && j <= p.nbProjects
    requires i < p.nbDevelopers ==> load == Sum(Grid(a)[i][..j])
    modifies a
    ensures found ==> Valid(p, Grid(a)) && AgreesBefore(p, old(Grid(a)), Grid(a), i, j)
    ensures !found ==> Grid(a) == old(Grid(a)) && NoValidExtension(p, Grid(a), i, j)
    decreases p.nbDevelopers - i, p.nbProjects - j, 1
  {
    ghost var g := Grid(a);
    if i == p.nbDevelopers {
      found := IsValid(p, a);
      if !found {
        LeafClosed(p, g);
      }
    } else if j == p.nbProjects {
      found := Search(p, a, i + 1, 0, 0);
      if !found {
        RowClosed(p, g, i);
      }
    } else {
      var zeroExcluded := false;
      if i + 1 == p.nbDevelopers {
        var above := CoverageAbove(a, i, j);
        zeroExcluded := above < 1;
      }
      if zeroExcluded {
        ZeroExcluded(p, g, i, j);
      } else {
        found := TryValue(p, a, i, j, load, 0);
        if found {
          return;
        }
      }
      if Compatible(p, i, j) && load + 1 <= p.maxProjectsPerDeveloper {
        found := TryValue(p, a, i, j, load, 1);
        if found {
          return;
        }
      } else {
        OneExcluded(p, g, i, j);
      }
      CellClosed(p, g, i, j);
      found := false;
    }
  }

  /** Decides v at cell (i, j) and searches on from (i, j + 1); on failure
      the cell gets its previous value back and v is ruled out there. */
  method TryValue(p: Instance, a: array2<int>, i: nat, j: nat, load: int, v: int) returns (found: bool)
    requires WellFormed(p) && Fits(p, a)
    requires i < p.nbDevelopers && j < p.nbProjects
    requires load == Sum(Grid(a)[i][..j])
    modifies a
    ensures found ==> Valid(p, Grid(a)) && AgreesBefore(p, old(Grid(a)), Grid(a), i, j)
    ensures !found ==> Grid(a) == old(Grid(a)) && NoValidWith(p, Grid(a), i, j, v)
    decreases p.nbDevelopers - i, p.nbProjects - j, 0
  {
    ghost var g := Grid(a);
    var saved := a[i, j];
    a[i, j] := v;
    ghost var decided := Grid(a);
    assert SetAt(p, g, decided, i, j, v);
    LoadAfterSet(p, g, decided, i, j, v);
    found := Search(p, a, i, j + 1, load + v);
    if found {
      AgreesThroughSet(p, g, decided, Grid(a), i, j, v);
      return;
    }
    BranchClosed(p, g, decided, i, j, v);
    a[i, j] := saved;
    SameCells(p, Grid(a), g);
  }

  /** Solves an instance: a returned matrix satisfies every posted
      constraint, Infeasible is reported only when no matrix does, and
      Malformed exactly when a data array is shorter than its dimension. */
  method Solve(p: Instance) returns (r: Outcome)
    ensures r.Malformed? <==> !WellFormed(p)
    ensures r.Solved? ==> WellFormed(p) && Valid(p, r.assign)
    ensures r.Infeasible? ==> WellFormed(p) && forall b :: !Valid(p, b)
  {
    if !WellFormed(p) {
      return Malformed;
    }
    var a := new int[p.nbDevelopers, p.nbProjects];
    assert p.nbDevelopers > 0 ==> Grid(a)[0][..0] == [];
    var found := Search(p, a, 0, 0, 0);
    if found {
      r := Solved(Grid(a));
    } else {
      r := Infeasible;
      forall b ensures !Valid(p, b) {
        if Shaped(p, b) {
          assert AgreesBefore(p, Grid(a), b, 0, 0);
        }
      }
    }
  }
}
