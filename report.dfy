/** The result listing: for each developer, the projects whose matrix
    variable is instantiated to 1, in ascending project order. */
module Report {
  import opened Assignment
  import opened Search

  /** The indices j with row[j] == 1, ascending. */
  function AssignedProjects(row: seq<int>): (js: seq<nat>)
    ensures forall k :: 0 <= k < |js| ==> js[k] < |row| && row[js[k]] == 1
    ensures forall j :: 0 <= j < |row| && row[j] == 1 ==> j in js
    ensures forall k, l :: 0 <= k < l < |js| ==> js[k] < js[l]
  {
    if row == [] then []
    else
      var n := |row| - 1;
      var front := AssignedProjects(row[..n]);
      assert forall j :: 0 <= j < n ==> row[..n][j] == row[j];
      front + (if row[n] == 1 then [n] else [])
  }

  /** Scanning one more column appends it to the listing when its entry is 1. */
  lemma AssignedPrefixStep(row: seq<int>, k: nat)
    requires k < |row|
    ensures AssignedProjects(row[..k + 1]) ==
      AssignedProjects(row[..k]) + (if row[k] == 1 then [k] else [])
  {
    assert row[..k + 1][..k] == row[..k];
  }

  predicate StrictlyIncreasing(xs: seq<nat>) {
    forall k, l :: 0 <= k < l < |xs| ==> xs[k] < xs[l]
  }

  /** Two ascending duplicate-free lists with the same elements are the same list. */
  lemma {:induction false} IncreasingListsWithSameElements(xs: seq<nat>, ys: seq<nat>)
    requires StrictlyIncreasing(xs) && StrictlyIncreasing(ys)
    requires forall x :: x in xs <==> x in ys
    ensures xs == ys
  {
    assert xs != [] ==> xs[0] in xs;
    assert ys != [] ==> ys[0] in ys;
    if xs != [] && ys != [] {
      var m, n := |xs| - 1, |ys| - 1;
      assert xs[m] in ys && ys[n] in xs;
      assert xs[m] == ys[n];
      forall x ensures x in xs[..m] <==> x in ys[..n] {
        assert x in xs[..m] <==> x in xs && x < xs[m];
        assert x in ys[..n] <==> x in ys && x < ys[n];
      }
      IncreasingListsWithSameElements(xs[..m], ys[..n]);
      assert xs == xs[..m] + [xs[m]] && ys == ys[..n] + [ys[n]];
    }
  }

  /** The listing of a row is the only ascending duplicate-free list of
      exactly the columns that hold 1. */
  lemma ListingIsUnique(row: seq<int>, js: seq<nat>)
    requires StrictlyIncreasing(js)
    requires forall k :: 0 <= k < |js| ==> js[k] < |row| && row[js[k]] == 1
    requires forall j :: 0 <= j < |row| && row[j] == 1 ==> j in js
    ensures js == AssignedProjects(row)
  {
    var listed := AssignedProjects(row);
    forall x ensures x in js <==> x in listed {
      if x in js {
        var k :| 0 <= k < |js| && js[k] == x;
        assert row[x] == 1;
      }
      if x in listed {
        var k :| 0 <= k < |listed| && listed[k] == x;
        assert x < |row| && row[x] == 1;
      }
    }
    IncreasingListsWithSameElements(js, listed);
  }

  /** Whether the matrix variable (i, j) is instantiated to 1 once solving is
      over: only a solved outcome instantiates anything. */
  predicate InstantiatedToOne(r: Outcome, i: nat, j: nat) {
    r.Solved? && i < |r.assign| && j < |r.assign[i]| && r.assign[i][j] == 1
  }

  /** The lines printed after solving, one list of project indices per
      developer, built by walking the matrix row by row. Malformed data stops
      the program before anything is printed. */
  method Listing(p: Instance, r: Outcome) returns (lines: seq<seq<nat>>)
    requires r.Solved? ==> Shaped(p, r.assign)
    ensures r.Malformed? ==> lines == []
    ensures !r.Malformed? ==> |lines| == p.nbDevelopers
    ensures r.Solved? ==> forall i :: 0 <= i < |lines| ==> lines[i] == AssignedProjects(r.assign[i])
    ensures r.Infeasible? ==> forall i :: 0 <= i < |lines| ==> lines[i] == []
  {
    if r.Malformed? {
      return [];
    }
    lines := [];
    var i := 0;
    while i < p.nbDevelopers
      invariant 0 <= i <= p.nbDevelopers && |lines| == i
      invariant r.Solved? ==> forall k :: 0 <= k < i ==> lines[k] == AssignedProjects(r.assign[k])
      invariant r.Infeasible? ==> forall k :: 0 <= k < i ==> lines[k] == []
    {
      var line: seq<nat> := [];
      var j := 0;
      while j < p.nbProjects
        invariant 0 <= j <= p.nbProjects
        invariant r.Solved? ==> line == AssignedProjects(r.assign[i][..j])
        invariant r.Infeasible? ==> line == []
      {
        if r.Solved? {
          AssignedPrefixStep(r.assign[i], j);
        }
        if InstantiatedToOne(r, i, j) {
          line := line + [j];
        }
        j := j + 1;
      }
      if r.Solved? {
        assert r.assign[i][..j] == r.assign[i];
      }
      lines := lines + [line];
      i := i + 1;
    }
  }
}
