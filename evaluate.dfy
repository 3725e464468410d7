/** Evaluating the posted constraints on a fully instantiated matrix held in
    a two-dimensional array: one loop per constraint kind, each proved to
    compute the corresponding predicate of module Assignment. */
module Evaluate {
  import opened Assignment

  /** The matrix value currently stored in the array. */
  function Grid(a: array2<int>): (g: Matrix)
    reads a
    ensures |g| == a.Length0
    ensures forall i :: 0 <= i < a.Length0 ==> |g[i]| == a.Length1
    ensures forall i, j :: 0 <= i < a.Length0 && 0 <= j < a.Length1 ==> g[i][j] == a[i, j]
  {
    seq(a.Length0, i requires 0 <= i < a.Length0 reads a =>
      seq(a.Length1, j requires 0 <= j < a.Length1 reads a => a[i, j]))
  }

  /** The array has the dimensions of the instance's decision matrix. */
  predicate Fits(p: Instance, a: array2<int>) {
    a.Length0 == p.nbDevelopers && a.Length1 == p.nbProjects
  }

  /** The load of developer i: the sum over row i. */
  method RowLoad(a: array2<int>, i: nat) returns (load: int)
    requires i < a.Length0
    ensures load == Sum(Grid(a)[i])
  {
    ghost var row := Grid(a)[i];
    load := 0;
    var j := 0;
    while j < a.Length1
      invariant 0 <= j <= a.Length1
      invariant load == Sum(row[..j])
    {
      SumPrefixStep(row, j);
      load := load + a[i, j];
      j := j + 1;
    }
    assert row[..j] == row;
  }

  /** The column of project j, gathered developer by developer into a fresh
      sequence before it is summed. */
  method ColumnOf(a: array2<int>, j: nat) returns (colonne: seq<int>)
    requires j < a.Length1
    ensures colonne == Column(Grid(a), j)
  {
    colonne := [];
    var i := 0;
    while i < a.Length0
      invariant 0 <= i <= a.Length0
      invariant colonne == Column(Grid(a), j)[..i]
    {
      colonne := colonne + [a[i, j]];
      i := i + 1;
    }
  }

  /** The sum of the developers above row i in column j. */
  method CoverageAbove(a: array2<int>, i: nat, j: nat) returns (count: int)
    requires i <= a.Length0 && j < a.Length1
    ensures count == Sum(Column(Grid(a), j)[..i])
  {
    ghost var col := Column(Grid(a), j);
    count := 0;
    var r := 0;
    while r < i
      invariant 0 <= r <= i
      invariant count == Sum(col[..r])
    {
      SumPrefixStep(col, r);
      count := count + a[r, j];
      r := r + 1;
    }
  }

  method SumOf(s: seq<int>) returns (total: int)
    ensures total == Sum(s)
  {
    total := 0;
    var k := 0;
    while k < |s|
      invariant 0 <= k <= |s|
      invariant total == Sum(s[..k])
    {
      SumPrefixStep(s, k);
      total := total + s[k];
      k := k + 1;
    }
    assert s[..k] == s;
  }

  /** Every entry is 0 or 1. */
  method CheckBinary(a: array2<int>) returns (ok: bool)
    ensures ok == Binary(Grid(a))
  {
    var i := 0;
    while i < a.Length0
      invariant 0 <= i <= a.Length0
      invariant forall r, c :: 0 <= r < i && 0 <= c < a.Length1 ==> a[r, c] == 0 || a[r, c] == 1
    {
      var j := 0;
      while j < a.Length1
        invariant 0 <= j <= a.Length1
        invariant forall c :: 0 <= c < j ==> a[i, c] == 0 || a[i, c] == 1
      {
        if a[i, j] != 0 && a[i, j] != 1 {
          assert Grid(a)[i][j] == a[i, j];
          return false;
        }
        j := j + 1;
      }
      i := i + 1;
    }
    return true;
  }

  /** Every row sums to at most the capacity. */
  method CheckCapacity(p: Instance, a: array2<int>) returns (ok: bool)
    requires Fits(p, a)
    ensures ok == WithinCapacity(p, Grid(a))
  {
    var i := 0;
    while i < a.Length0
      invariant 0 <= i <= a.Length0
      invariant forall r :: 0 <= r < i ==> Sum(Grid(a)[r]) <= p.maxProjectsPerDeveloper
    {
      var load := RowLoad(a, i);
      if load > p.maxProjectsPerDeveloper {
        return false;
      }
      i := i + 1;
    }
    return true;
  }

  /** Every column sums to at least 1. */
  method CheckCoverage(p: Instance, a: array2<int>) returns (ok: bool)
    requires Fits(p, a)
    ensures ok == Covered(p, Grid(a))
  {
    var j := 0;
    while j < a.Length1
      invariant 0 <= j <= a.Length1
      invariant forall c :: 0 <= c < j ==> Sum(Column(Grid(a), c)) >= 1
    {
      var colonne := ColumnOf(a, j);
      var total := SumOf(colonne);
      if total < 1 {
        return false;
      }
      j := j + 1;
    }
    return true;
  }

  /** Every entry equal to 1 has its consequence hold. */
  method CheckTiming(p: Instance, a: array2<int>) returns (ok: bool)
    requires WellFormed(p) && Fits(p, a)
    ensures ok == TimingRespected(p, Grid(a))
  {
    var i := 0;
    while i < a.Length0
      invariant 0 <= i <= a.Length0
      invariant forall r, c :: 0 <= r < i && 0 <= c < a.Length1 && a[r, c] == 1 ==> Compatible(p, r, c)
    {
      var j := 0;
      while j < a.Length1
        invariant 0 <= j <= a.Length1
        invariant forall c :: 0 <= c < j && a[i, c] == 1 ==> Compatible(p, i, c)
      {
        if a[i, j] == 1 && !(p.availability[i] >= p.duration[j] && p.deadline[j] <= p.horizon) {
          assert Grid(a)[i][j] == 1;
          return false;
        }
        j := j + 1;
      }
      i := i + 1;
    }
    return true;
  }

  /** Every posted constraint holds: the conjunction checked piece by piece. */
  method IsValid(p: Instance, a: array2<int>) returns (ok: bool)
    requires WellFormed(p) && Fits(p, a)
    ensures ok == Valid(p, Grid(a))
  {
    ok := CheckBinary(a);
    if ok {
      ok := CheckCapacity(p, a);
    }
    if ok {
      ok := CheckCoverage(p, a);
    }
    if ok {
      ok := CheckTiming(p, a);
    }
  }
}
