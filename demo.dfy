/** The instance the program declares: four developers, five projects, at
    most two projects each, and a horizon of twelve months. */
module Demo {
  import opened Assignment
  import opened Search
  import opened Report

  /** Availabilities 8, 7, 6, 9; durations 4, 6, 8, 5, 7; deadlines 8, 9, 12, 10, 11. */
  const Developers: Instance :=
    Instance(4, 5, 2, [8, 7, 6, 9], [4, 6, 8, 5, 7], [8, 9, 12, 10, 11], 12)

  /** Developer 0 on project 2, developer 1 on project 1, developer 2 on
      projects 0 and 3, developer 3 on project 4. */
  const Witness: Matrix := [
    [0, 0, 1, 0, 0],
    [0, 1, 0, 0, 0],
    [1, 0, 0, 1, 0],
    [0, 0, 0, 0, 1]
  ]

  /** The sum of a five-project row, unfolded. */
  lemma FiveCellRow(row: seq<int>)
    requires |row| == 5
    ensures Sum(row) == row[0] + row[1] + row[2] + row[3] + row[4]
  {
    assert row[..0] == [] && row[..5] == row;
    SumPrefixStep(row, 0); SumPrefixStep(row, 1); SumPrefixStep(row, 2);
    SumPrefixStep(row, 3); SumPrefixStep(row, 4);
  }

  /** The sum of a four-developer column, unfolded. */
  lemma FourCellColumn(col: seq<int>)
    requires |col| == 4
    ensures Sum(col) == col[0] + col[1] + col[2] + col[3]
  {
    assert col[..0] == [] && col[..4] == col;
    SumPrefixStep(col, 0); SumPrefixStep(col, 1); SumPrefixStep(col, 2); SumPrefixStep(col, 3);
  }

  lemma WitnessIsValid()
    ensures WellFormed(Developers) && Valid(Developers, Witness)
  {
    forall i | 0 <= i < 4 ensures Sum(Witness[i]) <= 2 {
      FiveCellRow(Witness[i]);
    }
    forall j | 0 <= j < 5 ensures Sum(Column(Witness, j)) >= 1 {
      FourCellColumn(Column(Witness, j));
    }
  }

  /** Since a solution exists, solving the declared instance cannot report
      infeasibility: it returns a matrix meeting every posted constraint. */
  method SolveDevelopers() returns (r: Outcome)
    ensures r.Solved? && Valid(Developers, r.assign)
  {
    r := Solve(Developers);
    WitnessIsValid();
  }

  /** One developer available for one month, two five-month projects. */
  const Lone: Instance := Instance(1, 2, 2, [1], [5, 5], [8, 8], 12)

  lemma LoneIsInfeasible()
    ensures WellFormed(Lone) && forall b :: !Valid(Lone, b)
  {
    UncoverableProjectIsInfeasible(Lone, 0);
  }

  /** Solving it reports infeasibility, not a partly valid matrix, and
      nothing is then listed for the developer. */
  method SolveLone() returns (r: Outcome, lines: seq<seq<nat>>)
    ensures r.Infeasible? && lines == [[]]
  {
    r := Solve(Lone);
    LoneIsInfeasible();
    lines := Listing(Lone, r);
  }
}
