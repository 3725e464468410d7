# Developer-to-project assignment, modelled in Dafny

`DemoChocoSolver` declares a small feasibility problem and hands it to the
Choco constraint library. The problem: assign four developers to five
projects. A 0/1 variable `assign[i][j]` says that developer `i` works on
project `j`. The program posts three kinds of constraint:

- **capacity**: each developer takes at most `maxProjectsPerDevelopers` (2) projects;
- **coverage**: each project gets at least one developer;
- **timing**: a developer may take a project only if their availability covers
  its duration and its deadline is within 12 months.

After calling `solve()` it prints, for each developer, the projects whose
variable is instantiated to 1.

The model has five modules:

- `Assignment` (assignment.dfy): the problem data as an `Instance` value. The
  dimensions, capacity, data arrays and horizon are parameters; the program's
  own data is one particular value. The decision matrix is a `Matrix`
  (`seq<seq<int>>`). Each posted constraint is a predicate, and `Valid` is
  exactly their conjunction. The lemmas state what the constraints imply:
  the timing constraint is a one-way implication, an uncoverable project makes
  the instance infeasible, and coverage needs enough capacity.
- `Evaluate` (evaluate.dfy): loops over a two-dimensional array that decide
  each constraint for a fully instantiated matrix. One of them gathers a column
  the way the program builds `colonne`. Each loop is proved to compute its
  predicate.
- `Search` (search.dfy): stands in for `solve()`. It is a depth-first
  backtracking search over a mutable `array2<int>`. It visits cells in
  row-major order and tries 0, then 1. Each decision is undone when the
  branch below it fails. Before trying a value, it consults the constraints:
  - 1 is skipped when the timing consequence fails or the row is already full;
  - 0 is skipped on the last row when nothing above covers the column.

  `Solve` is proved sound: a returned matrix satisfies `Valid`. It is also proved
  complete: `Infeasible` comes back only when no matrix satisfies `Valid`.
- `Report` (report.dfy): the printed result. `AssignedProjects` is the ascending
  list of columns holding 1, and `ListingIsUnique` proves it is the only such
  list. The nested loop `Listing` is proved to produce it for every developer,
  and to produce empty lists when nothing was solved.
- `Demo` (demo.dfy): the program's own instance. Availabilities are 8, 7, 6, 9;
  durations 4, 6, 8, 5, 7; deadlines 8, 9, 12, 10, 11; the capacity is 2 and the
  horizon 12. A witness assignment is proved valid, so solving this instance
  must return a solution. A one-developer instance with two five-month
  projects is shown to be reported infeasible.

The program validates none of its inputs. It accepts negative capacities and
non-positive durations, and it only ever compares durations. A negative
capacity makes the instance infeasible once there is at least one developer
(`NegativeCapacityIsInfeasible`). With no developers and no projects, the
empty matrix is a solution whatever the capacity (`EmptyInstanceIsFeasible`).
The only error modelled is a data array shorter than its dimension. There the
loops at lines 21-37 would index out of range, and `Solve` reports `Malformed`.

## Model

| member | source | states |
|---|---|---|
| `Assignment.WellFormed` | src/main/java/org/example/DemoChocoSolver.java:21-37 | each data array has at least as many entries as the loop that reads it runs over |
| `Assignment.Binary` | src/main/java/org/example/DemoChocoSolver.java:40 | every entry lies in the domain {0, 1} the matrix variables are created with |
| `Assignment.WithinCapacity` | src/main/java/org/example/DemoChocoSolver.java:44-46 | every developer's row sums to at most the capacity |
| `Assignment.Column` | src/main/java/org/example/DemoChocoSolver.java:50-53 | the column of project j, one entry per developer in developer order |
| `Assignment.Covered` | src/main/java/org/example/DemoChocoSolver.java:49-55 | every project's column sums to at least 1 |
| `Assignment.Compatible` | src/main/java/org/example/DemoChocoSolver.java:61-64 | the consequence of the conditional constraint: availability covers duration and the deadline is within the horizon |
| `Assignment.TimingRespected` | src/main/java/org/example/DemoChocoSolver.java:58-66 | every entry equal to 1 has its consequence hold; an entry that is not 1 demands nothing |
| `Assignment.Valid` | src/main/java/org/example/DemoChocoSolver.java:40-66 | exactly the conjunction of the domain, capacity, coverage and conditional constraints, on a matrix of the declared shape |
| `Assignment.TimingAtEntry` | src/main/java/org/example/DemoChocoSolver.java:58-66 | the conditional constraint runs one way: setting an entry to 0 always keeps it; setting it to 1 keeps it exactly when availability covers duration and the deadline is within the horizon |
| `Assignment.ClearingKeepsCapacityAndTiming` | src/main/java/org/example/DemoChocoSolver.java:40-66 | withdrawing a developer from a project keeps the matrix 0/1, within capacity and timing-respecting; only coverage can break |
| `Assignment.UncoverableProjectIsInfeasible` | src/main/java/org/example/DemoChocoSolver.java:49-66 | if no developer is compatible with some project, no matrix satisfies all posted constraints |
| `Assignment.NegativeCapacityIsInfeasible` | src/main/java/org/example/DemoChocoSolver.java:44-46 | with at least one developer and a negative capacity, no matrix satisfies all posted constraints, since a 0/1 row never sums below 0 |
| `Assignment.EmptyInstanceIsFeasible` | src/main/java/org/example/DemoChocoSolver.java:40-66 | with no developers and no projects the empty matrix satisfies every posted constraint, whatever the capacity |
| `Assignment.RowTotalIsColumnTotal` | src/main/java/org/example/DemoChocoSolver.java:44-55 | the row sums and the column sums of a matrix add up to the same total |
| `Assignment.CoverageNeedsCapacity` | src/main/java/org/example/DemoChocoSolver.java:44-55 | a valid matrix exists only if nbProjects <= nbDevelopers * maxProjectsPerDevelopers |
| `Evaluate.RowLoad` | src/main/java/org/example/DemoChocoSolver.java:45 | the loop computes the sum of developer i's row |
| `Evaluate.ColumnOf` | src/main/java/org/example/DemoChocoSolver.java:50-53 | the collected column is exactly assign[0..n)[j] |
| `Evaluate.SumOf` | src/main/java/org/example/DemoChocoSolver.java:54 | the loop computes the sum of the column |
| `Evaluate.CoverageAbove` | src/main/java/org/example/DemoChocoSolver.java:49-55 | the loop computes the sum of column j over the rows above i |
| `Evaluate.CheckBinary` | src/main/java/org/example/DemoChocoSolver.java:40 | returns true exactly when every entry lies in the domain {0, 1} |
| `Evaluate.CheckCapacity` | src/main/java/org/example/DemoChocoSolver.java:44-46 | returns true exactly when every row sums to at most the capacity |
| `Evaluate.CheckCoverage` | src/main/java/org/example/DemoChocoSolver.java:49-55 | returns true exactly when every column sums to at least 1 |
| `Evaluate.CheckTiming` | src/main/java/org/example/DemoChocoSolver.java:58-66 | returns true exactly when every entry equal to 1 has availability >= duration and deadline <= horizon |
| `Evaluate.IsValid` | src/main/java/org/example/DemoChocoSolver.java:40-66 | returns true exactly when the matrix satisfies every posted constraint |
| `Search.OneExcluded` | src/main/java/org/example/DemoChocoSolver.java:44-66 | no solution puts 1 at (i, j) when the timing consequence fails there or row i is already full before column j |
| `Search.ZeroExcluded` | src/main/java/org/example/DemoChocoSolver.java:49-55 | no solution puts 0 in the last row of a column that the rows above leave uncovered |
| `Search.CellClosed` | src/main/java/org/example/DemoChocoSolver.java:40 | with both values of a 0/1 cell ruled out, no solution keeps the earlier decisions |
| `Search.BranchClosed` | src/main/java/org/example/DemoChocoSolver.java:71 | a branch that failed after deciding v at (i, j) rules out every solution with v there |
| `Search.LeafClosed` | src/main/java/org/example/DemoChocoSolver.java:71 | once every cell is decided, an invalid matrix has no valid completion |
| `Search.Search` | src/main/java/org/example/DemoChocoSolver.java:71 | success leaves a valid matrix that keeps the earlier decisions; failure restores the array and proves that no solution keeps them |
| `Search.TryValue` | src/main/java/org/example/DemoChocoSolver.java:71 | after deciding v at (i, j): success leaves a valid matrix that keeps the earlier decisions; failure restores the cell and rules out every solution with v at (i, j) |
| `Search.Solve` | src/main/java/org/example/DemoChocoSolver.java:70-71 | Malformed exactly when a data array is too short; a Solved matrix satisfies every posted constraint; Infeasible only when no matrix does |
| `Report.AssignedProjects` | src/main/java/org/example/DemoChocoSolver.java:77-81 | the listed indices are exactly the columns holding 1, in strictly ascending order, so without duplicates |
| `Report.ListingIsUnique` | src/main/java/org/example/DemoChocoSolver.java:77-81 | any strictly ascending list of exactly the columns holding 1 equals AssignedProjects |
| `Report.InstantiatedToOne` | src/main/java/org/example/DemoChocoSolver.java:78 | the variable (i, j) holds the value 1 after solving, which only a solved outcome provides |
| `Report.Listing` | src/main/java/org/example/DemoChocoSolver.java:75-81 | one line per developer; after a solution, line i is AssignedProjects of row i; after infeasibility every line is empty, since no variable is instantiated |
| `Demo.WitnessIsValid` | src/main/java/org/example/DemoChocoSolver.java:14-66 | dev0 on {2}, dev1 on {1}, dev2 on {0, 3} and dev3 on {4} satisfy every posted constraint of the declared instance |
| `Demo.SolveDevelopers` | src/main/java/org/example/DemoChocoSolver.java:14-71 | solving the declared instance returns a solution, never infeasibility |
| `Demo.LoneIsInfeasible` | src/main/java/org/example/DemoChocoSolver.java:58-66 | one developer available for one month cannot cover a five-month project, so there is no solution |
| `Demo.SolveLone` | src/main/java/org/example/DemoChocoSolver.java:71-81 | solving that instance reports Infeasible, and the listing then holds one empty line |

## Left out

- The constant variables built at lines 19-37 are modelled by their values.
  `model.intVar(name, v)` has the single value v. An `Instance` is an
  immutable value, so solving cannot change availabilities, durations or
  deadlines.
- Choco's own propagation, search heuristics and tie-breaking cannot be seen.
  The search here is this model's own.
- `Search.Solve`: does not state which solution is returned, only that it is
  valid and that infeasibility is reported only when no solution exists. The
  program's own choice depends on Choco's search order.
- Printing, the model and variable names, and the French labels (lines 11,
  22, 29, 36, 74-83) are output only. `Listing` keeps the printed index lists.
  The header's word "optimale" promises nothing: no objective is posted.
- Java's 32-bit `int`: values here are unbounded integers. The sums involved
  are at most the number of developers or projects, so nothing can wrap.
- Negative dimensions are ruled out by the type `nat`. In the program they
  make the array allocation at line 20 or 27 throw.
- Timeouts, cancellation and concurrency: the program has none.
