# Sudoku constraint model

This project models `SudokuSolver.solve` of the sudoku-game repository
up to the point where the search starts.

For an initial grid and a cell (block) size k, `solve` does the following in order:

- sets n = k·k;
- creates an n×n grid of solver variables with domain 1..n;
- copies the grid row by row into the flat array `grid_flat`;
- posts an equality constraint for every positive entry of the initial grid;
- posts one all-different constraint per row, per column and per k×k block.

The project also models the text that `solve` prints for each solution it finds.

The project has five modules:

- `RowMajor`: the flattening (i, j) ↦ i·w + j, which `solve` uses both for
  `grid_flat` and for the slots of a block's group. It is proved a bijection,
  with its inverse.
- `ConstraintModel`: the part of the solver interface that `solve` uses.
  - Variables carry their cell and domain.
  - Constraints are `Equality` and `AllDifferent`.
  - A grid of values satisfies a constraint list when every constraint holds.
- `SudokuConstraints`:
  - `SudokuModel` is the model that `solve` posts, written as a value.
  - `IsSolution` is the puzzle's own rules.
  - The lemmas prove the model's shape, its clues and group layout, how
    cells belong to groups, and that satisfying the model is the same as
    solving the puzzle.
- `SudokuSolver`: `solve`'s loops over arrays, as in the source. Each loop
  is proved to build its piece of `SudokuModel`, and `Solve` is proved to
  build all of it.
- `SolutionText`: the per-solution printing loop, proved to produce
  `Layout`. Reading the layout back gives the grid (`LayoutRoundTrip`).

The code performs no validation: it never checks that the grid is square,
that its side is k·k, or that a clue lies in 1..n. The model follows the
code, not the intended design:

- An initial grid with fewer than n rows, or a row shorter than n, fails
  with `IndexOutOfBounds`. This is the Java array-index exception.
- A larger grid has its extra entries ignored.
- A clue above n is posted as given, and it makes the model unsatisfiable.
- Zero and negative entries post nothing.
- A negative cell size gives n = k·k > 0. The row and column loops run, but
  the block loop runs zero times.

## Model

| member | source | states |
|---|---|---|
| SudokuSolver.Solve | src/net/sourceforge/solver/SudokuSolver.java:34-94 | The array-and-loop construction returns exactly `SudokuModel(initial_grid, cell_size)`: the flat variables and every posted constraint in posting order, or `IndexOutOfBounds` when the initial grid is too small |
| SudokuSolver.MakeVariables | src/net/sourceforge/solver/SudokuSolver.java:46-54 | Returns fresh arrays. `grid[i, j]` is the variable of cell (i, j) with domain 1..n, and the flat array equals `FlatVars(n)`, the row-major list of those variables |
| SudokuSolver.PostRows | src/net/sourceforge/solver/SudokuSolver.java:60-71 | The rows loop posts, row by row, that row's clue equalities and then its all-different. It fails exactly when the initial grid does not have n rows of at least n entries |
| SudokuSolver.PostRow | src/net/sourceforge/solver/SudokuSolver.java:61-71 | One row i: fails exactly when row i is missing or shorter than n. Otherwise returns the equalities for the positive entries of row i, left to right, followed by the all-different over cells (i, 0) … (i, n-1) |
| SudokuSolver.PostColumns | src/net/sourceforge/solver/SudokuSolver.java:73-80 | The columns loop posts, for j = 0 … n-1, the all-different over cells (0, j) … (n-1, j) |
| SudokuSolver.PostBlocks | src/net/sourceforge/solver/SudokuSolver.java:82-94 | The cells loop posts the all-different of block (i, j) for i, j < cell_size, row of blocks by row of blocks. With cell_size ≤ 0 it posts nothing |
| SudokuSolver.FillBlock | src/net/sourceforge/solver/SudokuSolver.java:85-91 | Filling the `cell` array with the di/dj loops yields exactly `BlockVars(k, i, j)`: slot di·k + dj holds cell (i·k + di, j·k + dj) |
| RowMajor.FlattenInRange | src/net/sourceforge/solver/SudokuSolver.java:52 | i·w + j lies in [0, h·w) for i < h, j < w. This is why `grid_flat[i * n + j]` is in bounds |
| RowMajor.FlattenDivMod | src/net/sourceforge/solver/SudokuSolver.java:52 | Dividing i·w + j by w gives quotient i and remainder j |
| RowMajor.UnflattenInRange | src/net/sourceforge/solver/SudokuSolver.java:47-54 | Every position p < h·w is the flattening of (p / w, p % w), and both lie in range |
| RowMajor.RowMajorBijection | src/net/sourceforge/solver/SudokuSolver.java:47-54 | (i, j) ↦ i·w + j maps [0, h)×[0, w) into [0, h·w) and is undone by (p / w, p % w). Every position is hit, so the map is a bijection |
| RowMajor.FlattenInjective | src/net/sourceforge/solver/SudokuSolver.java:52 | Two cells with the same flat position are the same cell |
| SudokuConstraints.SudokuModel | src/net/sourceforge/solver/SudokuSolver.java:34-94 | Defines, as a value, what `solve` posts: n = k·k, the row-major variables, then the clue equalities and row groups row by row, the column groups and the block groups. It is `IndexOutOfBounds` when an entry it reads is missing |
| SudokuConstraints.GridVar | src/net/sourceforge/solver/SudokuSolver.java:51 | Defines the variable of cell (i, j): domain 1..n |
| SudokuConstraints.FlatVars | src/net/sourceforge/solver/SudokuSolver.java:47-54 | Defines `grid_flat` after the variables loop: position p holds the variable of cell (p / n, p % n) |
| SudokuConstraints.ClueConstraints | src/net/sourceforge/solver/SudokuSolver.java:63-67 | Defines the equalities row i posts for columns 0 … j-1: one for each positive entry, to that entry, left to right |
| SudokuConstraints.RowConstraints | src/net/sourceforge/solver/SudokuSolver.java:61-71 | Defines what the rows loop posts for rows 0 … i-1: each row's clue equalities, then its all-different |
| SudokuConstraints.RowVars | src/net/sourceforge/solver/SudokuSolver.java:62-69 | Defines the `row` array of row i: cells (i, 0) … (i, n-1) |
| SudokuConstraints.ColumnConstraints | src/net/sourceforge/solver/SudokuSolver.java:74-80 | Defines what the columns loop posts for columns 0 … j-1: one all-different each |
| SudokuConstraints.ColumnVars | src/net/sourceforge/solver/SudokuSolver.java:75-78 | Defines the `col` array of column j: cells (0, j) … (n-1, j) |
| SudokuConstraints.BlockVars | src/net/sourceforge/solver/SudokuSolver.java:85-91 | Defines the `cell` array of block (i, j): slot s holds cell (i·k + s / k, j·k + s % k) |
| SudokuConstraints.BlockRowConstraints | src/net/sourceforge/solver/SudokuSolver.java:84-93 | Defines what one row i of blocks posts for blocks (i, 0) … (i, j-1): one all-different each |
| SudokuConstraints.BlockConstraints | src/net/sourceforge/solver/SudokuSolver.java:83-94 | Defines what the cells loop posts for block rows 0 … i-1 |
| SudokuConstraints.Iterations | src/net/sourceforge/solver/SudokuSolver.java:83-84 | Defines how many times a loop `x < cell_size` runs: cell_size, or zero when it is not positive |
| SudokuConstraints.ModelFailsIffTooSmall | src/net/sourceforge/solver/SudokuSolver.java:61-64 | `solve` fails if and only if some entry `initial_grid[i][j]` with i, j < n that the loop reads does not exist |
| SudokuConstraints.ModelVariables | src/net/sourceforge/solver/SudokuSolver.java:39-54 | n = k·k, and there are n·n variables. Each has domain exactly 1..n and names a cell of the grid. `grid_flat[i·n + j]` is the variable of cell (i, j) |
| SudokuConstraints.ClueMembers | src/net/sourceforge/solver/SudokuSolver.java:63-67 | The equalities posted for row i up to column j are exactly those for the columns c < j whose entry is positive, each to that entry |
| SudokuConstraints.RowConstraintMembers | src/net/sourceforge/solver/SudokuSolver.java:61-71 | Across the first i rows, the equalities posted are exactly those for the positive entries of those rows |
| SudokuConstraints.CluesExactlyPositiveEntries | src/net/sourceforge/solver/SudokuSolver.java:64-67 | Cell (r, c) has an equality to its initial entry if and only if that entry is positive. Every equality of the model is of that kind, so zero and negative entries add nothing |
| SudokuConstraints.ClueAboveSideUnsatisfiable | src/net/sourceforge/solver/SudokuSolver.java:51-67 | A clue above n leaves no assignment that satisfies the model, because the cell's domain is 1..n |
| SudokuConstraints.ColumnConstraintsAllDifferent | src/net/sourceforge/solver/SudokuSolver.java:74-80 | The columns loop posts only all-different constraints |
| SudokuConstraints.BlockConstraintsAllDifferent | src/net/sourceforge/solver/SudokuSolver.java:83-94 | The cells loop posts only all-different constraints |
| SudokuConstraints.BlockRowConstraintsAllDifferent | src/net/sourceforge/solver/SudokuSolver.java:84-93 | One row of blocks posts only all-different constraints |
| SudokuConstraints.ClueGroupsEmpty | src/net/sourceforge/solver/SudokuSolver.java:63-67 | The clue equalities contribute no all-different group |
| SudokuConstraints.RowGroupsPrefix | src/net/sourceforge/solver/SudokuSolver.java:61-71 | After i rows, the groups posted are row groups 0 … i-1 in order, each listing (r, 0) … (r, n-1) |
| SudokuConstraints.ColumnGroupsPrefix | src/net/sourceforge/solver/SudokuSolver.java:74-80 | After j columns, the groups posted are column groups 0 … j-1 in order, each listing (0, c) … (n-1, c) |
| SudokuConstraints.BlockRowGroups | src/net/sourceforge/solver/SudokuSolver.java:84-93 | Row i of blocks posts the groups of blocks (i, 0) … (i, j-1) in order |
| SudokuConstraints.BlockGroupsRow | src/net/sourceforge/solver/SudokuSolver.java:83-94 | In posting order, block row i occupies positions i·k … (i+1)·k - 1 |
| SudokuConstraints.BlockGroupsPrefix | src/net/sourceforge/solver/SudokuSolver.java:83-94 | After i rows of blocks, the groups posted are the first i·k block groups in posting order |
| SudokuConstraints.GroupsInPostingOrder | src/net/sourceforge/solver/SudokuSolver.java:61-94 | The all-different groups of the model are the n row groups, then the n column groups, then the block groups |
| SudokuConstraints.GroupListsOnGrid | src/net/sourceforge/solver/SudokuSolver.java:61-94 | There are 2n + k·k groups, each of n cells, and every cell is on the n×n grid |
| SudokuConstraints.GroupLayout | src/net/sourceforge/solver/SudokuSolver.java:61-94 | The model has exactly 3n all-different groups when k ≥ 0, or 2n when k < 0 (no blocks). Each group has size n, every index stays in [0, n), and the order is rows, columns, blocks |
| SudokuConstraints.GroupsMembers | src/net/sourceforge/solver/SudokuSolver.java:70-92 | A list of variables is a group of the constraint list if and only if an all-different over it was posted |
| SudokuConstraints.BlockSlotCell | src/net/sourceforge/solver/SudokuSolver.java:86-90 | For i, j, di, dj < k, the addresses stay in bounds: slot di·k + dj is in [0, n) and cell (i·k + di, j·k + dj) is on the grid. Block (i, j)'s group holds that cell at that slot |
| SudokuConstraints.BlockSlotOnGrid | src/net/sourceforge/solver/SudokuSolver.java:86-90 | Every slot of block (bi, bj) holds a cell of the grid whose row / k is bi and whose column / k is bj |
| SudokuConstraints.CellMembership | src/net/sourceforge/solver/SudokuSolver.java:61-94 | Every cell (r, c) lies in exactly one row group (r, at slot c) and one column group (c, at slot r). It lies in exactly one block group: block (r / k, c / k), at slot (r % k)·k + c % k |
| SudokuConstraints.RowGroupDistinct | src/net/sourceforge/solver/SudokuSolver.java:70 | Row i's all-different holds if and only if row i of the grid has no repeated value |
| SudokuConstraints.ColumnGroupDistinct | src/net/sourceforge/solver/SudokuSolver.java:79 | Column j's all-different holds if and only if column j of the grid has no repeated value |
| SudokuConstraints.BlockGroupsDistinct | src/net/sourceforge/solver/SudokuSolver.java:83-94 | Every block's all-different holds if and only if no two distinct cells in the same k×k block have equal values |
| SudokuConstraints.DistinctGroupListsSeparateLines | src/net/sourceforge/solver/SudokuSolver.java:61-94 | If every posted group is distinct, every row, column and block of the grid is |
| SudokuConstraints.GroupListsDistinct | src/net/sourceforge/solver/SudokuSolver.java:61-94 | If every row, column and block of the grid is distinct, every posted group is |
| SudokuConstraints.SatisfiedModelIsSolution | src/net/sourceforge/solver/SudokuSolver.java:34-94 | A grid that satisfies the posted model solves the puzzle: values in 1..n, clues kept, rows, columns and blocks without repeats |
| SudokuConstraints.SolutionSatisfiesModel | src/net/sourceforge/solver/SudokuSolver.java:34-94 | A solution of the puzzle satisfies every variable domain and every posted constraint |
| SudokuConstraints.ModelSatisfiedIffSolution | src/net/sourceforge/solver/SudokuSolver.java:34-94 | A grid satisfies the model `solve` posts if and only if it solves the puzzle |
| SolutionText.Layout | src/net/sourceforge/solver/SudokuSolver.java:107-113 | Defines the text printed for one solution: the line of every row, then an empty line |
| SolutionText.Line | src/net/sourceforge/solver/SudokuSolver.java:108-111 | Defines one printed line: the row's values, each followed by one space, then a newline |
| SolutionText.RowText | src/net/sourceforge/solver/SudokuSolver.java:108-110 | Defines the values of a row, each printed followed by one space |
| SolutionText.Cell | src/net/sourceforge/solver/SudokuSolver.java:109 | Defines what is printed for one value: its decimal text, then one space |
| SolutionText.IntToString | src/net/sourceforge/solver/SudokuSolver.java:109 | Defines Java's decimal text of an integer: a minus sign for negative values, then the digits of the magnitude without leading zeros |
| SolutionText.FormatSolution | src/net/sourceforge/solver/SudokuSolver.java:107-113 | The printing loop produces exactly `Layout(values)` |
| SolutionText.FormatLine | src/net/sourceforge/solver/SudokuSolver.java:108-111 | The inner printing loop and the `println` after it produce `Line(row)`: every value in decimal followed by one space, then a newline |
| SolutionText.RowTextSnoc | src/net/sourceforge/solver/SudokuSolver.java:109 | Printing one more value appends its decimal text and one space to the line |
| SolutionText.RowsTextSnoc | src/net/sourceforge/solver/SudokuSolver.java:107-112 | Printing one more row appends that row's line |
| SolutionText.NatToStringDigits | src/net/sourceforge/solver/SudokuSolver.java:109 | The decimal text of a natural number is non-empty, all digits, and denotes that number |
| SolutionText.IntToStringDigits | src/net/sourceforge/solver/SudokuSolver.java:109 | Java's decimal text of a value: it starts with '-' exactly for negative values, and the rest is the digits of the magnitude |
| SolutionText.DigitSpan | src/net/sourceforge/solver/SudokuSolver.java:109 | The leading run of digits of a text: all digits, and ended by a non-digit or by the end of the text |
| SolutionText.ParseIntRoundTrip | src/net/sourceforge/solver/SudokuSolver.java:109 | A printed value followed by a non-digit reads back as that value, leaving the rest of the text |
| SolutionText.ParseRowRoundTrip | src/net/sourceforge/solver/SudokuSolver.java:108-111 | A printed line reads back as its row of values, leaving whatever follows it |
| SolutionText.RowsTextLineCount | src/net/sourceforge/solver/SudokuSolver.java:107-112 | The lines of an n-row grid contain exactly n newlines: printed values never contain one |
| SolutionText.LayoutRoundTrip | src/net/sourceforge/solver/SudokuSolver.java:107-113 | The printed text of a solution reads back as that solution, so the layout loses nothing |
| SolutionText.LayoutLineCount | src/net/sourceforge/solver/SudokuSolver.java:107-113 | The printed text of an n-row solution has n + 1 newlines: one per row, then the empty line |

## Left out

- The search: `makePhase`, `newSearch`, `nextSolution` and `endSearch`
  (SudokuSolver.java:100-115). They belong to the native constraint-solver
  library, whose propagation and enumeration order are not visible. The
  model states only which grids satisfy the posted constraints, and claims
  nothing about how many solutions there are or the order they are found in.
- The statistics printed after the search (SudokuSolver.java:118-122). They
  are values the library provides, one of them wall-clock time.
- Loading the native library (SudokuSolver.java:22-24), and the printing to
  standard output itself. `FormatSolution` returns the text instead of
  writing it, and a line separator is written `"\n"`.
- The `Solver` object that `solve` returns. The model returns the list of
  constraints posted to it, in posting order, together with the flat
  variables.
- The public static field `grid` (SudokuSolver.java:33, 46). The model
  keeps the grid local to one `Solve` call, so aliasing between calls is
  not modelled.
- `main`'s hard-coded 25×25 puzzle (SudokuSolver.java:128-158). It is
  input data only.
- src/net/sourceforge/playsudoku/Applet.java, which is user-interface startup.
- Variable names `"grid[i,j]"`, which are debugging labels only.
- A `null` initial grid or a `null` row, which raises a null-reference
  exception in Java. Sequences cannot be null.
- SudokuSolver.Solve: requires |cell_size| ≤ 215, so that n·n = cell_size⁴
  (the length of `grid_flat`) fits a Java `int`. Beyond that the Java
  multiplication wraps around and is not modelled.
- Validation of the grid's shape or clue range: the code performs none.
  An oversized grid is read only up to n×n, and out-of-range clues are
  posted as given.
- SolutionText.FormatSolution: takes the values the search assigned as its
  input, because reading them with `value()` is a call into the library.
