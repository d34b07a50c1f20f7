# Sudoku solver: a Dafny model of the puzzle-to-constraints core

The program solves a 9×9 Sudoku by handing it to a constraint solver. Its own work is to turn the
81 input bytes into 81 solver variables, register 27 all-different groups over them, and ask for a
depth-first search with a fixed strategy. The strategy picks the first unbound variable in row-major
order and tries its minimum value first. The program takes the first solution. This project
models that work and proves what it guarantees:

- `grid.dfy` (module `Grid`): the index arithmetic of `GetRow`, `GetColumn`, `GetSquare` and
  `GetAll`. A group is the sequence of cells it selects. The source's groups hold references to the
  very variable objects of the grid, so a cell stands for its variable.
- `puzzle.dfy` (module `Puzzle`): the clue rule (`MakeCell`). It has the nested loops that fill the
  9×9 array of variables (`CreateVariables`, over an `array2`). It has the solver's constraint list
  (class `Solver`), `AddMakeAllDifferent`, and the registration loop (`AddConstraints`), proved
  against the specification function `Registry`.
- `search.dfy` (module `Search`): a reference statement of the search phase. It is a backtracking
  search over partial assignments. It binds the variables in order and tries values smallest first.
  It skips a value once the assigned cells break a constraint. It is proved to return the
  lexicographically least solution and to return none exactly when none exists. This holds for any
  domains and any all-different groups of cells, as long as the variables are listed in row-major
  order. A constraint names cells, and a cell's value is read at its row-major position, so the k-th
  variable must be that of cell (k/9, k%9). `GetAll` gives exactly this order (`AllRowMajor`,
  `AllOfCreated`).
- `sudoku.dfy` (module `Sudoku`): the program's own instance of that search, `Solve`, and `Run`,
  which strings the steps of `Main` together. `IsSudoku` is an independent definition of a solved
  grid: values 1..9, clues kept, no repeat in a row, column or square. It is proved equivalent to
  "satisfies the 27 registered groups". Its consequences are proved too.

The input is a parameter: `data` is a sequence of 81 bytes. In the source it is a freshly zeroed
array (`Program.cs:9`), so the program as written always solves the empty grid. `EmptyGridSolved`
proves that this case yields a solution.

Where the design description and the code differ, the model follows the code:

- The design says a clue outside 0..9 is an invalid puzzle. The code treats every byte outside
  1..9 as a blank cell (`OutOfRangeIsBlank`).
- The design describes a purpose-built engine with forward checking, an undo log and step limits.
  The code delegates all of that to the constraint solver. Only the contract of its result is
  modelled.

## Model

| member | source | states |
|---|---|---|
| Grid.RowMembers | SudokuSolver/Program.cs:62-68 | `GetRow(row)` is the cells (row,0)..(row,8) in column order: a cell is in it iff it is in the grid and on that row, and no cell repeats |
| Grid.ColumnMembers | SudokuSolver/Program.cs:70-76 | `GetColumn(column)` is the cells (0,column)..(8,column) in row order: a cell is in it iff it is in the grid and in that column, and no cell repeats |
| Grid.SquareAt | SudokuSolver/Program.cs:78-89 | the k-th cell yielded by the nested loops of `GetSquare(s)` is (3*(s/3) + k/3, 3*(s%3) + k%3) |
| Grid.SquareMembers | SudokuSolver/Program.cs:78-89 | `GetSquare(s)` has 9 pairwise-distinct cells; a cell is in it iff its row lies in [3*(s/3), 3*(s/3)+2] and its column in [3*(s%3), 3*(s%3)+2], iff it is in the grid and `SquareOf` maps it to s |
| Grid.SquareRange | SudokuSolver/Program.cs:80-86 | the row and column bands of square s hold exactly the grid cells c with 3*(c.row/3) + c.col/3 == s |
| Grid.Partition | SudokuSolver/Program.cs:62-89 | each grid cell lies in exactly one row (its own), one column (its own) and one square, namely 3*(row/3) + col/3 |
| Grid.AllRowMajor | SudokuSolver/Program.cs:91-100 | `GetAll` yields all 81 cells once each in row-major order: its k-th cell is (k/9, k%9), and cell (i,j) sits at position i*9+j |
| Puzzle.MakeCell | SudokuSolver/Program.cs:20-23 | a byte in 1..9 gives a constant that admits only that value; any other byte gives a variable admitting exactly 1..9; the domain is never empty and lies within 1..9 |
| Puzzle.OutOfRangeIsBlank | SudokuSolver/Program.cs:21-23 | a byte of 0 or above 9 yields the same variable as a blank, with domain 1..9; it is not rejected |
| Puzzle.CreateVariables | SudokuSolver/Program.cs:15-25 | the nested loops return a fresh 9×9 array whose entry [i,j] is the variable the clue rule makes from data[i*9+j] |
| Puzzle.AllOfCreated | SudokuSolver/Program.cs:37-38 | listing the filled array in `GetAll` order gives the variables made from data[0], data[1], .., data[80], in that order |
| Puzzle.Solver.constructor | SudokuSolver/Program.cs:12 | a new solver holds no constraints |
| Puzzle.Solver.Add | SudokuSolver/Program.cs:59 | adding a constraint appends it to the solver's list |
| Puzzle.AddMakeAllDifferent | SudokuSolver/Program.cs:57-60 | appends one all-different constraint over exactly the given cells |
| Puzzle.RegistryStep | SudokuSolver/Program.cs:28-33 | iteration i of the loop extends the registered groups by row i, column i and square i, in that order |
| Puzzle.AddConstraints | SudokuSolver/Program.cs:28-33 | the loop appends exactly the 27 groups of `Registry` to the solver's list and nothing else |
| Puzzle.RegistryGroups | SudokuSolver/Program.cs:28-33 | there are 27 registered groups; each has 9 pairwise-distinct cells of the grid |
| Puzzle.InGroup | SudokuSolver/Program.cs:28-33 | a grid cell is in group g iff g is 3*row (its row), 3*col+1 (its column) or 3*SquareOf+2 (its square) |
| Puzzle.CellInThreeGroups | SudokuSolver/Program.cs:28-33 | every grid cell belongs to exactly three registered groups, three distinct group numbers: its row, its column and its square |
| Search.ConsistentPrefix | SudokuSolver/Program.cs:38-42 | every prefix of a consistent assignment is consistent, so pruning an inconsistent partial assignment loses no solution |
| Search.SearchFromCorrect | SudokuSolver/Program.cs:37-42 | from a consistent partial assignment, the search returns a solution that extends it and comes lexicographically first among all such solutions; it returns none iff no solution extends it |
| Search.TryFromCorrect | SudokuSolver/Program.cs:38-42 | trying values x, x+1, .. for the first unbound variable returns the least solution whose value there is at least x, or none iff every solution has a smaller value there |
| Sudoku.SolutionIsSudoku | SudokuSolver/Program.cs:20-33 | a full assignment satisfies the variables' domains and the 27 groups iff it is a solved grid: values 1..9, clues kept, no value twice in a row, column or square |
| Sudoku.SolveCorrect | SudokuSolver/Program.cs:37-48 | the first solution is the lexicographically least solved grid in row-major order, and there is none iff the puzzle has no solution |
| Sudoku.UniqueSolutionFound | SudokuSolver/Program.cs:41-42 | a puzzle with exactly one completion yields that completion |
| Sudoku.OneBlankSolved | SudokuSolver/Program.cs:20-42 | a grid with one blank cell and 80 clues that some solved grid keeps: the search returns that solved grid, so the blank gets the one value that completes the grid |
| Sudoku.SolvedGridUnchanged | SudokuSolver/Program.cs:41-42 | a grid that is already completed and valid is returned unchanged |
| Sudoku.DuplicateCluesUnsolvable | SudokuSolver/Program.cs:21-33 | two equal clues in one row, column or square leave no solution, so nothing is printed |
| Sudoku.GroupHoldsEveryDigit | SudokuSolver/Program.cs:28-33 | in a solution every row, column and square holds each digit 1..9 at some cell, and at no more than one cell |
| Sudoku.EmptyGridSolved | SudokuSolver/Program.cs:9-42 | the all-zero input the program allocates has a solution, so the search returns a solved grid |
| Sudoku.Run | SudokuSolver/Program.cs:7-49 | creating the variables, registering the groups and searching yields the least solved grid of data, or no solution iff none exists |

## Left out

- Solver propagation: how the constraint solver prunes domains is not modelled. This covers the
  strength of its all-different constraint, its trail and choice points, and the mechanics of
  `NewSearch`, `NextSolution` and `EndSearch`. That code is not part of this model. The search in
  `Search` fixes only what the result must be. The solver's pruning removes no value that belongs to
  a solution. So it changes the order of work, not which solution a first-unbound, smallest-value
  depth-first search finds first.
- Search.SearchFromCorrect: does not model the solver's own search steps, only their outcome.
- Console output is left out: the variable names `cell_i_j`, the printed constraint count and the
  printed values (`Program.cs:23`, `34`, `44-47`). It is formatting. `Run` returns the solution
  instead of printing it.
- `solver.Solutions()`, `solver.WallTime()` and `Solver.MemoryUsage()` are left out
  (`Program.cs:50-54`). These are runtime diagnostics of the library.
- Input loading: the source has none. The 81 bytes are a parameter of `Run` and `Solve`. The model
  does not reproduce the zeroed array, except in `EmptyGridSolved`.
- Puzzle.CreateVariables: solver variables are modelled as values (a constant or a range), not as
  objects owned by the solver. Object identity is carried by the grid cell instead.
- Grid.RowMembers, Grid.ColumnMembers, Grid.SquareMembers: the source's functions take the variable
  array and yield its entries. The model yields the cells those entries are read from. An index
  outside 0..8 would make the source throw; the model requires indices in 0..8, which is all the
  registration loop passes.
