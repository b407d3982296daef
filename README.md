# Go course exercises, modelled in Dafny

This project models seven small programs from a Go course. Each program becomes one Dafny module. Every operation is proved against a specification that states what the Go code does.

- **`Matrices`** (with the pure grid functions of `MatrixGrid` and `GaussElimination`) is the dense matrix library. It covers:
  - shape-checked sum, difference and product;
  - transpose;
  - minors and the cofactor determinant;
  - the adjugate inverse;
  - two in-place sorts;
  - Gaussian elimination with partial pivoting.

  Cells are exact reals. The `1e-10` singularity threshold is the real constant `Epsilon`.
- **`BasicMemory`** is the basic memory manager. It keeps a row of cells and does a first-fit scan over them.
- **`FreeListMemory`** is the memory manager with a free list. Allocation is first fit over the list. Freeing zeroes the first run of a block and appends that run to the list. Coalescing then sorts the list by start and merges runs that touch.
- **`ShuntingYard`** is the expression calculator. It has:
  - an expression tree with evaluation and prefix, infix and postfix renderings;
  - the shunting-yard parser over a token sequence.
- **`FileCheck`** is the file comparison tool. It keeps a chained hash set of strings with 100 buckets and runs a two-way scan that decides whether two such sets hold the same lines.
- **`Graphs`** is the dependency graph. It keeps adjacency lists, computes the dependency index between two vertex lists, and builds the weighted graph between named vertex lists.
- **`Routes`** holds the route queries: sort by distance, count short average hops, filter by start station, and the routes with the most stops.
- **`Results`** holds the shared `Result` and `Option` datatypes. A Go function that returns `(value, error)` returns a `Result` here.

How the Go code is represented:
- A Go struct whose fields a method updates in place is a Dafny `class`. The memory cell buffers are `array<int>`. The free list, matrix rows, buckets and adjacency lists are `seq` and `map` fields that the methods reassign.
- Loops in the Go code are `while`/`for` loops here, proved against the pure functions that specify them.
- Recursive code, such as the determinant, tree evaluation and rendering, becomes pure functions.
- The FNV-1a hash is a function-valued constant given to the hash table constructor. Only its values matter.
- Tokens are given as a sequence of `Num(value)` / `Word(text)`. Renderings are item sequences.

## Model

| member | source | states |
|---|---|---|
| Matrices.Matrix.constructor | matrix2/matrix.go:14-20 | a rows x cols matrix whose every cell is 0 |
| Matrices.Matrix.Add | matrix2/matrix.go:22-33 | fails with a dimension error exactly when the shapes differ; otherwise a fresh matrix of the same shape holding the cell-wise sums |
| Matrices.Matrix.Subtract | matrix2/matrix.go:35-46 | fails exactly when the shapes differ; otherwise a fresh same-shape matrix of cell-wise differences |
| MatrixGrid.SubtractUndoesAdd | matrix2/matrix.go:22-46 | subtracting b from a + b gives back a |
| Matrices.Matrix.Multiply | matrix2/matrix.go:48-61 | fails exactly when the column count of the left operand differs from the row count of the right one; otherwise a fresh rows x other.cols matrix whose cell (i, j) is the sum over k of a[i][k] * b[k][j] |
| Matrices.Matrix.AccumulateCell | matrix2/matrix.go:55-57 | the innermost loop leaves in cell (i, j) the dot product of row i and column j, and no other cell changes |
| MatrixGrid.IdentityNeutral | matrix2/matrix.go:48-61 | the product with the identity on either side gives back the matrix |
| Matrices.Matrix.Transpose | matrix2/matrix.go:63-71 | a fresh cols x rows matrix with result[j][i] = data[i][j] |
| MatrixGrid.TransposeTwice | matrix2/matrix.go:63-71 | transposing twice gives back the original |
| MatrixGrid.Minor | matrix2/matrix.go:94-119 | the minor of an n x n grid is (n-1) x (n-1): the grid without the given row and column, order kept |
| Matrices.GetMinor | matrix2/matrix.go:94-119 | the loop that builds the minor computes exactly Minor |
| Matrices.DeterminantRecursive | matrix2/matrix.go:80-92 | the recursive loop computes Det: the cell itself for 1 x 1, 0 for 0 x 0, and the alternating sum of first-row cells times the determinants of their minors otherwise |
| Matrices.Matrix.Determinant | matrix2/matrix.go:73-78 | fails with NotSquare on a non-square matrix, otherwise returns Det of the data |
| MatrixGrid.DetTwoByTwo | matrix2/matrix.go:80-92 | the determinant of [[a, b], [c, d]] is ad - bc |
| MatrixGrid.DetZeroRow | matrix2/matrix.go:80-92 | a matrix whose first row is zero has determinant 0 |
| MatrixGrid.DetIdentity | matrix2/matrix.go:80-92 | the n x n identity has determinant 1 |
| MatrixGrid.DetExample | matrix2/matrix.go:80-92 | det [[1, 2], [3, 4]] = -2 |
| Matrices.Matrix.CofactorMatrix | matrix2/matrix.go:129-135 | cell (i, j) is (-1)^(i+j) times the determinant of minor (i, j) (corrected for 1 x 1, see Findings) |
| Matrices.Matrix.Inverse | matrix2/matrix.go:121-143 | NotSquare on a non-square matrix; Singular exactly when the determinant's magnitude is below 1e-10; otherwise a fresh n x n matrix equal to the transposed cofactor matrix divided by the determinant (with the empty minor of a 1 x 1 matrix given determinant 1, see Findings) |
| MatrixGrid.InverseOneByOne | matrix2/matrix.go:121-143 | the corrected inverse of [[a]] is [[1/a]] and is a two-sided inverse |
| MatrixGrid.InverseAsWrittenOneByOne | matrix2/matrix.go:80-92 | as written, the inverse of [[a]] is [[0]], which is not an inverse |
| MatrixGrid.InverseCellsTwoByTwo | matrix2/matrix.go:121-143 | the inverse of a 2 x 2 matrix is [[d, -b], [-c, a]] / (ad - bc) |
| MatrixGrid.InverseTwoByTwo | matrix2/matrix.go:121-143 | for 2 x 2 matrices the inverse is a two-sided inverse |
| MatrixGrid.InverseExample | matrix2/matrix.go:121-143 | the inverse of [[1, 2], [3, 4]] is [[-2, 1], [1.5, -0.5]] |
| Matrices.RowLexicographicSort.Sort | matrix2/matrix.go:168-176 | the rows end in non-decreasing order of their first cell, as a permutation of the original rows, shape unchanged |
| Matrices.RowExchangeStep | matrix2/matrix.go:170-173 | one compare-and-exchange of rows i and j keeps rows before i sorted and row i's first cell the smallest seen so far |
| Matrices.ColumnLexicographicSort.Sort | matrix2/matrix.go:182-192 | every row ends sorted left to right, each as a permutation of that same row's cells |
| Matrices.ColumnLexicographicSort.ExchangeInEveryRow | matrix2/matrix.go:185-189 | the k loop applies the compare-and-exchange of cells i and j to every row and to nothing else |
| Matrices.CellExchangeStep | matrix2/matrix.go:186-188 | one compare-and-exchange keeps cell i the smallest of cells i..j |
| Matrices.ExchangeIfGreater | matrix2/matrix.go:171-173 | the conditional exchange keeps the length and the multiset of the sequence |
| Matrices.Matrix.SolveSystem | matrix2/matrix.go:195-243 | NotSquare, then DimensionMismatch when len(b) differs from rows; otherwise it fails (Singular) exactly when elimination with partial pivoting meets a pivot below 1e-10 in magnitude after the row swap, and else returns a vector x of length rows with A x = b; Singular whenever the whole first column is below 1e-10 in magnitude; the matrix is not modified |
| GaussElimination.FindPivot | matrix2/matrix.go:209-214 | the first row at or below i with the largest magnitude in column i, the same row the scan PivotRow picks |
| GaussElimination.AugmentRows | matrix2/matrix.go:203-206 | row i of the working copy is row i of A followed by b[i] |
| GaussElimination.PivotAndEliminate | matrix2/matrix.go:209-229 | one column of elimination computes ColumnStep (pivot row swapped into row i, nothing when the pivot is below 1e-10, else the column cleared below it); on success the pivot is non-zero, column i is zero below it, the rows above are kept and every solution of the result solves the input |
| GaussElimination.EliminateAll | matrix2/matrix.go:208-230 | the outer loop gives up exactly when EliminateFrom (column after column of ColumnStep) does; otherwise it leaves an upper-triangular system with a non-zero diagonal whose solutions solve the original one |
| GaussElimination.SucceedsOnlyWithFirstPivot | matrix2/matrix.go:208-221 | elimination that succeeds had a first-column cell of magnitude at least 1e-10 |
| GaussElimination.EliminateBelow | matrix2/matrix.go:224-229 | subtracts factor times the pivot row from every row below it |
| GaussElimination.EliminationKeepsSolutions | matrix2/matrix.go:224-229 | a solution of the eliminated system solves the original one |
| GaussElimination.EliminationZeroesColumn | matrix2/matrix.go:224-229 | after elimination, column i is zero below the diagonal |
| GaussElimination.SwapKeepsSolutions | matrix2/matrix.go:216 | exchanging two rows keeps the solutions |
| GaussElimination.BackSubstitute | matrix2/matrix.go:233-240 | back substitution on an upper-triangular system with non-zero diagonal yields a solution |
| GaussElimination.AugmentSolves | matrix2/matrix.go:203-206 | x solves the augmented matrix exactly when A x = b |
| GaussElimination.SolveExample | matrix2/matrix.go:195-243 | [[2, 1], [1, 3]] x = [5, 10] exactly when x = [1, 3] |
| GaussElimination.SingularExample | matrix2/matrix.go:195-243 | [[1, 2], [2, 4]] x = [1, 3] has no solution |
| GaussElimination.EliminateExample | matrix2/matrix.go:208-230 | elimination on the system [[2, 1], [1, 3]] x = [5, 10] keeps row 0 as the first pivot and succeeds with [[2, 1, 5], [0, 2.5, 7.5]] |
| GaussElimination.EliminateSingularExample | matrix2/matrix.go:208-230 | elimination on the system [[1, 2], [2, 4]] x = [1, 3] swaps row 1 up, then meets a zero pivot and gives up |
| BasicMemory.MemoryManager.constructor | C1/memory_man_basic.go:13-18 | numCells cells, all 0, and blockCounter 1 |
| BasicMemory.FirstFit | C1/memory_man_basic.go:20-45 | -1 exactly when no run of n free cells exists; otherwise the lowest start of such a run |
| BasicMemory.MemoryManager.Allocate | C1/memory_man_basic.go:20-45 | returns FirstFit of the old cells for numCells >= 1; on success exactly cells [start, start + numCells) receive the old counter and the counter rises by one; -1 with cells unchanged otherwise; numCells < 1 always gives -1, and 0 bumps the counter once a used cell is scanned |
| BasicMemory.MemoryManager.WriteId | C1/memory_man_basic.go:36-38 | exactly cells [start, start + n) receive the current id |
| BasicMemory.MemoryManager.Free | C1/memory_man_basic.go:47-53 | every cell holding blockID becomes 0, every other cell is unchanged |
| BasicMemory.FreshIdOccupiesRun | C1/memory_man_basic.go:35-40 | after allocation, the cells holding the fresh id are exactly the returned run |
| BasicMemory.FillKeepsIdsBelow | C1/memory_man_basic.go:35-40 | allocation keeps every cell in [0, blockCounter) |
| BasicMemory.ClearedKeepsIdsBelow | C1/memory_man_basic.go:47-53 | freeing keeps every cell in [0, blockCounter) |
| BasicMemory.FreeUndoesAllocate | C1/memory_man_basic.go:20-53 | freeing the id just allocated gives back the memory as it was |
| BasicMemory.ClearedIdempotent | C1/memory_man_basic.go:47-53 | freeing the same id twice is freeing it once |
| FreeListMemory.MemoryManager.constructor | memory_managment/memory_man.go:19-25 | numCells zero cells, counter 1, the single free run {0, numCells}, and the representation invariant holds |
| FreeListMemory.FirstFit | memory_managment/memory_man.go:28-30 | the index of the first run with at least n cells, or the list length |
| FreeListMemory.MemoryManager.Allocate | memory_managment/memory_man.go:27-46 | with no run large enough: -1 and nothing changes; otherwise returns the old start of the first fitting run, writes the old counter into exactly cells [start, start + numCells), shrinks that run (removing it at size 0), and bumps the counter; keeps the representation invariant for numCells >= 0 |
| FreeListMemory.MemoryManager.WriteId | memory_managment/memory_man.go:32-34 | exactly cells [start, start + n) receive the current id |
| FreeListMemory.MemoryManager.TakeFromRun | memory_managment/memory_man.go:37-41 | the run's start grows and its size shrinks by n; it leaves the list when its size reaches 0 |
| FreeListMemory.ShrinkIndex | memory_managment/memory_man.go:37-41 | after shrinking, run by run: the chosen run moved or removed, every other run unchanged and in order |
| FreeListMemory.ShrinkCovers | memory_managment/memory_man.go:37-41 | the shrunk list covers exactly the old free cells minus the allocated run |
| FreeListMemory.AllocateKeepsConsistent | memory_managment/memory_man.go:27-46 | allocation keeps the runs in bounds, strictly separated and covering exactly the zero cells, with every cell below the counter |
| FreeListMemory.MemoryManager.ClearFirstRun | memory_managment/memory_man.go:49-60 | zeroes exactly the first contiguous run of cells holding blockID and reports it, or {-1, 0} when no cell holds it |
| FreeListMemory.FirstRun | memory_managment/memory_man.go:49-60 | the reported run is {-1, 0} or a non-empty in-bounds run of cells holding the id |
| FreeListMemory.MemoryManager.Free | memory_managment/memory_man.go:48-64 | memory is the old memory with the first run of blockID zeroed; the new free list is the coalesced old list plus that run; the counter is unchanged; keeps the representation invariant for blockID != 0 |
| FreeListMemory.FreeKeepsConsistent | memory_managment/memory_man.go:48-64 | freeing a live id keeps the representation invariant |
| FreeListMemory.MemoryManager.CoalesceFreeBlocks | memory_managment/memory_man.go:66-85 | the new list is a coalescing of the old one |
| FreeListMemory.CoalesceRuns | memory_managment/memory_man.go:66-85 | lists shorter than 2 are left alone; otherwise the result is sorted by start, no run ends where the next begins, the total size and the covered cells are unchanged, and disjoint input runs give strictly separated output runs |
| FreeListMemory.SortByStart | memory_managment/memory_man.go:70-72 | the runs sorted by start, as a permutation |
| FreeListMemory.MergeTouching | memory_managment/memory_man.go:74-84 | the merge loop keeps its invariant to the end: sorted, no touching runs, total and covered cells those of the sorted runs |
| FreeListMemory.MergeGrow | memory_managment/memory_man.go:78-79 | extending the last merged run by a touching run keeps the merge invariant |
| FreeListMemory.MergeAppend | memory_managment/memory_man.go:80-81 | appending a non-touching run keeps the merge invariant |
| FreeListMemory.SwapKeepsTotal | memory_managment/memory_man.go:70-72 | exchanging neighbouring runs keeps the total size |
| FreeListMemory.SwapKeepsCovered | memory_managment/memory_man.go:70-72 | exchanging neighbouring runs keeps the covered cells |
| FreeListMemory.TotalConcat | memory_managment/memory_man.go:66-85 | the total size of a concatenation is the sum of the totals |
| ShuntingYard.Evaluate | sort_station/sort_station.go:23-68 | succeeds only when every operator is + - * /, always succeeds when in addition there is no division, and reports an unknown operator only when one is present |
| ShuntingYard.DivisionByZeroFails | sort_station/sort_station.go:60-63 | a division whose right operand evaluates to 0 fails |
| ShuntingYard.UnknownOperatorFails | sort_station/sort_station.go:65-66 | any other operator string fails with "unknown operator" |
| ShuntingYard.ToPrefix | sort_station/sort_station.go:74-76 | one symbol per node (2 leaves - 1), the root's symbol first, the numbers in left-to-right order |
| ShuntingYard.ToPostfix | sort_station/sort_station.go:78-80 | one symbol per node (2 leaves - 1), the root's symbol last, the numbers in left-to-right order |
| ShuntingYard.ToInfix | sort_station/sort_station.go:70-72 | a number alone; an operator node opens with "(" and ends with ")", three symbols per operator (4 leaves - 3 in all), the numbers in left-to-right order |
| ShuntingYard.PrefixRoundTrip | sort_station/sort_station.go:74-76 | the prefix rendering (op, left, right) reads back to the same tree |
| ShuntingYard.InfixRoundTrip | sort_station/sort_station.go:70-72 | the fully parenthesised infix rendering reads back to the same tree |
| ShuntingYard.PostfixReadsBack | sort_station/sort_station.go:78-80 | the postfix rendering (left, right, op) reads back to the same tree |
| ShuntingYard.Precedence | sort_station/sort_station.go:99-102 | * and / rank 2, + and - rank 1, everything else 0 |
| ShuntingYard.ApplyOperator | sort_station/sort_station.go:147-156 | fails with "Not enough operands for operator op" exactly when fewer than two trees are stacked; otherwise the top two are replaced by one operator node with the second-from-top on the left, the rest unchanged |
| ShuntingYard.ParseExpression | sort_station/sort_station.go:94-145 | the loop computes Parse: each token in turn, then drain, then exactly one tree must remain |
| ShuntingYard.ParseKeepsLeaves | sort_station/sort_station.go:104-156 | the numbers of a parsed tree, left to right, are the number tokens of the input in order |
| ShuntingYard.PopUntilOpenStops | sort_station/sort_station.go:110-116 | on ")" the popped operators are exactly those above the nearest "(": what stays is a prefix of the stack, empty or with "(" on top |
| ShuntingYard.CloseWithoutOpenAnywhere | sort_station/sort_station.go:109-119 | a ")" with no "(" on the operator stack always fails, with "Mismatched parentheses" unless applying an operator failed first |
| ShuntingYard.PopWhileAtLeastStops | sort_station/sort_station.go:121-128 | before an operator is stacked the popped operators are exactly the run on top with precedence at least the incoming one's: what stays is a prefix, empty or with a lower-precedence top |
| ShuntingYard.CloseWithoutOpen | sort_station/sort_station.go:109-119 | a leading ")" fails with "Mismatched parentheses" |
| ShuntingYard.NumbersWithoutOperators | sort_station/sort_station.go:141-144 | number tokens alone parse only when there is exactly one; otherwise "Invalid expression" |
| ShuntingYard.PrecedenceExample | sort_station/sort_station.go:121-130 | 1 + 2 * 3 parses as +(1, *(2, 3)) and evaluates to 7 |
| ShuntingYard.LeftAssociativeExample | sort_station/sort_station.go:121-130 | 8 - 2 - 1 parses as -(-(8, 2), 1) |
| ShuntingYard.UnmatchedOpenExample | sort_station/sort_station.go:133-139 | an unmatched "(" is drained and applied like an operator, or fails for lack of operands |
| FileCheck.HashTable.constructor | file_check/file_check.go:15-20 | exactly `size` empty buckets and no keys |
| FileCheck.HashTable.Hash | file_check/file_check.go:22-26 | the bucket index lies in [0, size) |
| FileCheck.HashTable.Add | file_check/file_check.go:28-36 | the key set gains the key; bucket hash(key) gets the key appended unless already there; every other bucket is unchanged; no bucket holds a duplicate |
| FileCheck.HashTable.Contains | file_check/file_check.go:38-46 | true exactly when the key is in the set |
| FileCheck.HashTable.ElementInOwnBucket | file_check/file_check.go:38-46 | a key is in the set exactly when it is in the bucket of its hash |
| FileCheck.SameKeys | file_check/file_check.go:86-106 | the two-way scan answers "same" exactly when both tables hold the same keys |
| FileCheck.Included | file_check/file_check.go:87-94 | one scan direction answers true exactly when every key of the first table is in the second |
| Graphs.Graph.constructor | graphs/graph.go:11-13 | an empty adjacency map |
| Graphs.Graph.AddEdge | graphs/graph.go:15-17 | v's list gets u appended (created when absent); every other vertex's list is unchanged |
| Graphs.DependencyIndex | graphs/graph.go:22-34 | the count is the number of pairs (v in setM, u in setN) with u counted once per occurrence in v's list |
| Graphs.DependencyPositive | graphs/graph.go:22-34 | the index is positive exactly when some vertex of setM has an edge to some vertex of setN (so 0 for empty sets or no out-edges) |
| Graphs.EdgesToPositive | graphs/graph.go:25-30 | the count for one vertex is positive exactly when its list holds a vertex of setN |
| Graphs.OccurrencesPositive | graphs/graph.go:26-30 | the occurrence count is positive exactly when the vertex is in the list |
| Graphs.DependencyAfterAddEdge | graphs/graph.go:15-34 | adding edge v -> u raises the index by (occurrences of v in setM) x (occurrences of u in setN) |
| Graphs.WeightedRow | graphs/graph.go:40-51 | the inner loop records, for every other name with a positive index, exactly that index |
| Graphs.GenerateWeightedGraph | graphs/graph.go:36-54 | weighted[m][n] exists exactly when m != n and the index of their lists is positive, and then equals that index; every present source has an entry; graph and sets are unchanged |
| Routes.SortRoutesByDistance | O1/routes.go:45-49 | the slice ends in non-decreasing distance order as a permutation of itself |
| Routes.InsertAt | O1/routes.go:45-49 | inserting route i into the sorted prefix sorts one more route and permutes the slice |
| Routes.CountRoutesWithAvgStopLengthLessThanX | O1/routes.go:51-62 | counts the routes with a positive stop count and distance / stops < x; between 0 and the route count; input unchanged |
| Routes.CountShortZero | O1/routes.go:51-62 | the count is 0 exactly when no route qualifies |
| Routes.CountShortAll | O1/routes.go:51-62 | the count is the route count exactly when every route qualifies |
| Routes.CountShortMonotone | O1/routes.go:51-62 | a larger threshold never lowers the count |
| Routes.CountShortPermutation | O1/routes.go:45-62 | sorting does not change the count |
| Routes.FilterRoutesByStartStation | O1/routes.go:64-72 | exactly the routes from the station, in input order; input unchanged |
| Routes.FromStationMembers | O1/routes.go:64-72 | a route is kept exactly when it is in the input and starts at the station |
| Routes.FromStationConcat | O1/routes.go:64-72 | filtering distributes over concatenation, so order is kept |
| Routes.FromStationIdempotent | O1/routes.go:64-72 | filtering twice is filtering once |
| Routes.MostStops | O1/routes.go:74-86 | the larger of 0 and the largest stop count |
| Routes.FindRoutesWithMaxStops | O1/routes.go:74-86 | in input order, every route whose stop count equals MostStops; input unchanged |
| Routes.WithStopsMembers | O1/routes.go:74-86 | a route is selected exactly when it is in the input with that stop count |
| Routes.MaxStopsEmpty | O1/routes.go:74-86 | the result is empty exactly when every stop count is negative (including the empty input) |

## Left out

- Console and file plumbing: every `main`, the command loops, `Print`/`Input`/`print`, `fmt.Scan`/`Printf`, `os.Args`, `os.Exit`, the CSV route reader, `readLinesToHashTable`, and `readMatrix`/`writeMatrix`.
- matrix/revera_variant2_matrix.go is not part of this model. It computes the same product with one goroutine per cell plus file I/O. `Matrices.Matrix.Multiply` covers the product.
- Floating point: cells, distances and expression values are exact reals. IEEE-754 rounding is not modelled. `math.Abs` is the real absolute value and `math.Pow(-1, i+j)` is the sign of i + j.
- The theorems A · Inverse(A) = I for every size, det(Aᵀ) = det(A), and A · SolveSystem(A, b) = b with pivots below 1e-10 treated as zero. They are proved for 1 x 1 and 2 x 2 inverses and for every solution SolveSystem returns, not for the general cofactor identity.
- The FNV-1a hash internals: the hash is a function supplied to the table and reduced modulo 2^32 and then modulo the bucket count.
- Token classification by `strconv.ParseFloat` and `strings.Fields`: the parser takes an abstract token sequence.
- The `%.2f` number formatting of the renderings: they produce item sequences.
- The `recover` block in `OperatorNode.Evaluate`: the code it guards has no panic the model can reach.
- `sort.Slice` in the route sort and in coalescing: its algorithm and its instability are not modelled. Both sorts are an insertion sort with the same sorted-permutation postcondition. Any order among equal keys is allowed.
- Go's random map iteration order in `generateWeightedGraph`: the model picks the next name by a nondeterministic choice, and the result does not depend on the order.
- Integer overflow of `blockCounter`: ids are unbounded integers.
- FreeListMemory.MemoryManager.Allocate: for a negative numCells it models the Go behaviour but no longer promises the free-list shape afterwards. Later calls then start outside their precondition.
- FreeListMemory.MemoryManager.Free: the representation invariant is proved only for blockID != 0. free(0) appends a copy of the first free run, and later allocations can then overlap.
- Matrices.RowLexicographicSort.Sort: requires cols >= 1 when there are two or more rows, because Go panics on `data[i][0]` otherwise.

## Findings

| source | as written | input that shows it | evidently intended | confidence | as-written member | corrected member |
|---|---|---|---|---|---|---|
| matrix2/matrix.go:129-133 | the cofactor of a 1 x 1 matrix uses the determinant of its empty 0 x 0 minor. That determinant is 0, because the loop runs zero times, so Inverse returns [[0]] | [[2]]: determinant 2, inverse as written [[0]], product [[0]] instead of [[1]] | the empty minor counts as determinant 1, so the inverse of [[a]] is [[1/a]] | not executed | MatrixGrid.InverseAsWrittenOneByOne | MatrixGrid.InverseOneByOne |
