# vresutils array.py and grid.py in Dafny

This project models the matrix and grid helpers of vresutils and proves
what they compute.

- **Strike-out pseudo-inverse** (`array.py`).
  - `strikeoutxy` deletes row and column `n` of a square matrix.
  - `strikeoutx` deletes column `n` only.
  - `pinv` places the inverse of the reduced matrix back into N×N
    coordinates, with a zero row and a zero column at `n`.
  - `pinv2` fills an N×N array column by column from one solver result per
    column.
  - Reduced index `k` stands for original index `Lift(k, n)`, which is `k`
    below `n` and `k + 1` from `n` on. `Lower` undoes it.
- **Sign splitting** (`array.py`).
  - `positive` and `negative` work on dense arrays and on CSR/CSC matrices.
    A compressed matrix is the triple `data`, `indices`, `indptr` plus its
    shape and format.
  - The sparse branch builds a new matrix object from the filtered `data`
    and calls its in-place `eliminate_zeros`.
  - `spdiag` with `k = 0` builds a CSC diagonal matrix from its three
    arrays.
- **Grid thumb rules** (`grid.py`).
  - `penalize` derates the total capacity of parallel cross-border lines.
  - `entsoe_tue_linecaps` sets the voltage and capacity of every line from
    its end points.
  - `heuristically_extend_edge_attributes` fills in missing `length`,
    `voltage`, `X` and `Y` with `setdefault`.
  - A network is a class holding:
    - its edges in iteration order;
    - one attribute map per edge;
    - the node voltages.
  - A network is valid when no edge repeats, in either direction, and each
    edge has exactly one attribute dictionary, as in a networkx `Graph`.
  - Attribute names are the five these rules use plus `Other(id)`, which
    numbers every further name. Each name therefore has a single key.
  - The two loops are methods that update the attribute maps in place.

Files:
- `matrices.dfy` (module `Matrices`): dense vectors and matrices as
  sequences, the `Lift`/`Lower` index map, dot and matrix products.
- `strikeout.dfy` (module `Strikeout`): `strikeoutx`, `strikeoutxy`, `pinv`
  and `pinv2`.
- `signsplit.dfy` (module `SignSplit`): `positive`, `negative`,
  `eliminate_zeros` and `spdiag`.
- `grid.dfy` (module `Grid`): `penalize`, the line-capacity loop and the
  attribute completion loop.

Some helpers have no contract of their own. Their meaning is stated in the
rows of the members that use them:
- `Mask`, in `PositivePart`;
- `SliceData`, in `SliceIndices`;
- `WellFormed`, in `ZerosEliminated`;
- `EndpointVoltage`, in `LineVoltage`;
- `NoRepeats`, `IsGraph` and `Network.Valid`, in `IsGraphUpdated`;
- `Network.Failure`, in `ExtendEdgeAttributes`;
- `SumAt` and `Entry`, which sum every value stored at one position as scipy does, in `ToDense`;
- `Distinct` and `NoDuplicates`, in `SparseSplitIsDenseSplit`;
- `ColumnsSumToZero`, in `ColumnStruckSystemUnsolvable`;
- `SolverFits`, the solver returning vectors of length N-1, in `Pinv2`;
- `ReducedSolverFits`, the same for the reduced systems, in `ReducedAssemblyInverts`.

Library routines become parameters:
- `pinv` receives the inverse `Li` of the reduced matrix.
- `pinv2` receives the solver as a function from a system matrix and a
  right-hand side to a solution vector.
- `heuristically_extend_edge_attributes` receives `node_distance` as a
  function of the two end points.

## Model

| member | source | states |
|---|---|---|
| Matrices.Lift | array.py:68-70 | the reduced index `k` maps to `k` below `n` and to `k + 1` from `n` on, never to `n` |
| Matrices.Lower | array.py:68-70 | for every index other than `n`, returns the reduced index that `Lift` maps back to it |
| Matrices.LiftIsBijection | array.py:68-70 | `Lift` maps 0..N-2 one-to-one and in order onto 0..N-1 without `n`, and `Lower` inverts it |
| Matrices.RemoveAt | array.py:83 | deleting entry `n` shortens by one; entry `k` of the result is entry `Lift(k, n)` of the input |
| Matrices.InsertZero | array.py:91-93 | splicing in a zero at `n`: position `n` is 0, and position `Lift(k, n)` holds entry `k` |
| Matrices.RemoveInsertZero | array.py:91-93 | deleting the spliced-in zero gives back the vector |
| Matrices.Indicator | array.py:90 | `indicator(N, i)`: a vector of length N with 1 at `i` and 0 everywhere else |
| Matrices.DotInsertZero | array.py:91-93 | a zero spliced in at `n` drops position `n` of the other vector from the dot product |
| Strikeout.StrikeOutX | array.py:81-83 | keeps every row; row `i` is `L[i]` without its entry `n` |
| Strikeout.StrikeOutXEntries | array.py:81-83 | `strikeoutx(L, n)` has N rows of N-1 entries, and entry (i, j) is `L[i][Lift(j, n)]` |
| Strikeout.StrikeOutXColumn | array.py:81-83 | column `j` of `strikeoutx(L, n)` is column `Lift(j, n)` of `L` |
| Strikeout.StrikeOutXY | array.py:68-70 | the result is (N-1)×(N-1), and entry (i, j) is `L[Lift(i, n)][Lift(j, n)]` |
| Strikeout.StrikeOutXYRow | array.py:68-70 | row `i` of the reduced matrix is row `Lift(i, n)` of `L` without entry `n` |
| Strikeout.StrikeOutXYColumn | array.py:68-70 | column `j` of the reduced matrix is column `Lift(j, n)` of `L` without entry `n` |
| Strikeout.EmbedRows | array.py:77-79 | every row of a block receives a zero column at `n` |
| Strikeout.Pinv | array.py:72-79 | the re-embedding is N×N, row `n` and column `n` are zero, and entry (Lift(i, n), Lift(j, n)) is `Li[i][j]` |
| Strikeout.EmbeddedBlocks | array.py:77-79 | the three bands of the block matrix put row `i` of `Li`, padded at `n`, at row `Lift(i, n)`, with a zero row at `n` |
| Strikeout.StrikeOutPinv | array.py:68-79 | striking row and column `n` out of the re-embedding gives back `Li` exactly |
| Strikeout.PinvStrikeOut | array.py:68-79 | re-embedding the reduced matrix itself gives `L` with row and column `n` zeroed |
| Strikeout.PinvStrikeOutAt | array.py:68-79 | the same, for one entry outside row and column `n` |
| Strikeout.PinvColumn | array.py:77-79 | column `Lift(j, n)` of the re-embedding is column `j` of `Li` with a zero at row `n` |
| Strikeout.PinvRow | array.py:77-79 | row `Lift(i, n)` of the re-embedding is row `i` of `Li` with a zero at column `n` |
| Strikeout.PinvRightProductAt | array.py:72-79 | entry (i, j) of the reduced `L·P` equals entry (i, j) of the reduced `L` times `Li` |
| Strikeout.PinvLeftProductAt | array.py:72-79 | entry (i, j) of the reduced `P·L` equals entry (i, j) of `Li` times the reduced `L` |
| Strikeout.PinvRightProduct | array.py:72-79 | striking row and column `n` out of `L·P` gives the reduced `L` times `Li` |
| Strikeout.PinvLeftProduct | array.py:72-79 | striking row and column `n` out of `P·L` gives `Li` times the reduced `L` |
| Strikeout.PinvProductZeroCross | array.py:77-79 | column `n` of `L·P` and row `n` of `P·L` are zero |
| Strikeout.PinvInvertsReduced | array.py:72-79 | when `Li` inverts the reduced matrix on both sides, `P` inverts `L` off row and column `n`, and those are zero in the products |
| Strikeout.PinvExample | array.py:72-79 | [[4,1,0],[1,3,1],[0,1,2]] struck at 1 is [[4,0],[0,2]]; its inverse re-embeds as [[0.25,0,0],[0,0,0],[0,0,0.5]] |
| Strikeout.AssembleColumns | array.py:89-93 | the assembled N×N matrix has zero row `n`, and entry (Lift(k, n), c) is entry `k` of solution `c` |
| Strikeout.AssembleColumnsColumn | array.py:91-93 | column `c` of the assembled matrix is solution `c` with a zero spliced in at row `n` |
| Strikeout.WriteColumn | array.py:91-93 | the three slice assignments make column `i` the solution with a zero at row `n`, and leave every other column unchanged |
| Strikeout.Solutions | array.py:86-90 | column `i` is solved against `strikeoutx(L, n)` with the indicator of `i` of length N as right-hand side |
| Strikeout.Pinv2 | array.py:85-95 | given a solver that returns vectors of length N-1 (`SolverFits`), returns a fresh N×N array whose entries are those of `AssembleColumns` applied to the solver's results |
| Strikeout.AssembledProduct | array.py:85-95 | for any solver results, column `c` of `L·Li` is `strikeoutx(L, n)` applied to solution `c` |
| Strikeout.AssembledProductAt | array.py:85-95 | the same, for one entry |
| Strikeout.ColSumStrikeOutX | array.py:81-83 | when every column of `L` sums to zero, so does every column of `strikeoutx(L, n)` |
| Strikeout.ColumnStruckSystemUnsolvable | array.py:85-90 | for `L` whose columns sum to zero (a Laplacian), no `x` solves `strikeoutx(L, n)·x = e_c` |
| Strikeout.TwoNodeLaplacianUnsolvable | array.py:85-90 | [[1,-1],[-1,1]] struck at 0 is `Lt = [[-1],[1]]`, and no `x` solves the system for column 0 |
| Strikeout.ReducedSolutions | array.py:85-95 | corrected solves: column `n` is zero, and column `i != n` is solved against the square reduced matrix with right-hand side `e_Lower(i)` |
| Strikeout.Pinv2Reduced | array.py:85-95 | corrected loop: the result is `AssembleColumns` applied to the reduced solutions |
| Strikeout.AssembledZeroCross | array.py:91-93 | a zero solution in column `n` gives a zero column `n`, and row `n` is always zero |
| Strikeout.ReducedIdentity | array.py:85-95 | exact reduced solves make `L·Li` the identity once row and column `n` are struck |
| Strikeout.ReducedEntry | array.py:85-95 | the same, for one entry |
| Strikeout.ReducedAssemblyInverts | array.py:85-95 | with reduced solves of length N-1 (`ReducedSolverFits`) that are exact, the corrected result has zero row and column `n`, and `L` times it is the identity once row and column `n` are struck (a right inverse there) |
| Strikeout.ReducedAssemblyIsPinv | array.py:85-95 | when the solver returns the columns of `Li` for the reduced systems, the corrected result is exactly `pinv`'s re-embedding of `Li`; with `PinvInvertsReduced` it is then an inverse off row and column `n` from both sides |
| SignSplit.PositivePart | array.py:18 | `x * (x > 0)`, the mask taken as 1 or 0 (`Mask`): the result is non-negative; it is `x` when `x > 0` and 0 otherwise |
| SignSplit.NegativePart | array.py:30 | the result is non-negative; it is `-x` when `x < 0` and 0 otherwise |
| SignSplit.Positive | array.py:17-18 | same length; entry `i` is `a[i]` if positive, else 0 |
| SignSplit.Negative | array.py:29-30 | same length; entry `i` is `-a[i]` if negative, else 0 |
| SignSplit.SignSplitRecombines | array.py:8-30 | both halves are non-negative, at most one is non-zero at each entry, and `positive(a) - negative(a) == a` |
| SignSplit.PositiveDense | array.py:17-18 | a matrix is split row by row |
| SignSplit.NegativeDense | array.py:29-30 | a matrix is split row by row |
| SignSplit.SignSplitDense | array.py:8-30 | the dense split keeps the shape and recombines to the input entry by entry |
| SignSplit.SignSplitExample | array.py:8-30 | `positive([[-1,2],[3,-4]]) = [[0,2],[3,0]]` and `negative` of it is `[[1,0],[0,4]]` |
| SignSplit.SliceIndices | array.py:11 | slice `s` has as many positions as stored values (`SliceData`, the values between `indptr[s]` and `indptr[s + 1]`) |
| SignSplit.ToDense | array.py:11-12 | the represented matrix has the given shape, and entry (i, j) sums the values stored there |
| SignSplit.DropZeros | array.py:13 | the kept entries are non-zero and come from the slice |
| SignSplit.DropZerosSnoc | array.py:13 | extending a slice by one entry keeps that entry exactly when it is not zero |
| SignSplit.DropZerosSum | array.py:13 | dropping stored zeros leaves the sum at every position unchanged |
| SignSplit.Compact | array.py:13 | after `s` slices: `indptr` has length `s + 1`, starts at 0, is monotone and ends at the number kept; stored values are non-zero; and each slice holds exactly its non-zero entries |
| SignSplit.CompactNext | array.py:13 | one more slice appends its non-zero entries and its new end offset |
| SignSplit.CompactStep | array.py:13 | appending one slice preserves every invariant of `Compact` |
| SignSplit.SliceEntriesFromInput | array.py:13 | kept values are stored values of the input, and kept positions are valid |
| SignSplit.ZerosEliminated | array.py:13 | `eliminate_zeros` leaves a matrix well-formed in scipy's sense (`WellFormed`: `indptr` of one more than the slice count, from 0 to the number stored, monotone; one valid position per value) of the same shape and format, storing no zero |
| SignSplit.ZerosEliminatedSlices | array.py:13 | every slice keeps its non-zero entries in their order |
| SignSplit.ZerosEliminatedSameMatrix | array.py:13 | eliminating zeros does not change the represented matrix |
| SignSplit.KeepNonZero | array.py:13 | the per-slice loop computes exactly the slice's non-zero entries and positions |
| SignSplit.CsMatrix.constructor | array.py:11-12 | the object holds the three given arrays, shape and format |
| SignSplit.CsMatrix.EliminateZeros | array.py:13 | rewrites the object's arrays in place into `ZerosEliminated` of its old value |
| SignSplit.PositiveCompressed | array.py:10-14 | the sparse `positive` is well-formed, of the same shape and format, and stores only positive values |
| SignSplit.NegativeCompressed | array.py:22-26 | the sparse `negative` is well-formed, of the same shape and format, and stores only positive values |
| SignSplit.PositiveSparse | array.py:10-14 | returns a fresh object whose value is `PositiveCompressed` of the input |
| SignSplit.NegativeSparse | array.py:22-26 | returns a fresh object whose value is `NegativeCompressed` of the input |
| SignSplit.SumAtSignSplit | array.py:8-30 | the sum of filtered positive values minus that of negated negative values is the sum of the values |
| SignSplit.SliceOfSplit | array.py:11 | filtering `data` and then slicing is slicing and then filtering |
| SignSplit.SplitEntry | array.py:10-26 | for every compressed matrix, each entry of the filtered positive matrix minus that of the filtered negative one is the input's entry |
| SignSplit.SplitDense | array.py:10-26 | the same for the whole matrix, before zeros are eliminated |
| SignSplit.SignSplitCompressed | array.py:10-26 | for every compressed matrix, duplicates included, `positive(a) - negative(a)` represents `a` |
| SignSplit.SumAtAbsent | array.py:11-12 | a position not stored sums to zero |
| SignSplit.SumAtDistinct | array.py:11-12 | with distinct positions, filtering the values filters the sum |
| SignSplit.SplitEntryDistinct | array.py:10-26 | without duplicates, each filtered entry is the positive or negative part of the input's entry |
| SignSplit.SplitRowDistinct | array.py:10-26 | the same, row by row |
| SignSplit.SplitDenseDistinct | array.py:10-26 | without duplicates, the filtered matrices are the dense split of the represented matrix |
| SignSplit.SparseSplitIsDenseSplit | array.py:10-26 | without duplicates, the sparse `positive` and `negative` represent the dense split of the input |
| SignSplit.DuplicateExample | array.py:10-14 | a well-formed 1×1 CSR matrix that stores two values at one position |
| SignSplit.TwoStoredAtOrigin | array.py:11-12 | a 1×1 CSR matrix storing `a` and `b` at the origin represents `a + b` |
| SignSplit.TwoStoredPositive | array.py:10-14 | its sparse `positive` represents `PositivePart(a) + PositivePart(b)` |
| SignSplit.DuplicateEntriesBreakSplit | array.py:10-14 | with duplicate entries, the sparse `positive` does not represent the dense split of the input |
| SignSplit.Range | array.py:35 | `arange(count)`: entry `k` is `k` |
| SignSplit.Spdiag | array.py:32-36 | a well-formed N×N CSC matrix with `data = v`, `indptr = 0..N` and `indices = 0..N-1` |
| SignSplit.Diagonal | array.py:32-36 | the dense N×N matrix with `v` on its diagonal and zeros elsewhere |
| SignSplit.SpdiagIsDiagonal | array.py:32-36 | `spdiag(v)` represents the diagonal matrix of `v` |
| Grid.Penalize | grid.py:9-33 | for `x >= 0` the result lies between `x/2` and `x` (mirrored for `x <= 0`); for `x != 0` it is `x` exactly when `n == 1` |
| Grid.PenalizeValues | grid.py:26-33 | one line keeps `x`, two keep 5/6, three keep 2/3, and every other count, including `n <= 0`, keeps half |
| Grid.PenalizeExample | grid.py:26-33 | `penalize(100, n)` for n = 1..4 is 100, 250/3, 200/3 and 50 |
| Grid.PenalizeNonincreasing | grid.py:26-33 | for `x >= 0`, more lines never leave more capacity |
| Grid.PenalizeScales | grid.py:26-33 | the rule is a factor depending on `n` only |
| Grid.LineVoltage | grid.py:51-53 | the line voltage is the larger of the end-point voltages (`EndpointVoltage`: a node's voltage, or 380 when it has none), and equals one of them |
| Grid.LineCapacity | grid.py:54 | capacity is 3.0 exactly when the voltage is 380, and 1.0 otherwise |
| Grid.WithLineCapacity | grid.py:55 | the update adds `voltage` and `capacity` with those values and keeps every other attribute |
| Grid.LineVoltageSymmetric | grid.py:53 | reading an edge in either direction gives the same voltage |
| Grid.CapacityFromEndpoints | grid.py:53-54 | a line gets 3.0 exactly when neither end is above 380 and one end is at 380 or has no voltage |
| Grid.WithLineCapacityIdempotent | grid.py:51-55 | applying the update twice is applying it once |
| Grid.Reversed | grid.py:52 | an undirected edge read from its other end swaps its end points |
| Grid.IsGraphUpdated | grid.py:55 | new attribute dictionaries for the same edges leave a graph (no repeated edge, in either direction, and one dictionary per edge) |
| Grid.Network.constructor | grid.py:51-52 | a network holds the given edges, attribute dictionaries and node voltages, and is valid |
| Grid.Network.SetLineCapacities | grid.py:51-55 | the network stays valid, the edges and their order are unchanged, and every edge's attributes become `WithLineCapacity` of its old ones |
| Grid.SetDefault | grid.py:93-96 | `setdefault` adds the key, never changes an existing value, and binds a missing key to the default |
| Grid.ExtendEdge | grid.py:92-96 | the four steps never overwrite an attribute; they divide by zero exactly when the resulting `X` is 0 |
| Grid.ExtendEdgeDefaults | grid.py:93-96 | the four steps add the listed keys; missing `length`, `voltage` and `X` get their defaults (`X` from the current length); a new `Y` is 1/X for the current `X` |
| Grid.ExtendEdgeIdempotent | grid.py:92-96 | a second pass leaves completed attributes alone, whatever distance it is given |
| Grid.Network.ExtendEdgeAttributes | grid.py:91-98 | the network stays valid and its edges unchanged; on success every edge gets `ExtendEdge` of its old attributes; on the first division by zero the loop stops with earlier edges completed, the failing edge partly extended and later edges untouched |
| Grid.Network.Extended | grid.py:92-96 | the loop's attribute map after `n` edges has the same keys as before |
| Grid.Network.ExtendedStep | grid.py:92-96 | one more pass changes only the next edge, which still has its original attributes |
| Grid.Network.ExtendNext | grid.py:92-96 | the loop body for edge `i` returns `ExtendEdge` of its original attributes and moves the attribute map from `i` edges done to `i + 1` |
| Grid.Network.ExtendedValid | grid.py:91-98 | any prefix of completed edges leaves a valid network |
| Grid.Network.ExtendedAll | grid.py:92-96 | after the last edge, every edge is completed |

## Left out

- `sp.linalg.inv` (array.py:74): a library routine. `Pinv` receives the inverse as an argument. A singular reduced matrix, which `inv` rejects, is therefore not modelled.
- `sp.sparse.linalg.bicg` (array.py:90): a library routine, given to `Pinv2` as a function argument. `bicg` returns a pair `(x, info)` and would refuse the non-square `Lt`. The model takes the solution vector directly and does not model convergence or `info`.
- `indicator` (imported from vresutils, not part of this model) is taken to be the unit vector of length N with its 1 at `i`.
- Strikeout.StrikeOutXY, Strikeout.Pinv, Strikeout.Pinv2: `n` is required to lie in `[0, N)`. Python slicing with a negative or too large `n` gives other shapes and is not modelled.
- Strikeout.StrikeOutX, Strikeout.Pinv2: a sparse `L` is modelled by the dense matrix it represents. `sp.sparse.hstack` and the storage format of `Lt` are not modelled.
- Values are reals, not IEEE floats. Rounding in `5./6.*x`, in `1./X` and in the sums of the matrix products (`MatMul`) is not modelled, and neither are NaN or infinities.
- Strikeout.Pinv2: `np.empty_like(L)` gives `Li` the dtype of `L`, which is not modelled. For an integer `L` every stored solution would be truncated toward zero; the model stores exact reals.
- SignSplit.PositiveDense, SignSplit.NegativeDense: only `ndarray` is modelled, where `*` is entrywise. For an `np.matrix`, `*` is the matrix product, so `positive(np.matrix([[-1, 2], [3, -4]]))` is `[[2, -1], [-4, 3]]`. That case is not modelled.
- SignSplit.PositiveSparse, SignSplit.NegativeSparse: only CSR and CSC are modelled. The `a.multiply(a>0)` branch for other sparse formats (array.py:16, 28) is not modelled.
- SignSplit.SparseSplitIsDenseSplit: needs the input to have no duplicate positions within a slice. Scipy allows duplicates, and `DuplicateEntriesBreakSplit` shows that the sparse result then differs from the dense split. `SignSplitCompressed` holds with duplicates.
- SignSplit.Spdiag: indices are unbounded integers. The `np.int32` index type of `spdiag` and its overflow are not modelled.
- `spdiag` with `k != 0` (array.py:38): a call to `sp.sparse.diags`, not modelled.
- `densify`, `interpolate` and `disable_sparse_safety_checks` (array.py:40-66): a format conversion, NaN interpolation over floats, and monkey-patching of scipy internals. None is modelled.
- `node_distance` (grid.py:72-89) uses a float square root. It is a function parameter of `ExtendEdgeAttributes`, and is evaluated for every edge whether or not `length` is present, as Python evaluates `setdefault`'s argument.
- Grid.ExtendEdge: attribute values are reals. Non-numeric values and numpy scalars are not modelled. Dividing a numpy float by zero yields infinity instead of raising; the model follows Python floats, which raise `ZeroDivisionError`. `node_distance` returns a numpy float, so an edge whose `X` is filled in from a zero distance gets `Y = inf` where the model reports `DivisionByZero`.
- Graph loading and the manual link (`entsoe_tue`, `eu`, `read_scigrid`, grid.py:39-40, 57-65, 100-132): file I/O and graph construction, not modelled. `SetLineCapacities` models only the loop at grid.py:51-55.
- Grid.Network.SetLineCapacities: `nx.get_node_attributes` is modelled as the node-voltage map held by the network.

## Findings

| source | as written | input that shows it | evidently intended | confidence | as-written member | corrected member |
|---|---|---|---|---|---|---|
| array.py:85-95 | `pinv2` strikes out only column `n` (`strikeoutx`) and solves the N×(N-1) system `Lt·x = e_i` for every column `i`. When every column of `L` sums to zero, as in a graph Laplacian, every entry sum of `Lt·x` is 0 while that of `e_i` is 1, so no system has a solution. | `L = [[1, -1], [-1, 1]]`, `n = 0`: `Lt = [[-1], [1]]` (column 1 kept), and `Lt·x = [-x, x]` is never `[1, 0]` | solve the square reduced systems `strikeoutxy(L, n)·x = e_Lower(i)` for `i != n` with a zero column `n`; when the solver returns the columns of the reduced inverse this is exactly `pinv` | medium; not executed | Strikeout.ColumnStruckSystemUnsolvable, Strikeout.TwoNodeLaplacianUnsolvable (with Strikeout.Pinv2) | Strikeout.Pinv2Reduced, Strikeout.ReducedAssemblyIsPinv |
