# gol-cpu-bench-rs in Dafny

A model of a generic grid-compute engine and the two kernels that use it.

The engine holds a flat buffer of cells with a (width, height, depth) shape. A compute call
applies a per-cell kernel `process_job(buffer, index, conf)` to every index and writes the
results into an output store. There are two executors:

- The single-thread executor walks the indices in order.
- The parallel executor splits the index range into work slices of `work_slice_len` cells.
  It hands each slice to a worker pool, with output storage taken from a reusable pool of
  vectors. Once all results have arrived, it copies each into its place in arrival order
  and returns its storage to the pool.

`compute_iterations` runs many generations with two buffers that swap the input and output
roles. The kernels are Conway's Game of Life, where cells beyond the edge count as dead, and
a two-colour checkerboard fill.

The model is in five modules, one file each:

- `Buffers` (`buffer.dfy`): the buffer, its constructors and its checked and unchecked
  accessors.
- `Jobs` (`jobs.dfy`): the reference semantics of one compute call (`Step`) and the work
  units. It also holds the partition of the index range and the copy-back of results, with
  the proofs that any arrival order gives the single-thread output.
- `Executors` (`executors.dfy`): the two executors as imperative code over an output
  `array`. The parallel executor is a class with its slice pool, and `ComputeIterations` is
  the two-buffer driver. Each is proved against `Step` and `Iterate`.
- `GameOfLife` (`gol.dfy`): cells, neighbour offsets, neighbour count and the rule. It adds
  locality, edge clipping, and the still-life and blinker patterns.
- `Checkerboard` (`checkerboard.dfy`): the parity kernel as written and as intended.

How concurrency is modelled: a worker's poll loop does one sequential step per job. The
order in which results come off the result queue is a parameter, any permutation of the job
numbers (`IsArrivalOrder`). Every executor theorem holds for every such order.

The kernel in `checkerboard.rs` is a checkerboard fill, but `checkerboard.rs:9` colours by
`(index + index/width) % 2`, which is the `(x + y)` parity only for even widths (see
Findings).

## Model

| member | source | states |
|---|---|---|
| Buffers.FromValue | src/parallelism.rs:18-23 | a valid buffer of dims (length, 1, 1) whose every cell is `value` |
| Buffers.FromValue2D | src/parallelism.rs:25-30 | dims (w, h, 1), exactly w*h cells, all `value` |
| Buffers.FromValue3D | src/parallelism.rs:32-37 | dims as given, w*h*d cells, all `value` |
| Buffers.FromVec | src/parallelism.rs:39-45 | keeps the elements in order and sets dims (len, 1, 1) |
| Buffers.Buffer.Len | src/parallelism.rs:47-50 | the store's length, which equals the product of the dims for a valid buffer |
| Buffers.Buffer.IndexToPos2D | src/parallelism.rs:64-66 | for width > 0, (x, y) with x < width and x + y*width == index |
| Buffers.IndexToPos2DUnique | src/parallelism.rs:64-66 | the position is the only in-row position with that flat index |
| Buffers.Buffer.At | src/parallelism.rs:68-70 | None exactly when the index is at least the length, else the cell |
| Buffers.Buffer.AtUnchecked | src/parallelism.rs:72-74 | on valid indices agrees with the checked access |
| Buffers.Buffer.At2D | src/parallelism.rs:76-79 | None exactly when x + y*width is at least the length, else that cell |
| Buffers.At2DSpillsIntoNextRow | src/parallelism.rs:76-79 | no per-axis check: an x past the width reads the next row |
| Buffers.Pos2DRoundTrip | src/parallelism.rs:64-79 | reading a flat index through its 2D position gives the same cell |
| Buffers.Buffer.At2DI32 | src/parallelism.rs:81-86 | None when either coordinate is negative or not below its dim; otherwise, on a valid buffer, the in-bounds cell data[x + y*w] |
| Buffers.RowMajorInBounds | src/parallelism.rs:81-86 | a position inside the w x h grid has an index inside a w*h*d store |
| Buffers.Buffer.At2DUnchecked | src/parallelism.rs:88-91 | on valid positions agrees with the checked 2D access |
| Jobs.ResultFrom | src/parallelism.rs:127-135 | the result keeps the unit's storage, offset and count |
| Jobs.CompareResults | src/parallelism.rs:137-147 | results are ordered by offset alone, in all three cases |
| Jobs.ResultsEq | src/parallelism.rs:149-153 | equality holds exactly when the ordering says Equal, i.e. equal offsets |
| Jobs.Step | src/parallelism.rs:368-370 | the reference output of one compute call: the kernel at every index, one value per cell |
| Jobs.ProcessRange | src/parallelism.rs:169-171 | a worker's output for a slice: the kernel at each index of the slice in order, `count` values |
| Jobs.ProcessRangeIsStepSlice | src/parallelism.rs:167-172 | a slice's output is the same slice of the reference output |
| Jobs.Partition | src/parallelism.rs:272-308 | the issued slices, as many as `true_slice_count` |
| Jobs.JobCount | src/parallelism.rs:308 | `true_slice_count`; zero exactly for an empty buffer |
| Jobs.JobCountIsCeiling | src/parallelism.rs:308 | the number of units is ceil(len / S) |
| Jobs.PartitionInBounds | src/parallelism.rs:279-306 | every slice is non-empty, at most S long, and ends inside [0, len) |
| Jobs.PartitionExact | src/parallelism.rs:279-306 | slice k covers index i exactly when i < len and k == i / S |
| Jobs.PartitionCovers | src/parallelism.rs:279-306 | every index below len is covered by slice i / S |
| Jobs.PartitionIsPartition | src/parallelism.rs:272-308 | slices are in bounds, cover [0, len) and do not overlap |
| Jobs.ExpectedResults | src/parallelism.rs:279-306 | one result per issued unit |
| Jobs.ExpectedResultAt | src/parallelism.rs:167-172 | unit k's result covers slice k, fits the store and holds the kernel's values in index order |
| Jobs.ExpectedResultsSorted | src/parallelism.rs:137-147 | the results in issue order are strictly increasing under the offset ordering |
| Jobs.ExpectedResultsDisjoint | src/parallelism.rs:279-306 | no two distinct results overlap |
| Jobs.CopyResult | src/parallelism.rs:322 | `copy_from_slice` into [offset, offset+count): those cells take the result, all others are kept |
| Jobs.Reassemble | src/parallelism.rs:321-324 | copying a sequence of results keeps the store's length |
| Jobs.ReassembleAt | src/parallelism.rs:321-324 | a covered index holds its (disjoint) result's value; an uncovered one keeps its old value |
| Jobs.ReassembleOrderIndependent | src/parallelism.rs:321-324 | disjoint results with the same members give the same store in any order |
| Jobs.ExpectedResultCovering | src/parallelism.rs:279-306 | each index below len lies in some result, which holds the kernel's value for it |
| Jobs.ExpectedReassembledAt | src/parallelism.rs:321-324 | after copying every result, index i holds the kernel's value below len and its old value beyond |
| Jobs.ExecutorEquivalence | src/parallelism.rs:321-324 | any sequence with the same members as the issued results reassembles to the single-thread output, with the tail kept |
| Jobs.ArrivalOrderMembers | src/parallelism.rs:310-320 | an arrival order names each unit exactly once |
| Jobs.InArrivalOrder | src/parallelism.rs:310-320 | the results popped in the given order |
| Jobs.PermutedSameMembers | src/parallelism.rs:310-320 | the popped results are exactly the issued ones |
| Jobs.ParallelMatchesSingleThread | src/parallelism.rs:271-329 | for every arrival order, reassembly gives `Step` on [0, len) and keeps the rest of `out` |
| Executors.ProcessWork | src/parallelism.rs:167-172 | the storage is cleared and refilled with the kernel at offset..offset+count, in order; offset and count kept |
| Executors.ProcessInArrivalOrder | src/parallelism.rs:310-320 | the results, taken in arrival order, are the expected results permuted by that order |
| Executors.SingleThreadCompute | src/parallelism.rs:367-372 | out[..len] is `Step`, out beyond len is unchanged, the input buffer is returned |
| Executors.CopyFromSlice | src/parallelism.rs:322 | the array becomes `CopyResult` of its old contents: the slice is replaced by the source, the rest unchanged |
| Executors.ResultBuffers | src/parallelism.rs:323 | the storages of the results, in order |
| Executors.ExecutorParallel.constructor | src/parallelism.rs:232-255 | thread count and slice length are clamped to at least 1; the pool is empty |
| Executors.ExecutorParallel.GetSlice | src/parallelism.rs:257-259 | pops the most recently pushed storage, or gives an empty one when the pool is empty |
| Executors.ExecutorParallel.PushSlice | src/parallelism.rs:261-263 | appends the storage to the pool |
| Executors.ExecutorParallel.IssueJobs | src/parallelism.rs:279-306 | one unit per partition slice, in order, on the shared input and config, storages taken from the top of the pool |
| Executors.ExecutorParallel.ReassembleResults | src/parallelism.rs:321-324 | out becomes `Reassemble` of the results and the pool gains their storages in arrival order |
| Executors.ExecutorParallel.Compute | src/parallelism.rs:271-329 | for every arrival order: out[..len] is `Step`, the tail is unchanged, the input buffer is returned, and the pool's new contents are stated |
| Executors.Compute | src/parallelism.rs:185-190 | either executor gives the reference output and returns the input buffer; on the parallel executor the new pool is stated as in `ExecutorParallel.Compute` |
| Executors.Iterate | src/parallelism.rs:192-215 | n generations keep the dims and the length |
| Executors.IterateAdditive | src/parallelism.rs:192-215 | m generations followed by n generations equal m + n generations |
| Executors.ComputeIterations | src/parallelism.rs:192-215 | the two-buffer driver returns `Iterate` n times, and the input itself for n == 0; the pool is untouched for n == 0 and afterwards holds max(old size, job count) storages, so storage is reused rather than grown |
| GameOfLife.GolCell.IsAlive | src/jobbers/gol.rs:12-14 | true exactly for `Alive`; its inverse is `FromBool` (`FromIsAliveRoundTrip`) |
| GameOfLife.FromBool | src/jobbers/gol.rs:17-24 | the cell's liveness is the given bool |
| GameOfLife.FromIsAliveRoundTrip | src/jobbers/gol.rs:12-24 | `from(c.is_alive()) == c` |
| GameOfLife.GolCell.DebugString | src/jobbers/gol.rs:26-33 | one character, "X" exactly for live cells and "." exactly for dead ones |
| GameOfLife.GolCell.IntoChar | src/jobbers/gol.rs:35-42 | '▓' exactly for live cells, '░' exactly for dead ones |
| GameOfLife.RenderingsInjective | src/jobbers/gol.rs:26-42 | both renderings tell the two states apart |
| GameOfLife.NeighborOffsetsExact | src/jobbers/gol.rs:46-55 | eight pairwise distinct offsets, exactly the non-zero ones in {-1,0,1}² |
| GameOfLife.Shifted | src/jobbers/gol.rs:61-64 | the signed neighbour coordinates are the cell's plus the offset |
| GameOfLife.LiveAt | src/jobbers/gol.rs:61-65 | 0 or 1, and 1 exactly when the neighbour exists on the grid and is alive |
| GameOfLife.CountLive | src/jobbers/gol.rs:58-67 | the count is at most the number of offsets visited |
| GameOfLife.NeighborCount | src/jobbers/gol.rs:58-67 | the count is between 0 and 8 |
| GameOfLife.NeighborCountExpanded | src/jobbers/gol.rs:46-67 | the count is the sum over the eight offsets |
| GameOfLife.CellAlive | src/parallelism.rs:81-86 | 0 or 1 for any integer position, 0 off the grid |
| GameOfLife.LiveAtIsCellAlive | src/jobbers/gol.rs:61-65 | the signed lookup agrees with the plain coordinate lookup |
| GameOfLife.NeighborCountByCells | src/jobbers/gol.rs:58-67 | the count is the number of live grid cells among the eight around the cell, with no wrap-around |
| GameOfLife.CornerHasAtMostThreeNeighbors | src/jobbers/gol.rs:58-67 | the corner cell sees at most 3 neighbours: cells beyond the edge are absent |
| GameOfLife.ProcessJob | src/jobbers/gol.rs:87-100 | a live cell survives with 2 or 3 live neighbours; a dead cell is born with exactly 3 |
| GameOfLife.GolDefinedOnShape | src/jobbers/gol.rs:87-90 | the kernel is defined on every cell of any 2D grid whose dims fit i32 |
| GameOfLife.CountLiveLocal | src/jobbers/gol.rs:58-67 | grids agreeing on the 3 x 3 block around a cell give the same count |
| GameOfLife.ProcessJobLocal | src/jobbers/gol.rs:87-100 | the next state depends only on the 3 x 3 block around the cell |
| GameOfLife.CountLiveOfDeadGrid | src/jobbers/gol.rs:58-67 | on an all-dead grid every count is 0 |
| GameOfLife.DeadGridStep | src/jobbers/gol.rs:87-100 | one step maps an all-dead grid to itself |
| GameOfLife.DeadGridStaysDead | src/jobbers/gol.rs:87-100 | an all-dead grid is unchanged by any number of generations |
| GameOfLife.BlockNeighborCount | src/jobbers/gol.rs:58-67 | around a 2 x 2 block each cell of the 4 x 4 grid sees 1, 2 or 3 live neighbours by position |
| GameOfLife.BlockCellStill | src/jobbers/gol.rs:87-100 | each cell of the 4 x 4 block grid keeps its state |
| GameOfLife.BlockIsStill | src/jobbers/gol.rs:58-99 | on a 4 x 4 grid a 2 x 2 block of live cells is a fixed point of one full step |
| GameOfLife.BlinkerNeighborCount | src/jobbers/gol.rs:58-67 | the neighbour counts around a bar of three in a 3 x 3 grid |
| GameOfLife.BlinkerCellNext | src/jobbers/gol.rs:87-100 | each cell of the bar grid takes the rotated bar's state |
| GameOfLife.BlinkerOscillates | src/jobbers/gol.rs:87-100 | a bar of three flips between vertical and horizontal, and two generations restore it |
| Checkerboard.ProcessJob | src/jobbers/checkerboard.rs:5-11 | the kernel as written; the result is one of the two colours |
| Checkerboard.IgnoresBuffer | src/jobbers/checkerboard.rs:8-9 | the colour does not depend on the buffer's contents |
| Checkerboard.DefinedForPositiveWidth | src/jobbers/checkerboard.rs:9 | both kernels are defined on every index once width > 0 |
| Checkerboard.FlatParity | src/jobbers/checkerboard.rs:9 | the parity of index + index/width is that of x + y for even widths and that of x for odd widths |
| Checkerboard.RowMajorParity | src/jobbers/checkerboard.rs:9 | the same parity fact stated on coordinates |
| Checkerboard.VerticalParity | src/jobbers/checkerboard.rs:9 | the cell one row down flips parity for even widths and keeps it for odd widths |
| Checkerboard.NextRow | src/jobbers/checkerboard.rs:9 | the cell one row down has the same x and the next y |
| Checkerboard.RowNeighborsDiffer | src/jobbers/checkerboard.rs:9 | consecutive cells of one row get different colours |
| Checkerboard.EvenWidthIsCheckerboard | src/jobbers/checkerboard.rs:9 | on even widths the kernel equals the (x + y)-parity checkerboard, so vertical neighbours differ |
| Checkerboard.OddWidthPaintsColumns | src/jobbers/checkerboard.rs:9 | on odd widths the colour depends on x alone, so vertical neighbours are equal |
| Checkerboard.OddWidthCounterexample | src/jobbers/checkerboard.rs:9 | width 3: index 0 and the index below it (3) get the same colour |
| Checkerboard.ProcessJobIntended | src/jobbers/checkerboard.rs:9 | the corrected kernel keyed by (x + y) mod 2; the result is one of the two colours |
| Checkerboard.IntendedRowNeighborsDiffer | src/jobbers/checkerboard.rs:9 | in the corrected kernel, row neighbours differ for every width |
| Checkerboard.IntendedColumnNeighborsDiffer | src/jobbers/checkerboard.rs:9 | in the corrected kernel, column neighbours differ for every width |

## Left out

- Threads, the `SegQueue` job and result queues and the `yield_now` polling loops are left out, because they exist only for concurrency. The order in which results come off the result queue is a parameter, any permutation of the job numbers.
- The `Death` signal, `Drop` with `join`, and the `Arc::try_unwrap` check are left out for the same reason. In the model the input buffer is returned as a value and never shared.
- `Instant` timing and the floating-point throughput `println!` in `compute_iterations` are left out: they are I/O and clocks.
- `ExecutorGolVis` is left out: it sleeps, renders to the terminal and writes to stdout.
- `main.rs` (argument parsing, configuration file, terminal size) is not part of this model.
- The commented-out `at_3d` stub has no behaviour to model. `dims_1d`, `dims_2d` and `dims_3d` are plain projections without contracts.
- Buffers.Buffer.At2DI32: `dims.0 as i32` wraps for dims above `i32::MAX`. The model requires both dims to fit in `i32` instead of modelling the wrap.
- GameOfLife.ProcessJob: `pos as i32 + offset` wraps or overflows for coordinates at `i32::MAX`. The model requires the coordinates to stay below it (`GolDefined`).
- `usize` overflow is not modelled: integers are unbounded. `offset + count` and `i * work_slice_len` stay at most the buffer length in the source too.
- Executors.ComputeIterations: the result is stated by value. Which of the two allocations holds it (the first for an even count, the clone for an odd one) shows only in the loop's invariant.
- Executors.ComputeIterations: for n > 0 the slice pool's size is stated, but not which storages it holds after the loop. Each single call's pool contents are stated by `Executors.Compute`.
- Executors.ExecutorParallel: `Vec::with_capacity` is an empty sequence; capacity is not modelled.

## Findings

| source | as written | input that shows it | evidently intended | confidence | as-written member | corrected member |
|---|---|---|---|---|---|---|
| src/jobbers/checkerboard.rs:9 | colour A where `(index + index/width) % 2 == 0`, which for odd widths is the parity of x alone, giving vertical stripes | width 3: index 0 (x=0, y=0) and index 3 (x=0, y=1) are vertically adjacent and both get colour A | colour A where `(x + y) % 2 == 0`, i.e. `(index % width + index / width) % 2 == 0`, a checkerboard for every width | medium, not executed | Checkerboard.OddWidthCounterexample | Checkerboard.IntendedColumnNeighborsDiffer |
