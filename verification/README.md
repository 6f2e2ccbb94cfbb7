# Verification model of the dynamic-embedding kernels

A Dafny 4.11 model of two parts of the repository, with proofs that the fast and parallel forms of each
operator do what the simple forms do. `dafny verify dfyconfig.toml` checks everything.

**Partition, stitch, segment sum, their gradients, and the sparse lookup.** Tensors are flat row-major
sequences, so the index arithmetic of the kernels is part of the proofs. A GPU grid or a thread pool is a
list of programs, one a thread, each an ordered list of writes (store or atomic add) to numbered cells; a
run is any interleaving of them (`Interleave.dfy`). The loops that produce those programs are methods; the
theorems speak of every interleaving.

**Saving and loading tables.** Three save loops (Redis, GPU slot windows, CPU chunks) and two load loops
(pair by pair, in chunks) over one two-file format of fixed-size records, files being byte sequences in a
file-system object, and the directory load over shards.

| file | what it models |
|---|---|
| Wrappers | optional values |
| Tensors | index arithmetic, gather, unsorted segment sum, inner products |
| Interleave | threads, runs, what does not depend on the schedule |
| SegmentSum | the tiled sparse segment-sum kernel and operator |
| StableSort, Partition, GpuPartition | CPU and GPU dynamic partition |
| Stitch, StitchRaces, StitchOps | the four dynamic stitch operators and when they agree |
| Gradients | adjoint identities, partition then stitch |
| Lookup, LookupSpec | the sparse lookup pipeline and its row-wise specification |
| LookupKernel | the unweighted lookup through every run of the kernel |
| DocumentedLookup | when "sum" is as documented |
| Records, Checkpoint, CheckpointLoad, ShardDirectory | file format, save, load, directory load |
| SaveRestore | what a load after a save gives |

Where the code and what one would expect of it part ways, the model follows the code, and an
if-and-only-if lemma says when they agree, with a failing input beside it:

- GPU partition is right for ids that are too large, but negative ids shift every window unless no id is
  in range at all (`GpuPartition.WindowsAreExact`); the CPU form reports such ids as an error.
- Parallel stitch gives the serial result exactly when no index is in two inputs
  (`StitchRaces.ParallelIsSerialExactly`), the fast form exactly when the indices are distinct and cover
  0..max (`StitchRaces.FastIsOrdinaryExactly`). What a shared row can end with is `StitchRaces.RunValuesExactly`.
- The stitch gradient is the derivative exactly when the indices are distinct
  (`Gradients.StitchGradIsDerivativeExactly`). As an inner-product identity it also needs the output, which
  is never cleared, to be zero in the rows no index names (`Gradients.StitchGradIsAdjointExactly`).
- The gradient of partition has as many rows as the input exactly when all ids are in range
  (`Gradients.GradSizeExactly`), while the GPU operator itself takes ids that are too large.
- Appending to saved files goes to the temporary files where they are used, and the rename then replaces
  the records saved before (`Checkpoint.AppendKeepsOldRecordsExactly`).
- Saving an empty Redis table returns before the rename, so where temporary files are used an earlier
  save stays in place and is what loads (`SaveRestore.RedisSaveRestoresExactly`).
- A failed Redis save in place has already emptied or extended the files
  (`Checkpoint.FailedRedisSaveKeepsExactly`).
- After an append the chunked loader may keep the older value of a key
  (`SaveRestore.AppendThenLoadExactly`).
- The Redis save looks at the length of the first value of each reply only; longer values behind it are
  cut (`Checkpoint.ScanSavedUnchangedExactly`).
- A key file with a broken last record is an error for the pair-by-pair loader and is accepted by the
  chunked ones (`ShardDirectory.LoadersAgreeExactly`).
- The documentation of `safe_embedding_lookup_sparse` says weights of zero or less are always pruned; the
  code keeps them for "sum" (`DocumentedLookup.SumIsAsDocumentedExactly`).
- Without weights a row without entries is zero, with all weights one "mean" divides by zero there
  (`LookupSpec.UnweightedLookupCellExactly`); the safe lookup never gets such a row.
- With no rows at all the segment-sum operator has no last id to read
  (`LookupKernel.OperatorIsSuitedExactly`).

## Model

| member | source | states |
|---|---|---|
| SegmentSum.EveryRunIsTheSegmentSum | tensorflow_recommenders_addons/dynamic_embedding/core/kernels/segment_reduction_ops_gpu.cu.cc:30-71 | for sorted ids in [0, rows), every interleaving of the writes of all stripes over a zeroed output, any sizes and tile height, ends with row s holding the sum of the input rows indices[k] with ids[k] = s, and zero where there are none |
| SegmentSum.PlainStoreIsAlone | tensorflow_recommenders_addons/dynamic_embedding/core/kernels/segment_reduction_ops_gpu.cu.cc:41-59 | in every run a cell that gets a plain store gets no other write of any stripe, and its segment lies strictly between the first and last entry of one tile |
| SegmentSum.CrossingSegmentsAreAtomic | tensorflow_recommenders_addons/dynamic_embedding/core/kernels/segment_reduction_ops_gpu.cu.cc:52-69 | a segment with entries on both sides of a tile boundary is only ever written by atomic adds |
| SegmentSum.StoresAreExclusive | tensorflow_recommenders_addons/dynamic_embedding/core/kernels/segment_reduction_ops_gpu.cu.cc:55-59 | over the whole grid, a planned plain store shares its cell with no other planned write |
| SegmentSum.StripeShape | tensorflow_recommenders_addons/dynamic_embedding/core/kernels/segment_reduction_ops_gpu.cu.cc:52-69 | one stripe writes once for each of certain segments of its tile, in rising order and in its own column, storing exactly where the segment is neither the tile's first nor its last |
| SegmentSum.StripeTotal | tensorflow_recommenders_addons/dynamic_embedding/core/kernels/segment_reduction_ops_gpu.cu.cc:40-69 | what a stripe writes to a segment in its column totals exactly what its entries hold for that segment |
| SegmentSum.GridTotal | tensorflow_recommenders_addons/dynamic_embedding/core/kernels/segment_reduction_ops_gpu.cu.cc:99-117 | the stripes launched, counted by ceiling division and addressed by / and %, together write to (s, c) the sum over all entries, each entry once |
| SegmentSum.WritesInBounds | tensorflow_recommenders_addons/dynamic_embedding/core/kernels/segment_reduction_ops_gpu.cu.cc:53-69 | no stripe writes outside the output |
| SegmentSum.ReadTile | tensorflow_recommenders_addons/dynamic_embedding/core/kernels/segment_reduction_ops_gpu.cu.cc:40-69 | the loop over a tile issues exactly the planned writes, starting from the impossible segment id `rows` |
| SegmentSum.RunStripe | tensorflow_recommenders_addons/dynamic_embedding/core/kernels/segment_reduction_ops_gpu.cu.cc:36-46 | tile base, column and the cut-off height of the last tile give the planned program of stripe g |
| SegmentSum.LaunchKernel | tensorflow_recommenders_addons/dynamic_embedding/core/kernels/segment_reduction_ops_gpu.cu.cc:79-118 | zeroing, the three early exits and the launch leave the segment sums in the output |
| SegmentSum.ElementSize | tensorflow_recommenders_addons/dynamic_embedding/core/kernels/segment_reduction_ops_impl.h:136-142 | the row size is the product of all dimensions but the first |
| Tensors.ProductOf | tensorflow_recommenders_addons/dynamic_embedding/core/kernels/segment_reduction_ops_impl.h:136-142 | sizes multiply dimension by dimension, a vector has as many elements as its one dimension says |
| Tensors.StartsWith | tensorflow_recommenders_addons/dynamic_embedding/core/kernels/dynamic_partition_op.cc:52-56 | true exactly when the leading dimensions are those of the prefix, equal shapes included |
| SegmentSum.SparseSegmentSum | tensorflow_recommenders_addons/dynamic_embedding/core/kernels/segment_reduction_ops_impl.h:87-166 | the operator reports the first of its five argument faults in the code's order, each under its exact condition, else returns num_segments or last id + 1 rows of the input's remaining dimensions, holding the segment sums |
| Interleave.EveryRunSums | tensorflow_recommenders_addons/dynamic_embedding/core/kernels/segment_reduction_ops_gpu.cu.cc:52-69 | if every stored-to cell has one write only, each run over a zero cell leaves the sum of all writes to it |
| Interleave.ExclusiveRunsHaveLoneStores | tensorflow_recommenders_addons/dynamic_embedding/core/kernels/segment_reduction_ops_gpu.cu.cc:55-59 | under that condition, in each run a stored-to cell is written exactly once |
| Interleave.OwnedCellIsScheduleIndependent | tensorflow_recommenders_addons/dynamic_embedding/core/kernels/dynamic_stitch_op.cc:391-397 | a cell written by one thread only ends, in every run, as if that thread had run alone |
| Interleave.UnwrittenCellIsKept | tensorflow_recommenders_addons/dynamic_embedding/core/kernels/dynamic_stitch_op.cc:339-341 | a cell no thread writes keeps its value in every run |
| Interleave.Execute | tensorflow_recommenders_addons/dynamic_embedding/core/kernels/segment_reduction_ops_gpu.cu.cc:35 | running threads that take turns in any order is a run of some interleaving of their programs |
| StableSort.SortPairs | tensorflow_recommenders_addons/dynamic_embedding/core/kernels/dynamic_partition_op_gpu.cu.cc:322-354 | sorting (id, position) pairs bit by bit over all 32 bits lists the positions by rising signed id, equal ids by rising position |
| Partition.CountIds | tensorflow_recommenders_addons/dynamic_embedding/core/kernels/dynamic_partition_op.cc:58-69 | the count of each id, or the first position whose id is out of range |
| Partition.AllocateOutputs | tensorflow_recommenders_addons/dynamic_embedding/core/kernels/dynamic_partition_op.cc:71-81 | a fresh output of the counted size for each part |
| Partition.ScatterSlices | tensorflow_recommenders_addons/dynamic_embedding/core/kernels/dynamic_partition_op.cc:138-159 | walking the input once fills each output with the slices whose id is p, in input order; the bounds checks never fail |
| Partition.PartitionCpu | tensorflow_recommenders_addons/dynamic_embedding/core/kernels/dynamic_partition_op.cc:93-161 | the CPU operator: a fault exactly if the leading dimensions of the data are not those of the ids, else the first id out of range, else every part with its shape, content and order |
| Partition.PositionsSpec | tensorflow_recommenders_addons/dynamic_embedding/core/kernels/dynamic_partition_op.cc:115-127 | the positions of a part are exactly those with its id, rising |
| Partition.PartAt | tensorflow_recommenders_addons/dynamic_embedding/core/kernels/dynamic_partition_op.cc:142-158 | slice k of a part is that of the k-th position with its id |
| Partition.PartShape | tensorflow_recommenders_addons/dynamic_embedding/core/kernels/dynamic_partition_op.cc:73-78 | a part has its count as first dimension, then those of a slice, and that many elements |
| Partition.ScatterNext | tensorflow_recommenders_addons/dynamic_embedding/core/kernels/dynamic_partition_op.cc:142-158 | one slice goes behind those of its part, the other parts stay |
| GpuPartition.GpuAgreesWithCpu | tensorflow_recommenders_addons/dynamic_embedding/core/kernels/dynamic_partition_op_gpu.cu.cc:322-459 | for non-negative ids, too large ones included, each GPU part is the CPU part of the input with its out-of-range rows removed, and is the CPU part itself |
| GpuPartition.WindowsAreExact | tensorflow_recommenders_addons/dynamic_embedding/core/kernels/dynamic_partition_op_gpu.cu.cc:449-458 | for any ids, all gather windows are the right positions if and only if no id is negative or none is in range |
| GpuPartition.CountSurvivesExactly | tensorflow_recommenders_addons/dynamic_embedding/core/kernels/dynamic_partition_op_gpu.cu.cc:386-439 | for any ids, part p gets the count of its id if fewer than num_partitions distinct ids lie below it, negative ones included, and zero otherwise |
| GpuPartition.WindowSizeExactly | tensorflow_recommenders_addons/dynamic_embedding/core/kernels/dynamic_partition_op_gpu.cu.cc:450-457 | every window is exactly as long as that count |
| GpuPartition.WindowsAreConsecutive | tensorflow_recommenders_addons/dynamic_embedding/core/kernels/dynamic_partition_op_gpu.cu.cc:449-458 | for any ids, the windows one behind the other are the front of the sorted positions |
| GpuPartition.GpuPartAt | tensorflow_recommenders_addons/dynamic_embedding/core/kernels/dynamic_partition_op_gpu.cu.cc:453-456 | for any ids, slice k of a part is that of the position its window names at k |
| GpuPartition.NegativeIdShiftsWindows | tensorflow_recommenders_addons/dynamic_embedding/core/kernels/dynamic_partition_op_gpu.cu.cc:449-458 | for the ids -1, 0 and one partition the gather window is not the part |
| GpuPartition.RowNumbersPartitionAlikeExactly | tensorflow_recommenders_addons/dynamic_embedding/python/ops/data_flow_grad.py:38-42 | the partition of row numbers that the gradient takes is the same on GPU and CPU under exactly that condition |
| GpuPartition.NonNegativeWindow | tensorflow_recommenders_addons/dynamic_embedding/core/kernels/dynamic_partition_op_gpu.cu.cc:449-458 | for non-negative ids the moving base points at the positions of p |
| GpuPartition.StableSortSlice | tensorflow_recommenders_addons/dynamic_embedding/core/kernels/dynamic_partition_op_gpu.cu.cc:322-354 | between the number of ids below p and below p + 1 a stable sort lists exactly the positions of p, in order |
| GpuPartition.Window | tensorflow_recommenders_addons/dynamic_embedding/core/kernels/dynamic_partition_op_gpu.cu.cc:450-457 | for arbitrary ids, every gather window lies inside the N sorted positions and names existing rows |
| GpuPartition.CountsFit | tensorflow_recommenders_addons/dynamic_embedding/core/kernels/dynamic_partition_op_gpu.cu.cc:433-438 | for arbitrary ids, the moved counts sum to at most N |
| GpuPartition.RemovingRowsKeepsParts | tensorflow_recommenders_addons/dynamic_embedding/core/kernels/dynamic_partition_op.cc:142-158 | removing the rows with an id out of range changes no part |
| GpuPartition.BoundedStore | tensorflow_recommenders_addons/dynamic_embedding/core/kernels/dynamic_partition_op_gpu.cu.cc:143 | an assignment through the bounded iterator changes the array only inside [0, limit) |
| GpuPartition.ReduceByKey | tensorflow_recommenders_addons/dynamic_embedding/core/kernels/dynamic_partition_op_gpu.cu.cc:386-432 | run-length encoding through bounded iterators: exact number of runs, exact keys and counts below the limit, nothing beyond it touched |
| GpuPartition.RunLengthIsCount | tensorflow_recommenders_addons/dynamic_embedding/core/kernels/dynamic_partition_op_gpu.cu.cc:425-428 | in a sorted sequence the length of a run is the number of elements equal to its key |
| GpuPartition.MoveValues | tensorflow_recommenders_addons/dynamic_embedding/core/kernels/dynamic_partition_op_gpu.cu.cc:85-94 | each surviving run's count goes to the slot its key names, if there is one; other slots are untouched |
| GpuPartition.CountAndSortParts | tensorflow_recommenders_addons/dynamic_embedding/core/kernels/dynamic_partition_op_gpu.cu.cc:356-439 | stable sort and, in slot p, the count of id p among the runs that survived |
| GpuPartition.GatherKernel | tensorflow_recommenders_addons/dynamic_embedding/core/kernels/dynamic_partition_op_gpu.cu.cc:453-456 | the gather fills an output with the slices named by a window |
| GpuPartition.GatherPart | tensorflow_recommenders_addons/dynamic_embedding/core/kernels/dynamic_partition_op_gpu.cu.cc:450-457 | one output is filled from the current base, earlier outputs stay, the base moves on by the count |
| GpuPartition.GatherSlices | tensorflow_recommenders_addons/dynamic_embedding/core/kernels/dynamic_partition_op_gpu.cu.cc:442-459 | all outputs end with the slices of their windows |
| GpuPartition.PartitionRows | tensorflow_recommenders_addons/dynamic_embedding/core/kernels/dynamic_partition_op_gpu.cu.cc:251-310 | counts, allocation and gather of a non-empty input |
| GpuPartition.PartitionGpu | tensorflow_recommenders_addons/dynamic_embedding/core/kernels/dynamic_partition_op_gpu.cu.cc:180-319 | the GPU operator: its faults under their exact conditions on the dimensions, the empty input, and every part with its shape, as the slices of its window |
| Stitch.DisjointInputsStitchSerially | tensorflow_recommenders_addons/dynamic_embedding/core/kernels/dynamic_stitch_op.cc:346-402 | every interleaving of the inputs' element writes gives the serial result if no row is named by two inputs, duplicates inside one input allowed |
| Stitch.RunCopy | tensorflow_recommenders_addons/dynamic_embedding/core/kernels/dynamic_stitch_op.cc:356-363 | one input's copies, in order, give every row its last occurrence and leave the others alone |
| Stitch.SerialRow | tensorflow_recommenders_addons/dynamic_embedding/core/kernels/dynamic_stitch_op.cc:399-402 | the serial result in a row is the last slice of the last input that names it |
| Stitch.FlatConcat | tensorflow_recommenders_addons/dynamic_embedding/core/kernels/dynamic_stitch_op.cc:399-402 | flattening puts the indices and the data of the inputs one behind the other |
| StitchRaces.ParallelIsSerialExactly | tensorflow_recommenders_addons/dynamic_embedding/core/kernels/dynamic_stitch_op.cc:379-403 | for given index lists, all data and all runs of the thread pool give the serial result if and only if no index is in two lists |
| StitchRaces.SharedRowRaces | tensorflow_recommenders_addons/dynamic_embedding/core/kernels/dynamic_stitch_op.cc:391-397 | for two inputs that name one row, concrete data and a run that differ from the serial result |
| StitchRaces.RunValuesExactly | tensorflow_recommenders_addons/dynamic_embedding/core/kernels/dynamic_stitch_op.cc:391-397 | the values an element of a named row can end with over all runs are exactly those that the inputs naming the row leave there alone |
| Interleave.LastWriter | tensorflow_recommenders_addons/dynamic_embedding/core/kernels/dynamic_stitch_op.cc:391-397 | in every run a cell that is only stored to ends as the thread that wrote it last leaves it alone |
| StitchRaces.Pigeonhole | tensorflow_recommenders_addons/dynamic_embedding/core/kernels/dynamic_stitch_op.cc:291-293 | distinct indices below m number at most m, and m exactly when they cover 0..m |
| StitchRaces.FastSizeExactly | tensorflow_recommenders_addons/dynamic_embedding/core/kernels/dynamic_stitch_op.cc:291-298 | for distinct non-negative indices, sum of lengths equals largest index + 1 exactly when they cover 0..max |
| StitchRaces.FastIsOrdinaryExactly | tensorflow_recommenders_addons/dynamic_embedding/core/kernels/dynamic_stitch_op_gpu.cu.cc:68-81 | the fast form has the ordinary size and, for all data and thread orders, the ordinary contents if and only if the indices are distinct and cover 0..max |
| StitchRaces.RepeatedIndexIsNotOrdinary | tensorflow_recommenders_addons/dynamic_embedding/core/kernels/dynamic_stitch_op_gpu.cu.cc:68-81 | for the indices 0, 0 the fast form is not the ordinary one |
| StitchOps.SameExtraShape | tensorflow_recommenders_addons/dynamic_embedding/core/kernels/dynamic_stitch_op.cc:63-75 | true exactly when the dimensions behind the index dimensions are the same |
| StitchOps.CheckShapes | tensorflow_recommenders_addons/dynamic_embedding/core/kernels/dynamic_stitch_op.cc:106-125 | the first input whose shapes are wrong and in which way, or Ok exactly when all agree |
| StitchOps.FaultsExactly | tensorflow_recommenders_addons/dynamic_embedding/core/kernels/dynamic_stitch_op.cc:106-125 | what each result of the checks says of the dimensions of the inputs before the faulty one and of that one |
| StitchOps.ResultShape | tensorflow_recommenders_addons/dynamic_embedding/core/kernels/dynamic_stitch_op.cc:129-134 | the number of rows, then the dimensions of the first data behind those of its indices |
| StitchOps.RowsExactly | tensorflow_recommenders_addons/dynamic_embedding/core/kernels/dynamic_stitch_op.cc:82-101 | the ordinary forms have a row for every index and none behind the largest; an index is out of range exactly if it is negative |
| StitchOps.FindMaxIndex | tensorflow_recommenders_addons/dynamic_embedding/core/kernels/dynamic_stitch_op.cc:85-100 | the largest index over all inputs, -1 if there is none |
| StitchOps.CopyInput | tensorflow_recommenders_addons/dynamic_embedding/core/kernels/dynamic_stitch_op.cc:346-363 | one input copied row by row over what is there; stops at the first index out of range |
| StitchOps.StitchSerial | tensorflow_recommenders_addons/dynamic_embedding/core/kernels/dynamic_stitch_op.cc:399-402 | input after input gives the last-write-wins result, or an index fault exactly when an index is out of range |
| StitchOps.StitchParallel | tensorflow_recommenders_addons/dynamic_embedding/core/kernels/dynamic_stitch_op.cc:379-397 | one thread an input, any interleaving: the same fault, the serial result if no row is shared, and in any case every element from some input naming its row, other rows kept |
| StitchOps.StitchCpu | tensorflow_recommenders_addons/dynamic_embedding/core/kernels/dynamic_stitch_op.cc:326-405 | both CPU operators: shape faults, index faults, every dimension of the output, and contents over whatever the allocated memory held |
| StitchOps.FillOutput | tensorflow_recommenders_addons/dynamic_embedding/core/kernels/dynamic_stitch_op.cc:339-404 | serial or pooled, the output ends as the serial result over what it held, and rows no index names keep it |
| StitchOps.BuildTable | tensorflow_recommenders_addons/dynamic_embedding/core/kernels/dynamic_stitch_op.cc:211-238 | for every output row the last flattened position that names it or -1, for every position a pointer to its slice |
| StitchOps.ThreadOf | tensorflow_recommenders_addons/dynamic_embedding/core/kernels/dynamic_stitch_op_gpu.cu.cc:42-49 | the thread of one output element copies the element its row's pointer leads to, or does nothing |
| StitchOps.TableStitchIsSerial | tensorflow_recommenders_addons/dynamic_embedding/core/kernels/dynamic_stitch_op_gpu.cu.cc:42-49 | every order of those threads gives the serial result for all non-negative indices, duplicates included; uncovered rows are left unwritten |
| StitchOps.FillByTable | tensorflow_recommenders_addons/dynamic_embedding/core/kernels/dynamic_stitch_op.cc:200-246 | table and kernel together leave the serial result over what the output held |
| StitchOps.StitchGpu | tensorflow_recommenders_addons/dynamic_embedding/core/kernels/dynamic_stitch_op.cc:184-247 | the GPU operator: shape faults, every dimension of the output, and the serial result |
| StitchOps.NamedRowIs | tensorflow_recommenders_addons/dynamic_embedding/core/kernels/dynamic_stitch_op.cc:399-402 | a row named by some input ends with the slice at the last position of the last input that names it |
| StitchOps.UnnamedRowIs | tensorflow_recommenders_addons/dynamic_embedding/core/kernels/dynamic_stitch_op.cc:339-341 | a row no input names ends as the memory was |
| StitchOps.FastStitchIsSerial | tensorflow_recommenders_addons/dynamic_embedding/core/kernels/dynamic_stitch_op_gpu.cu.cc:68-81 | for distinct indices every order of the row threads gives the serial result |
| StitchOps.GridThreads | tensorflow_recommenders_addons/dynamic_embedding/core/kernels/dynamic_stitch_op_gpu.cu.cc:68-81 | the two-dimensional grid has one thread for each row of each input |
| StitchOps.FillByGrid | tensorflow_recommenders_addons/dynamic_embedding/core/kernels/dynamic_stitch_op.cc:304-312 | the fast kernel leaves the serial result over what the output held if the indices are distinct, else every element from some slice for its row |
| StitchOps.CountIndices | tensorflow_recommenders_addons/dynamic_embedding/core/kernels/dynamic_stitch_op.cc:291-293 | the fast output has one row an index |
| StitchOps.StitchFast | tensorflow_recommenders_addons/dynamic_embedding/core/kernels/dynamic_stitch_op.cc:257-313 | the fast operator: shape faults, one output row an index and the dimensions of a slice behind, the serial result if the indices are distinct, and in any case every element from some slice for its row |
| Gradients.SegmentSumAdjoint | tensorflow_recommenders_addons/dynamic_embedding/python/ops/math_grad.py:26-31 | <segsum(x), g> = <x, grad(g)> for all x and g, repeated indices and segments included |
| Gradients.KernelAdjoint | tensorflow_recommenders_addons/dynamic_embedding/python/ops/math_grad.py:34-40 | the same for what the tiled kernel leaves, in whatever order its stripes ran, for any number of segments |
| Tensors.ScatterGatherAdjoint | tensorflow_recommenders_addons/dynamic_embedding/python/ops/math_grad.py:30-31 | unsorted segment sum and gather by the same ids are adjoint |
| Gradients.StitchDifference | tensorflow_recommenders_addons/dynamic_embedding/python/ops/data_flow_grad.py:66 | for distinct indices, over any memory: what a change of the data does to the inner product of the output with g is what it does to that of the data with the gathered g |
| Gradients.StitchGradIsDerivativeExactly | tensorflow_recommenders_addons/dynamic_embedding/python/ops/data_flow_grad.py:51-67 | over any memory, gathering is the derivative of stitching if and only if all indices are distinct |
| Gradients.StitchAdjoint | tensorflow_recommenders_addons/dynamic_embedding/python/ops/data_flow_grad.py:66 | for distinct indices, over memory that is zero in the rows they do not name, gathering the gradient is adjoint to stitching |
| Gradients.StitchGradIsAdjointExactly | tensorflow_recommenders_addons/dynamic_embedding/python/ops/data_flow_grad.py:51-67 | over given memory, the stitch gradient is the adjoint for all data and gradients if and only if all indices are distinct and the memory is zero in the rows they do not name |
| Gradients.StitchGradIsAlwaysAdjointExactly | tensorflow_recommenders_addons/dynamic_embedding/python/ops/data_flow_grad.py:51-67 | over every memory, it is the adjoint if and only if the indices are distinct and cover all rows |
| Gradients.UnclearedRowIsNotAdjoint | tensorflow_recommenders_addons/dynamic_embedding/python/ops/data_flow_grad.py:66 | index 1 of two rows, a five left in row 0: one side is 5, the other 0 |
| Gradients.RepeatedIndexIsNotAdjoint | tensorflow_recommenders_addons/dynamic_embedding/python/ops/data_flow_grad.py:66 | for the indices 0, 0 gathering is neither the adjoint nor the derivative |
| Gradients.StitchGradsDerivative | tensorflow_recommenders_addons/dynamic_embedding/python/ops/data_flow_grad.py:61-67 | over any memory, the gradients of the separate inputs together give the change of the output for any change of their data |
| Gradients.StitchGradsAdjoint | tensorflow_recommenders_addons/dynamic_embedding/python/ops/data_flow_grad.py:61-67 | over memory that is zero elsewhere they are the adjoint |
| Gradients.SlicedGradsDerivative | tensorflow_recommenders_addons/dynamic_embedding/python/ops/data_flow_grad.py:62-66 | the same for an IndexedSlices gradient, summed into a dense one: its values against the rows they name |
| Gradients.SlicedGradsAdjoint | tensorflow_recommenders_addons/dynamic_embedding/python/ops/data_flow_grad.py:62-66 | and the adjoint over memory that is zero elsewhere |
| Gradients.GradIndicesArePermutation | tensorflow_recommenders_addons/dynamic_embedding/python/ops/data_flow_grad.py:38-43 | the stitched row numbers are distinct, cover 0..N, and so size the ordinary and the fast output alike as N |
| Gradients.GradSizeExactly | tensorflow_recommenders_addons/dynamic_embedding/python/ops/data_flow_grad.py:38-44 | the fast stitch of the gradient has as many rows as the input if and only if all ids are in range |
| Gradients.TooLargeIdIsLeftOut | tensorflow_recommenders_addons/dynamic_embedding/python/ops/data_flow_grad.py:38-44 | one row with the id 1 and one part: no row is stitched |
| Gradients.PartitionAdjoint | tensorflow_recommenders_addons/dynamic_embedding/python/ops/data_flow_grad.py:31-45 | the sum over parts of <partition(x)_p, g_p> equals <x, grad(g)> for all x, p and g |
| Gradients.PartitionThenStitch | tensorflow_recommenders_addons/dynamic_embedding/python/ops/data_flow_grad.py:38-45 | stitching partition(x, p) at partition(0..N-1, p) returns x, whatever the output held before |
| Gradients.FastPartitionGrad | tensorflow_recommenders_addons/dynamic_embedding/python/ops/data_flow_ops.py:51-60 | through the fast stitch, the default, every thread order gives that same gradient |
| Lookup.UniqueSpec | tensorflow_recommenders_addons/dynamic_embedding/python/ops/dynamic_embedding_ops.py:99 | exactly the given ids, each once, and for every id its place among them |
| Lookup.UniqueKeepsOrder | tensorflow_recommenders_addons/dynamic_embedding/python/ops/dynamic_embedding_ops.py:99 | ids take their places in the order of first occurrence: a new one comes behind all before it |
| Lookup.DedupLookup | tensorflow_recommenders_addons/dynamic_embedding/python/ops/dynamic_embedding_ops.py:223-239 | looking up distinct ids and gathering through the inverse index is looking up every id |
| Lookup.LookupUniqueIsNaive | tensorflow_recommenders_addons/dynamic_embedding/python/ops/dynamic_embedding_ops.py:94-117 | the result has shape [shape of ids] + [dim] and holds each id's own embedding |
| Lookup.LookupUniqueAt | tensorflow_recommenders_addons/dynamic_embedding/python/ops/dynamic_embedding_ops.py:94-117 | element by element: the embedding of the id at that position |
| Lookup.Divide | tensorflow_recommenders_addons/dynamic_embedding/python/ops/dynamic_embedding_ops.py:261-270 | a quotient exists exactly if the divisor is not zero, and times the divisor it is the dividend |
| Lookup.PrunedAligns | tensorflow_recommenders_addons/dynamic_embedding/python/ops/dynamic_embedding_ops.py:432-438 | ids and weights stay aligned through pruning |
| Lookup.FillAligns | tensorflow_recommenders_addons/dynamic_embedding/python/ops/dynamic_embedding_ops.py:378-382 | ids and weights stay aligned when filled separately |
| Lookup.FilledRowsAreComplete | tensorflow_recommenders_addons/dynamic_embedding/python/ops/dynamic_embedding_ops.py:378-382 | filled rows are sorted, in range and hit every row, so last id + 1 is the row count |
| LookupKernel.KernelProblem | tensorflow_recommenders_addons/dynamic_embedding/python/ops/dynamic_embedding_ops.py:275-279 | what reaches the segment-sum kernel after the filling meets its precondition and hits every row |
| LookupKernel.OperatorIsSuitedExactly | tensorflow_recommenders_addons/dynamic_embedding/core/kernels/segment_reduction_ops_impl.h:111-150 | the operator without num_segments, which reads the last id, is given what it needs if and only if there is at least one row; it then computes that number of rows |
| LookupKernel.NoRowsDoNotSuit | tensorflow_recommenders_addons/dynamic_embedding/core/kernels/segment_reduction_ops_impl.h:116-122 | a batch of no rows is not what it needs |
| LookupKernel.EveryRunMeetsRowSpec | tensorflow_recommenders_addons/dynamic_embedding/core/kernels/segment_reduction_ops_gpu.cu.cc:30-71 | the unweighted "sum" lookup meets its row-wise specification in every order in which the stripes of the tiled kernel run |
| LookupSpec.RetainFold | tensorflow_recommenders_addons/dynamic_embedding/python/ops/dynamic_embedding_ops.py:434-437 | pruning keeps, row by row, the weighted sums of the positive-weight entries |
| LookupSpec.FillFold | tensorflow_recommenders_addons/dynamic_embedding/python/ops/dynamic_embedding_ops.py:378-382 | filling keeps the sums of non-empty rows and gives empty ones a single default entry of weight one |
| LookupSpec.WeightedLookupCell | tensorflow_recommenders_addons/dynamic_embedding/python/ops/dynamic_embedding_ops.py:234-270 | the weighted reduction of a row, with the divisor of each combiner |
| LookupSpec.UnweightedLookupCellExactly | tensorflow_recommenders_addons/dynamic_embedding/python/ops/dynamic_embedding_ops.py:234-289 | the unweighted path gives what the weighted one gives for all weights one if and only if the row has an entry, or the combiner is "sum", or it is "sqrtn" and the root of zero is not zero |
| LookupSpec.MissingRowDiffers | tensorflow_recommenders_addons/dynamic_embedding/python/ops/dynamic_embedding_ops.py:261-284 | one entry in row 1: for "mean" the two paths differ in row 0 |
| LookupSpec.SafeLookupMeetsRowSpec | tensorflow_recommenders_addons/dynamic_embedding/python/ops/dynamic_embedding_ops.py:353-408 | for any ragged input, combiner and default id: a row combines its surviving entries, and one left with none is the embedding of default_id, or zero for None; only "sum" keeps entries of weight zero or less |
| LookupSpec.SafeLookupIsTheMean | tensorflow_recommenders_addons/dynamic_embedding/python/ops/dynamic_embedding_ops.py:353-408 | every element, as inner products over the entries of its row: "sum" is the weighted embeddings' sum; "mean" times the sum of the weights, and "sqrtn" times the root of the sum of their squares, are that sum, over entries of positive weight, with a positive divisor; a row left with none is the default embedding or zero |
| LookupSpec.SparseLookupIsTheMean | tensorflow_recommenders_addons/dynamic_embedding/python/ops/dynamic_embedding_ops.py:234-270 | the same for the lookup by itself with any weights: no number exactly where the divisor is zero |
| LookupSpec.RowResultIs | tensorflow_recommenders_addons/dynamic_embedding/python/ops/dynamic_embedding_ops.py:311-408 | the same for the row-wise specification, pruned or not |
| LookupSpec.MissingRowIsZero | tensorflow_recommenders_addons/dynamic_embedding/python/ops/dynamic_embedding_ops.py:275-289 | without weights a row that no entry names is zero |
| LookupSpec.NoWeightsAreOnes | tensorflow_recommenders_addons/dynamic_embedding/python/ops/dynamic_embedding_ops.py:223-289 | the whole lookup without weights equals the one with all weights one |
| LookupSpec.SafeLookupIsNumeric | tensorflow_recommenders_addons/dynamic_embedding/python/ops/dynamic_embedding_ops.py:373-393 | after prune and fill no divisor is zero: every element is a number |
| DocumentedLookup.SumIsAsDocumentedExactly | tensorflow_recommenders_addons/dynamic_embedding/python/ops/dynamic_embedding_ops.py:311-376 | for given entries, "sum" is as documented, with pruning, for all tables if and only if no weight is negative and either default_id is None or every row with an entry has one of positive weight |
| DocumentedLookup.NegativeWeightIsKept | tensorflow_recommenders_addons/dynamic_embedding/python/ops/dynamic_embedding_ops.py:374-376 | one entry of weight -1: the code gives -1, the documentation 0 |
| Records.DecodeEncode | tensorflow_recommenders_addons/dynamic_embedding/core/kernels/cuckoo_hashtable_op.cc:453-459 | reading fixed-size records back undoes writing them |
| Records.FilesHoldRecords | tensorflow_recommenders_addons/dynamic_embedding/core/kernels/cuckoo_hashtable_op_gpu.cu.cc:430-451 | key i stands in the key file and value i in the value file, at their number times their size |
| Records.InsertedLast | tensorflow_recommenders_addons/dynamic_embedding/core/kernels/cuckoo_hashtable_op.cc:453-459 | of repeated keys the last pair decides |
| Records.DecodeWindow | tensorflow_recommenders_addons/dynamic_embedding/core/kernels/redis_table_op.cc:1309-1314 | a window of whole records decodes to just those records |
| Records.InsertListing | tensorflow_recommenders_addons/dynamic_embedding/core/kernels/cuckoo_hashtable_op.cc:453-459 | inserting a listing of a table into t, repeated pairs allowed, gives t overridden by the table |
| Records.AnyOrderIsInsert | tensorflow_recommenders_addons/dynamic_embedding/core/kernels/cuckoo_hashtable_op_gpu.cu.cc:583 | for distinct keys, and whatever the order, inserting is inserting one after the other |
| Records.SavedTableLoads | tensorflow_recommenders_addons/dynamic_embedding/core/kernels/cuckoo_hashtable_op.cc:432-459 | from the two encoded files the record counts come back and, in any order of insertion, exactly the table |
| Records.AnyOrderOfTwoExactly | tensorflow_recommenders_addons/dynamic_embedding/core/kernels/cuckoo_hashtable_op_gpu.cu.cc:583 | two listings one behind the other give the first table overridden by the second in every order of insertion if and only if the tables agree on the keys they share |
| Checkpoint.PutPair | tensorflow_recommenders_addons/dynamic_embedding/core/kernels/redis_table_op.cc:1168-1199 | a pair, its value cut to the expected length, enters both buffers with the cursors in step and inside the buffers; a full key buffer flushes both |
| Checkpoint.SaveBatch | tensorflow_recommenders_addons/dynamic_embedding/core/kernels/redis_table_op.cc:1168-1199 | one scan reply keeps files plus buffers equal to what was scanned |
| Checkpoint.SaveBucket | tensorflow_recommenders_addons/dynamic_embedding/core/kernels/redis_table_op.cc:1145-1206 | one bucket, up to the cursor's return to zero; it fails exactly when the first value of some reply has a wrong length, having saved all before that reply |
| Checkpoint.SaveRedis | tensorflow_recommenders_addons/dynamic_embedding/core/kernels/redis_table_op.cc:1125-1217 | for any buffer size and any split into batches, the files get exactly the scanned records, in order, with longer values cut; on a failure the whole buffers filled before the wrong reply |
| Checkpoint.ScanSized | tensorflow_recommenders_addons/dynamic_embedding/core/kernels/redis_table_op.cc:1161-1187 | the records saved from an accepted scan have the expected sizes |
| Checkpoint.ScannedExactly | tensorflow_recommenders_addons/dynamic_embedding/core/kernels/redis_table_op.cc:1145-1206 | the scanned pairs are exactly those that some reply delivers |
| Checkpoint.ReplyAt | tensorflow_recommenders_addons/dynamic_embedding/core/kernels/redis_table_op.cc:1145-1206 | every reply comes behind all that was delivered before it and before all that comes after, each once |
| Checkpoint.WholeBuffersExactly | tensorflow_recommenders_addons/dynamic_embedding/core/kernels/redis_table_op.cc:1188-1199 | what was flushed is whole buffers, and less than one is left |
| Checkpoint.CutPair | tensorflow_recommenders_addons/dynamic_embedding/core/kernels/redis_table_op.cc:1168-1187 | the key stays and the value is cut to its front of the expected length |
| Checkpoint.ScanSavedUnchangedExactly | tensorflow_recommenders_addons/dynamic_embedding/core/kernels/redis_table_op.cc:1161-1187 | an accepted scan is saved unchanged if and only if every value, not only the first of each reply, has the expected length |
| Checkpoint.LongerValueIsCut | tensorflow_recommenders_addons/dynamic_embedding/core/kernels/redis_table_op.cc:1161-1187 | a reply with a longer second value is accepted and that value is cut |
| Checkpoint.FinishBuffers | tensorflow_recommenders_addons/dynamic_embedding/core/kernels/redis_table_op.cc:1209-1217 | the last partial buffers are written, and nothing when they are empty |
| Checkpoint.DumpWindow | tensorflow_recommenders_addons/dynamic_embedding/core/kernels/cuckoo_hashtable_op_gpu.cu.cc:424-452 | one window of slots appends its occupied slots, or writes nothing |
| Checkpoint.OccupiedExactly | tensorflow_recommenders_addons/dynamic_embedding/core/kernels/cuckoo_hashtable_op_gpu.cu.cc:424-452 | the dumped pairs are exactly those of the full slots, each as often as slots hold it |
| Checkpoint.OccupiedAt | tensorflow_recommenders_addons/dynamic_embedding/core/kernels/cuckoo_hashtable_op_gpu.cu.cc:424-452 | they come in slot order |
| Checkpoint.SaveGpu | tensorflow_recommenders_addons/dynamic_embedding/core/kernels/cuckoo_hashtable_op_gpu.cu.cc:421-455 | for any buffer size and occupancy, the windows cover every slot once |
| Checkpoint.SaveCpu | tensorflow_recommenders_addons/dynamic_embedding/core/kernels/cuckoo_hashtable_op.cc:348-366 | for any buffer size, the dumped chunks make up the whole listing |
| Checkpoint.OpenFiles | tensorflow_recommenders_addons/dynamic_embedding/core/kernels/cuckoo_hashtable_op.cc:329-336 | both files start empty, or with what they held when appending |
| Checkpoint.PathNames | tensorflow_recommenders_addons/dynamic_embedding/core/kernels/cuckoo_hashtable_op.cc:315-325 | the names of the two files and of their temporaries |
| Checkpoint.CommitFiles | tensorflow_recommenders_addons/dynamic_embedding/core/kernels/cuckoo_hashtable_op.cc:383-388 | temporary files replace the real ones; no other file changes |
| Checkpoint.SaveGpuToFileSystem | tensorflow_recommenders_addons/dynamic_embedding/core/kernels/cuckoo_hashtable_op_gpu.cu.cc:368-479 | the GPU save leaves exactly the records of the occupied slots, and touches only its own four paths |
| Checkpoint.SaveCpuToFileSystem | tensorflow_recommenders_addons/dynamic_embedding/core/kernels/cuckoo_hashtable_op.cc:310-391 | the same for the CPU table |
| Checkpoint.SaveRedisToFileSystem | tensorflow_recommenders_addons/dynamic_embedding/core/kernels/redis_table_op.cc:1086-1235 | the Redis save leaves the scanned records; an empty table and a failed save return before the rename, with exactly what was written by then |
| Checkpoint.FailedRedisSaveKeepsExactly | tensorflow_recommenders_addons/dynamic_embedding/core/kernels/redis_table_op.cc:1116-1197 | a failed save leaves an earlier one as it was if and only if temporary files are used or, in place, nothing was appended or just what was there was written; with temporary files no other path changes |
| Checkpoint.FailedRedisSaveLosesOldTable | tensorflow_recommenders_addons/dynamic_embedding/core/kernels/redis_table_op.cc:1116-1167 | the first reply is wrong and the files are written in place: the earlier save is gone |
| Checkpoint.AppendKeepsOldRecordsExactly | tensorflow_recommenders_addons/dynamic_embedding/core/kernels/cuckoo_hashtable_op.cc:319-336 | with append_to_file the records saved before survive if and only if no temporary file is used, or it already holds them |
| Checkpoint.AppendLosesOldRecords | tensorflow_recommenders_addons/dynamic_embedding/core/kernels/cuckoo_hashtable_op.cc:319-336 | two saved files, temporary files in use and none there: an append leaves only the new record |
| CheckpointLoad.Table.InsertOrAssign | tensorflow_recommenders_addons/dynamic_embedding/core/kernels/cuckoo_hashtable_op.cc:456-457 | one pair goes in, over an older value |
| CheckpointLoad.Table.Upsert | tensorflow_recommenders_addons/dynamic_embedding/core/kernels/cuckoo_hashtable_op_gpu.cu.cc:583 | records inserted in any order: every key is in, with one of the values recorded for it |
| CheckpointLoad.ReadNBytes | tensorflow_recommenders_addons/dynamic_embedding/core/kernels/cuckoo_hashtable_op_gpu.cu.cc:572-576 | the next n bytes, or a failure exactly when the file is too short |
| CheckpointLoad.LoadPair | tensorflow_recommenders_addons/dynamic_embedding/core/kernels/cuckoo_hashtable_op.cc:454-458 | one whole record goes in; a broken last one fails |
| CheckpointLoad.LoadPairs | tensorflow_recommenders_addons/dynamic_embedding/core/kernels/cuckoo_hashtable_op.cc:432-459 | unequal record counts change nothing; otherwise all whole records go in, and a broken last key record is then an error |
| CheckpointLoad.WholeRecordAt | tensorflow_recommenders_addons/dynamic_embedding/core/kernels/cuckoo_hashtable_op.cc:453-459 | whole record i is the key and the value at that number in the two files |
| CheckpointLoad.PlanChunk | tensorflow_recommenders_addons/dynamic_embedding/core/kernels/cuckoo_hashtable_op_gpu.cu.cc:563-571 | a chunk never reaches behind the file, and holds whole records but for a broken last one |
| CheckpointLoad.LoadChunk | tensorflow_recommenders_addons/dynamic_embedding/core/kernels/cuckoo_hashtable_op_gpu.cu.cc:572-585 | one chunk extends the records already in |
| CheckpointLoad.LoadChunks | tensorflow_recommenders_addons/dynamic_embedding/core/kernels/redis_table_op.cc:1274-1317 | for any buffer size, chunked load inserts all whole records in some order, for distinct keys one by one; a broken last key record is dropped without error |
| ShardDirectory.ShardOfFiles | tensorflow_recommenders_addons/dynamic_embedding/core/kernels/cuckoo_hashtable_op.cc:487-490 | cutting any file name of a shard, temporary ones too, at its last dash gives the shard, dashes in it or not |
| ShardDirectory.ShardOfExactly | tensorflow_recommenders_addons/dynamic_embedding/core/kernels/cuckoo_hashtable_op.cc:487-490 | of any name the part before its last dash, or all of it if it has none |
| ShardDirectory.SortNames | tensorflow_recommenders_addons/dynamic_embedding/core/kernels/cuckoo_hashtable_op.cc:492 | sorted, and a permutation of the names |
| ShardDirectory.LessExactly | tensorflow_recommenders_addons/dynamic_embedding/core/kernels/cuckoo_hashtable_op.cc:492 | names are ordered by the first place where they differ, or else by length |
| ShardDirectory.DropRepeats | tensorflow_recommenders_addons/dynamic_embedding/core/kernels/cuckoo_hashtable_op.cc:493-494 | strictly rising, with the same elements |
| ShardDirectory.ShardsOf | tensorflow_recommenders_addons/dynamic_embedding/core/kernels/cuckoo_hashtable_op.cc:486-494 | each cut name exactly once, in order |
| ShardDirectory.ShardsAreFound | tensorflow_recommenders_addons/dynamic_embedding/core/kernels/cuckoo_hashtable_op.cc:485-494 | from the key and value files of a set of shards, with or without temporary ones, exactly that set is found |
| ShardDirectory.StrictlySortedIsDistinct | tensorflow_recommenders_addons/dynamic_embedding/core/kernels/cuckoo_hashtable_op.cc:493-494 | no shard is visited twice |
| ShardDirectory.LoadersAgreeExactly | tensorflow_recommenders_addons/dynamic_embedding/core/kernels/cuckoo_hashtable_op.cc:432-459 | the two loaders report the same on a shard if and only if a file is missing, the record counts differ or the key file is whole records |
| ShardDirectory.BrokenKeyRecord | tensorflow_recommenders_addons/dynamic_embedding/core/kernels/cuckoo_hashtable_op.cc:453-455 | three bytes of two-byte keys: accepted in chunks, an error pair by pair |
| ShardDirectory.LoadFile | tensorflow_recommenders_addons/dynamic_embedding/core/kernels/cuckoo_hashtable_op_gpu.cu.cc:501-594 | one shard by either loader: its status, and its records inserted, none for missing files or unequal counts |
| ShardDirectory.LoadShards | tensorflow_recommenders_addons/dynamic_embedding/core/kernels/cuckoo_hashtable_op_gpu.cu.cc:626-632 | shards are loaded in order up to and with the first that fails, whose status is returned; the table has exactly the records of those |
| ShardDirectory.LoadDirectory | tensorflow_recommenders_addons/dynamic_embedding/core/kernels/cuckoo_hashtable_op.cc:477-498 | the whole directory load, failures included |
| ShardDirectory.LoadDisjointShards | tensorflow_recommenders_addons/dynamic_embedding/core/kernels/cuckoo_hashtable_op.cc:477-498 | from the files of shards with disjoint keys, named in any order, the directory load gives the union of their tables over what was there |
| ShardDirectory.AnyOrderIsTheUnion | tensorflow_recommenders_addons/dynamic_embedding/core/kernels/cuckoo_hashtable_op.cc:495-498 | the records of disjoint shards give that union in any order of insertion, across shards too |
| ShardDirectory.AllRecordsAre | tensorflow_recommenders_addons/dynamic_embedding/core/kernels/cuckoo_hashtable_op.cc:495-498 | the records of all shards are exactly those of some shard |
| ShardDirectory.UnionIsUnique | tensorflow_recommenders_addons/dynamic_embedding/core/kernels/cuckoo_hashtable_op.cc:495-498 | there is only one such union |
| SaveRestore.Restore | tensorflow_recommenders_addons/dynamic_embedding/core/kernels/cuckoo_hashtable_op.cc:408-465 | a new table loaded from files that restore a table is that table |
| SaveRestore.SaveThenLoad | tensorflow_recommenders_addons/dynamic_embedding/core/kernels/cuckoo_hashtable_op_gpu.cu.cc:421-586 | after a save from scratch that reached its end, by any table and with any buffer size, either loader restores exactly the saved table, repeated pairs allowed |
| SaveRestore.SaveGpuThenRestore | tensorflow_recommenders_addons/dynamic_embedding/core/kernels/cuckoo_hashtable_op_gpu.cu.cc:368-594 | a GPU save of slots that hold a table, any buffer size, then either load: exactly the pairs of the full slots |
| SaveRestore.SaveCpuThenRestore | tensorflow_recommenders_addons/dynamic_embedding/core/kernels/cuckoo_hashtable_op.cc:310-465 | the same for the CPU table and any listing of it |
| SaveRestore.SaveRedisThenRestore | tensorflow_recommenders_addons/dynamic_embedding/core/kernels/redis_table_op.cc:1086-1317 | the same for the Redis table and any replies that deliver its entries, perhaps repeatedly |
| SaveRestore.AppendThenLoadExactly | tensorflow_recommenders_addons/dynamic_embedding/core/kernels/cuckoo_hashtable_op.cc:329-336 | after an append behind a saved table, the pair-by-pair load gives that table overridden by the appended one; the chunked load does so if and only if the two agree on the keys they share |
| SaveRestore.AppendedKeyMayKeepItsOldValue | tensorflow_recommenders_addons/dynamic_embedding/core/kernels/cuckoo_hashtable_op_gpu.cu.cc:583 | one key saved with 2 and then with 3: in chunks the 2 may win |
| SaveRestore.RedisSaveRestoresExactly | tensorflow_recommenders_addons/dynamic_embedding/core/kernels/redis_table_op.cc:1086-1235 | a successful Redis save from scratch, with or without repeats in the scan, restores the table if and only if all values have the expected length or, for an empty table, no temporary file is used or the files already there hold no record |
| SaveRestore.EmptyRedisSaveRestoresExactly | tensorflow_recommenders_addons/dynamic_embedding/core/kernels/redis_table_op.cc:1116-1130 | the empty table alone: the real files are left as they were where temporary ones are used |
| SaveRestore.EmptyRedisSaveKeepsOldTable | tensorflow_recommenders_addons/dynamic_embedding/core/kernels/redis_table_op.cc:1116-1130 | two files with one record, temporary files in use: after saving an empty table they still load as that record |

## Left out

- Redis connections, configuration, CUDA streams, device memory and mutexes: input, output and locking. A scan of Redis is given as the batches it delivers.
- The hash tables themselves (libcuckoo, HierarchicalKV): a GPU dump returns the occupied slots of a window, a CPU dump the next pairs of a fixed listing, insertion is insertion into a map.
- hkv_hashtable_op.cc: its save and load repeat the CPU table's.
- The accumulate protocol (bp_v2): the primitive that decides what happens is not part of the repository.
- ReCreateTableBuckets and ExportValuesToTensor of the Redis table: the first passes cursors that have already moved, the second is the save loop without flushing.
- Floating-point rounding and integer overflow: values are real, counts and offsets are unbounded; partition ids are 32-bit where the radix sort depends on it.
- The square root of "sqrtn": an arbitrary function that is positive on positive numbers and one at one.
- Norm clipping in the lookups: embedding_lookup_unique passes validate_indices in its place, and the model has none.
- Higher-rank sparse inputs: sparse_reshape to rows and back; only the row number of an entry is kept, not its column.
- The internals of the CUB sort and reduce-by-key, of gather, unique, sparse_retain, fill_empty_rows and the dense segment sums: each is an algorithm written here that does what its name promises; the CUB sort is a radix sort, one bit a pass.
- The `__shared__` variables of the fast stitch kernel: modelled as locals of each thread.
- The branch of the CPU partition for data without extra dimensions: the slice size is one there, and the general loop covers it.
- The final write of the CPU save behind its loop: its offsets are zero there.
- A null reply of the scan, and an empty batch before the last: outside the model.
- Memory allocation: an output that the code does not clear holds what a parameter of the stitch operators says, for any such parameter.
- Directory listing by pattern: the list of matching names is given.
- Error texts, and which of several file errors is reported when a file is missing: one status stands for them.
- SegmentSum.SparseSegmentSum: sorted ids in range, indices in range and a non-empty id list without num_segments are the caller's duty, as the kernel checks none of them.
- StitchOps.StitchGpu: negative indices are excluded, because the code writes its table at them without a check.
- StitchOps.BuildTable: as StitchOps.StitchGpu.
- StitchOps.FillByTable: as StitchOps.StitchGpu.
- StitchOps.StitchFast: indices beyond the number of indices are excluded, because the kernel writes at them without a check.
- StitchOps.FillByGrid: as StitchOps.StitchFast.
- Gradients.PartitionAdjoint: ids out of range are excluded, because the gradient then has the wrong number of rows (Gradients.GradSizeExactly) and does not take the shape of the data.
- Gradients.FastPartitionGrad: as Gradients.PartitionAdjoint.
- StitchOps.StitchCpu: when it fails, nothing is said of the contents, which the caller never sees.
- Stitch.DisjointInputsStitchSerially: element writes are taken as atomic, and so are the atomic adds of the segment sum.
- CheckpointLoad.LoadChunks: for repeated keys only that the value is one of those recorded, because the order inside an upsert is the table's own.
- Checkpoint.PutPair: values too short to copy from are excluded, because the copy reads past their end, and so are keys of another length than the key type's.
- Checkpoint.SaveBatch: the same, for values behind a first one of the expected length.
- Checkpoint.SaveBucket: the same.
- Checkpoint.SaveRedis: the same.
- Checkpoint.SaveRedisToFileSystem: the same.
- SaveRestore.SaveRedisThenRestore: an empty table over temporary files is left to SaveRestore.RedisSaveRestoresExactly, because it does not always come back.
- Shape inference, operator registration, optimizers, trainable wrappers, Keras layers, demos and build scripts: no logic that the theorems above need.
