# alsvinn core, modelled in Dafny

This project models the computational core of alsvinn, a finite-volume solver for hyperbolic conservation laws. It covers five pieces:

- **Euler equation** (`euler.dfy`, module `Euler`):
  - the maps between conserved, primitive and extra variables of an ideal gas with γ = 5/3;
  - the directional point flux;
  - the admissibility test;
  - reads and writes of one cell of the five per-variable buffers of a volume.
- **Host memory** (`host_memory.dfy`, module `Memory`), a flat buffer of nx·ny·nz reals (class `HostMemory`) with:
  - in-place element-wise `+= -= *= /=`, against another memory area or a scalar;
  - copies to and from caller buffers;
  - zeroing;
  - extraction of a box of cells into an output buffer.
- **CUDA launch arithmetic** (`cuda_utils.dfy`, module `CudaUtils`):
  - block and grid dimensions;
  - the cell a thread works on;
  - launch parameters for a box of cells.
- **Fixed-size matrix** (`mat.dfy`, module `Mat`): a column-major 2-D array with:
  - zero initialisation and element access;
  - matrix-vector product;
  - transpose;
  - identity.
- **Parameter registry** (`parameters.dfy`, module `Parameters`): a map from names to reals where each name is registered once and then looked up.

The remaining modules are shared:

- `wrappers.dfy` (module `Wrappers`) holds the `Result` and `Outcome` types. Here they stand for the code's `THROW`.
- `arithmetic.dfy` (module `Arithmetic`) holds the facts about `*`, `/` and `%` on naturals that the index computations rely on.

Floating-point values are modelled as exact reals. Buffers that the code changes in place are Dafny arrays and classes. Each method's contract ties the new state to a specification function of the old state, such as `Combine`, `CombineScalar` or `RowTimes`.

With γ = 5/3 the code gives p = (γ − 1)·2.5 = 5/3 for a gas at rest with E = 2.5; `Euler.GasAtRest` states it.

Where a doc comment and the code disagree, the model follows the code:

- **Sign in `computeExtra`.** The doc comment on `computeExtra` (Euler.hpp:151) writes the factor as (1 − γ); the code (Euler.hpp:157) uses (γ − 1).
- **Pressure test.** The doc comment on `obeysConstraints` (Euler.hpp:213) says p ≥ 0; the code (Euler.hpp:221) tests p > 0.

## Model

| member | source | states |
|---|---|---|
| Euler.ComputeExtra | alsfvm/include/alsfvm/equation/euler/Euler.hpp:153-159 | for ρ ≠ 0 the velocity and pressure it returns satisfy the ideal-gas state equations with the input: m = ρu and E = p/(γ−1) + ½ρ\|u\|² |
| Euler.ExtraFormula | alsfvm/include/alsfvm/equation/euler/Euler.hpp:153-159 | computeExtra gives ρu = m and p = (γ−1)(E − ½\|m\|²/ρ) |
| Euler.ComputeExtraOfPrimitive | alsfvm/include/alsfvm/equation/euler/Euler.hpp:169-175 | the (p, u) of the primitive state; ExtraOverloadsAgree shows it is the conserved overload of computeExtra applied to computeConserved |
| Euler.GasAtRest | alsfvm/include/alsfvm/equation/euler/Euler.hpp:153-159 | zero momentum gives u = 0 and p = (γ−1)E, so p = 5/3 for E = 2.5; the state is admissible iff ρ > 0 and E > 0 |
| Euler.ExtraOverloadsAgree | alsfvm/include/alsfvm/equation/euler/Euler.hpp:169-175 | for ρ ≠ 0 the primitive overload of computeExtra agrees with the conserved overload applied to computeConserved |
| Euler.ComputeConserved | alsfvm/include/alsfvm/equation/euler/Euler.hpp:185-193 | the conserved state keeps ρ and satisfies m = ρu and E = p/(γ−1) + ½ρ\|u\|² (inverse of ComputePrimitiveVariables by PrimitiveRoundTrip and ConservedRoundTrip) |
| Euler.ConservedRoundTrip | alsfvm/include/alsfvm/equation/euler/Euler.hpp:185-193 | conserved → primitive → conserved is the identity for ρ ≠ 0 |
| Euler.ComputePrimitiveVariables | alsfvm/include/alsfvm/equation/euler/Euler.hpp:234-240 | for ρ ≠ 0 the primitive state keeps ρ and satisfies the same state equations with the input |
| Euler.PrimitiveRoundTrip | alsfvm/include/alsfvm/equation/euler/Euler.hpp:234-240 | primitive → conserved → primitive is the identity for ρ ≠ 0 |
| Euler.StateOfGasUnique | alsfvm/include/alsfvm/equation/euler/Euler.hpp:234-240 | for ρ ≠ 0, ρ, m and E determine u and p uniquely |
| Euler.ExtraOfPrimitiveVariables | alsfvm/include/alsfvm/equation/euler/Euler.hpp:234-240 | computeExtra is the (p, u) part of computePrimitiveVariables |
| Euler.ObeysConstraintsOfConserved | alsfvm/include/alsfvm/equation/euler/Euler.hpp:217-222 | a conserved state passes obeysConstraints iff ρ > 0 and E > ½\|m\|²/ρ |
| Euler.ObeysConstraintsOfPrimitive | alsfvm/include/alsfvm/equation/euler/Euler.hpp:217-222 | the conserved form of a primitive state passes iff ρ > 0 and p > 0 |
| Euler.ObeysConstraints | alsfvm/include/alsfvm/equation/euler/Euler.hpp:217-222 | ρ > 0 and p > 0; the INFINITY and NaN tests always hold over reals |
| Euler.MakeAllVariables | alsfvm/include/alsfvm/equation/euler/Euler.hpp:224-228 | the conserved part is the tuple built from the arguments, and the extra part satisfies the state equations with it |
| Euler.ComputePointFlux | alsfvm/include/alsfvm/equation/euler/Euler.hpp:134-142 | F.ρ = m_d; F.m_k = u_d·m_k + p for k = d, else u_d·m_k; F.E = (E + p)u_d (its physical meaning is PointFluxOfGasState) |
| Euler.PointFluxOfGasState | alsfvm/include/alsfvm/equation/euler/Euler.hpp:116-142 | with m = ρu the flux is the F, G or H vector of the Euler system: (ρu_d, ρu_d u_k + p[k = d], u_d(E + p)) |
| Euler.MomentumFluxOfGasState | alsfvm/include/alsfvm/equation/euler/Euler.hpp:138-140 | with m = ρu, momentum component k of the direction-d flux is ρu_d u_k, plus p when k = d |
| Euler.MomentumFluxSymmetric | alsfvm/include/alsfvm/equation/euler/Euler.hpp:121-123 | with m = ρu, momentum component k of the direction-d flux equals component d of the direction-k flux |
| Euler.SetViewAt | alsfvm/include/alsfvm/equation/euler/Euler.hpp:79-86 | fetching the index afterwards gives the input; each of the five buffers changes at that index only |
| Euler.SetExtraViewAt | alsfvm/include/alsfvm/equation/euler/Euler.hpp:91-97 | fetching the extra variables afterwards gives the input; each of the four buffers changes at that index only |
| Euler.AddToViewAt | alsfvm/include/alsfvm/equation/euler/Euler.hpp:104-111 | the state at the index becomes the old state plus the input, component by component; nothing else changes |
| Euler.FetchAllVariables | alsfvm/include/alsfvm/equation/euler/Euler.hpp:52-58 | the conserved part is the state stored at the index, and the extra part satisfies the state equations with it |
| Euler.FetchConservedVariables | alsfvm/include/alsfvm/equation/euler/Euler.hpp:61-67 | the tuple stored at the index in the five conserved buffers; SetViewAt and AddToViewAt are stated through it |
| Euler.FetchExtraVariables | alsfvm/include/alsfvm/equation/euler/Euler.hpp:69-74 | the tuple stored at the index in the four extra buffers; SetExtraViewAt is stated through it |
| Memory.HostMemory.constructor | alsfvm/src/memory/HostMemory.cpp:11-13 | a new area holds nx·ny·nz cells, each 42 |
| Memory.HostMemory.CopyToHost | alsfvm/src/memory/HostMemory.cpp:36-40 | for a buffer at least as long as the area, its first Size() entries equal the data afterwards; the rest of the buffer and the data are unchanged |
| Memory.HostMemory.CopyFromHost | alsfvm/src/memory/HostMemory.cpp:43-47 | the data becomes the first min(bufferLength, size) buffer entries followed by the old data after them |
| Memory.PlusOperandCheckAsWritten | alsfvm/src/memory/HostMemory.cpp:55-59 | += as written passes iff the operand is on the host; there is no size check (see PlusAcceptsShorterOperand) |
| Memory.PlusAcceptsShorterOperand | alsfvm/src/memory/HostMemory.cpp:55-66 | += as written accepts a one-cell host operand for a two-cell area, which the size check of the other operators rejects |
| Memory.HostMemory.AddAssignAsWritten | alsfvm/src/memory/HostMemory.cpp:55-66 | given an operand at least as long as the area: fails with NotOnHost iff the operand is not on the host, else adds it cell by cell |
| Memory.HostMemory.AddAssign | alsfvm/src/memory/HostMemory.cpp:55-66 | corrected +=: fails on a device operand or a size mismatch and then leaves the data unchanged; otherwise data[i] += other[i] for every cell |
| Memory.OperandCheck | alsfvm/src/memory/HostMemory.cpp:73-80 | passes iff the operand is on the host and has the area's size; fails with NotOnHost iff it is not on the host (contrasted with += in PlusAcceptsShorterOperand) |
| Memory.HostMemory.MulAssign | alsfvm/src/memory/HostMemory.cpp:72-87 | fails on a device operand or a size mismatch and then leaves the data unchanged; otherwise data[i] *= other[i] for every cell |
| Memory.HostMemory.SubAssign | alsfvm/src/memory/HostMemory.cpp:93-107 | the same checks; otherwise data[i] −= other[i] for every cell |
| Memory.HostMemory.DivAssign | alsfvm/src/memory/HostMemory.cpp:113-127 | the same checks; otherwise data[i] /= other[i] for every cell |
| Memory.SubUndoesAdd | alsfvm/src/memory/HostMemory.cpp:55-107 | subtracting a buffer cell by cell undoes adding it |
| Memory.DivUndoesMul | alsfvm/src/memory/HostMemory.cpp:72-127 | dividing by a buffer with no zero among its cells undoes multiplying by it |
| Memory.HostMemory.AddAssignScalar | alsfvm/src/memory/HostMemory.cpp:133-140 | every cell becomes data[i] + scalar; the length is kept |
| Memory.HostMemory.MulAssignScalar | alsfvm/src/memory/HostMemory.cpp:146-152 | every cell becomes data[i] · scalar |
| Memory.HostMemory.SubAssignScalar | alsfvm/src/memory/HostMemory.cpp:158-164 | every cell becomes data[i] − scalar |
| Memory.HostMemory.DivAssignScalar | alsfvm/src/memory/HostMemory.cpp:170-176 | every cell becomes data[i] / scalar, for a nonzero scalar |
| Memory.ScalarIsConstantBuffer | alsfvm/src/memory/HostMemory.cpp:133-176 | each scalar operator equals the buffer operator against a buffer filled with that scalar |
| Memory.HostMemory.MakeZero | alsfvm/src/memory/HostMemory.cpp:178-185 | every cell becomes 0 and the length is kept |
| Memory.OutputIndexAsWritten | alsfvm/src/memory/HostMemory.cpp:199-200 | the code's output offset, with numberOfY as the y stride; OutputIndexAsWrittenCollides and OutputIndexAsWrittenSquare state what it does |
| Memory.OutputIndexAsWrittenCollides | alsfvm/src/memory/HostMemory.cpp:199-200 | with numberOfY as the y stride, a 3×2×1 box sends cells (2,0,0) and (0,1,0) to the same output offset, and a 1×2×1 box writes past its two-cell output |
| Memory.OutputIndexAsWrittenSquare | alsfvm/src/memory/HostMemory.cpp:199-200 | when numberOfX = numberOfY, the code's output offset is the row-major one |
| Memory.OutputIndexInjective | alsfvm/src/memory/HostMemory.cpp:189-205 | with numberOfX as the y stride, every cell of the box has its own output offset, below numberOfX·numberOfY·numberOfZ |
| Memory.OutputIndexInjectiveAll | alsfvm/src/memory/HostMemory.cpp:189-205 | the same for all cells of a box at once |
| Memory.HostMemory.IndexInRangeAll | alsfvm/src/memory/HostMemory.cpp:197 | for a box inside the area, every input index z·nx·ny + y·nx + x is inside the data |
| Memory.HostMemory.CopyInternalCells | alsfvm/src/memory/HostMemory.cpp:189-205 | every cell of the box is copied to its output offset; output beyond the box's cell count and the data are unchanged |
| CudaUtils.CalculateBlockDimensions | alsfvm/include/alsfvm/cuda/cuda_utils.hpp:38-43 | x is 1024; y is 1024 iff ny > 1, else 1; z is 1024 iff nz > 1, else 1 (coverage is GridCoversCells) |
| CudaUtils.CeilDiv | alsfvm/include/alsfvm/cuda/cuda_utils.hpp:47-49 | (n + b − 1)/b is the ceiling of n/b: q·b ≥ n and (q − 1)·b < n |
| CudaUtils.CalculateGridDimensions | alsfvm/include/alsfvm/cuda/cuda_utils.hpp:45-50 | each component is the ceiling of the cell count over the block size |
| CudaUtils.GridCoversCells | alsfvm/include/alsfvm/cuda/cuda_utils.hpp:38-50 | grid·block covers the cells on every axis, and an axis of at most one cell gets exactly that many blocks |
| CudaUtils.Decompose | alsfvm/include/alsfvm/cuda/cuda_utils.hpp:61-70 | the x and y parts are always in range, the z part is in range iff index < nx·ny·nz, and the parts recompose the index |
| CudaUtils.GetCoordinates | alsfvm/include/alsfvm/cuda/cuda_utils.hpp:57-77 | (−1,−1,−1) when index ≥ nx·ny·nz; otherwise the result minus the direction vector is the in-range cell (x, y, z) with (z·ny + y)·nx + x = index |
| CudaUtils.DecompositionUnique | alsfvm/include/alsfvm/cuda/cuda_utils.hpp:63-65 | a flat index has at most one in-range cell |
| CudaUtils.DecompositionBound | alsfvm/include/alsfvm/cuda/cuda_utils.hpp:63-65 | the flat index of every in-range cell is below nx·ny·nz |
| CudaUtils.CoordinatesOfCell | alsfvm/include/alsfvm/cuda/cuda_utils.hpp:57-77 | a thread whose flat index is a cell's gets that cell plus the direction vector |
| CudaUtils.MakeKernelLaunchParameters | alsfvm/include/alsfvm/cuda/cuda_utils.hpp:81-92 | the extents are end − start, and gridSize is the ceiling of their product over blockSize |
| CudaUtils.LaunchThreadsLandInBox | alsfvm/include/alsfvm/cuda/cuda_utils.hpp:57-92 | a thread launched over a box at non-negative coordinates gets (−1,−1,−1) iff its index is past the last cell, and otherwise gets a cell of the box |
| CudaUtils.LaunchReachesEveryCell | alsfvm/include/alsfvm/cuda/cuda_utils.hpp:57-92 | every cell of the box is reached: a thread whose flat index is the cell's lies in a block of the grid and gets that cell |
| CudaUtils.LaunchCoversBox | alsfvm/include/alsfvm/cuda/cuda_utils.hpp:57-92 | for every cell of the box, thread index % blockSize of block index / blockSize, where index is the cell's flat index, is in the grid and receives that cell |
| Mat.Matrix.constructor | alsfvm/include/alsfvm/mat.hpp:8-15 | every element of a new matrix is 0 |
| Mat.Matrix.Get | alsfvm/include/alsfvm/mat.hpp:18-25 | reads data[column][row], the column-major element (row, column); Set is stated through it |
| Mat.Matrix.Set | alsfvm/include/alsfvm/mat.hpp:22-25 | reading (row, column) afterwards gives the written value; every other element is unchanged |
| Mat.Matrix.Times | alsfvm/include/alsfvm/mat.hpp:30-46 | for a square matrix, entry row of the product is Σ_c M(row, c)·v[c] |
| Mat.IdentityRowTimesPrefix | alsfvm/include/alsfvm/mat.hpp:39-43 | over the first k columns, row r of the identity sums to v[r] if r < k, else 0 |
| Mat.Matrix.Identity | alsfvm/include/alsfvm/mat.hpp:75-84 | an n×n matrix with 1 on the diagonal and 0 elsewhere |
| Mat.IdentityTimes | alsfvm/include/alsfvm/mat.hpp:75-84 | identity() · v = v |
| Mat.Matrix.Transposed | alsfvm/include/alsfvm/mat.hpp:48-57 | for a square matrix, element (r, c) of the result is M(c, r) |
| Mat.TransposeLoopInBoundsIffSquare | alsfvm/include/alsfvm/mat.hpp:50-52 | the code's loop stays inside both arrays iff rows = columns; a 2×1 matrix steps outside |
| Mat.Matrix.TransposedAnyShape | alsfvm/include/alsfvm/mat.hpp:48-57 | corrected transposed: for any shape, the result is columns×rows and element (r, c) is M(c, r) |
| Mat.TransposeTwice | alsfvm/include/alsfvm/mat.hpp:48-57 | transposing twice gives back every element |
| Parameters.Lookup | alsuq/src/distribution/Parameters.cpp:5-11 | Ok iff the name is registered, holding its value; otherwise UnknownParameter(name) (partner: RegisterThenLookup) |
| Parameters.Parameters.GetParameter | alsuq/src/distribution/Parameters.cpp:5-11 | the stored value iff the name is registered, else UnknownParameter; the map is not changed |
| Parameters.Register | alsuq/src/distribution/Parameters.cpp:13-19 | Ok iff the name is new; then the names grow by that one name, it maps to the value, and every old entry keeps its value; otherwise AlreadyRegistered(name) |
| Parameters.Parameters.SetParameter | alsuq/src/distribution/Parameters.cpp:13-19 | a registered name fails with AlreadyRegistered and leaves the map unchanged; a new name is added with the value |
| Parameters.RegisterThenLookup | alsuq/src/distribution/Parameters.cpp:5-19 | after a successful registration the name looks up to its value, every other name looks up as before, and no name is lost |
| Parameters.RegisterTwiceFails | alsuq/src/distribution/Parameters.cpp:13-19 | registering a name a second time fails, and the first value is kept |

## Left out

- Floating point: values are exact reals, with no rounding, overflow, infinities or NaN.
  - The `INFINITY` and NaN tests of `obeysConstraints` always hold over reals, so they are dropped.
- Euler.ComputeExtra: requires ρ ≠ 0. The code divides by ρ and yields infinities or NaN at ρ = 0; reals have no such values.
- Euler.ComputePrimitiveVariables: requires ρ ≠ 0, for the same reason.
- Euler.MakeAllVariables: requires ρ ≠ 0, for the same reason.
- Euler.FetchAllVariables: requires ρ ≠ 0 at the index, for the same reason.
- `computeWaveSpeed` (Euler.hpp:199-206) and `matrix::normalized` (mat.hpp:59-73) are not modelled, because both take square roots.
- `getWeight` and the variable-count accessors of the Euler class are not modelled; they are plain reads.
- The OpenMP parallel loops of the host memory operators are modelled as sequential loops. Each iteration touches only its own cell.
- Memory.HostMemory.MakeZero and the buffer and scalar compound operators (AddAssign, AddAssignAsWritten, SubAssign, MulAssign, DivAssign, AddAssignScalar, SubAssignScalar, MulAssignScalar, DivAssignScalar): the code bounds each loop by `int(data.size())`. For areas of 2^31 or more cells that cast truncates, and the code then visits fewer cells, or none. The model visits every cell for any size, so it does not capture that truncation.
- Memory.HostMemory.DivAssign: requires every divisor cell to be nonzero. The code divides anyway and produces infinities or NaN.
- Memory.HostMemory.DivAssignScalar: requires a nonzero scalar, for the same reason.
- Memory.HostMemory.AddAssignAsWritten: requires a host operand at least as long as the area. Otherwise the code's loop reads past the operand's end, which is undefined behaviour (see Findings).
- Memory.HostMemory.CopyInternalCells: requires the box to lie inside the area and the output to hold the box's cells.
  - The code checks neither, and ignores its `outputSize` argument.
  - The model uses the corrected output offset (see Findings).
- Operands on a device are represented only by their size (`Memory.MemoryRef.Device`). CUDA memory, copies and kernels are not part of this model, and neither is the `CUDA_CHECK_IF_DEBUG` macro.
- CudaUtils.GetCoordinates: integers are unbounded. The code's `int` index, its `size_t` casts and wrap-around are not modelled.
- CudaUtils.MakeKernelLaunchParameters: requires start ≤ end on every axis. The code would cast a negative extent to `size_t`, and the `int` gridSize may wrap; neither is modelled.
- CudaUtils.GetCoordinates: requires nx > 0 and ny > 0. The code divides by both.
- CudaUtils.LaunchThreadsLandInBox: stated for boxes whose x start is non-negative. A box containing cell (−1,−1,−1) would make that cell indistinguishable from the out-of-range marker.
- Mat.Matrix.Times: the product vector is started at zero. The code relies on a default-constructed `VectorType` being zero.
- Mat.Matrix.Transposed: requires a square matrix, which is the only shape for which the code's loop stays in range (see Findings).
- HDF5 and other I/O, grids, reconstruction and numerical-flux interfaces, the diffusion factory, the statistics, timing, MPI and random-distribution headers, and the test programs are not part of this model.

## Findings

| source | as written | input that shows it | evidently intended | confidence | as-written member | corrected member |
|---|---|---|---|---|---|---|
| alsfvm/src/memory/HostMemory.cpp:55-66 | `operator+=` checks only that the operand is on the host; unlike `-=`, `*=` and `/=`, it does not check the size | a host operand of 1 cell added to a 2-cell area passes the check, and the loop reads the operand at index 1, past its end | fail with a size mismatch, as the other three operators do | high, not executed | Memory.PlusAcceptsShorterOperand | Memory.HostMemory.AddAssign |
| alsfvm/src/memory/HostMemory.cpp:199-200 | `copyInternalCells` uses numberOfY, not numberOfX, as the y stride of the output offset | a box 3 cells wide, 2 deep and 1 high sends cells (2,0,0) and (0,1,0) to output offset 2; a box 1 wide and 2 deep writes offset 2 of a 2-cell output | row-major offset (z·numberOfY + y)·numberOfX + x, which is one-to-one onto the box's cell count | high, not executed | Memory.OutputIndexAsWrittenCollides | Memory.HostMemory.CopyInternalCells |
| alsfvm/include/alsfvm/mat.hpp:48-57 | `transposed` loops column < NumberOfColumns, row < NumberOfRows and writes result(row, column) = this(column, row); both indices are out of range unless the matrix is square | a 2×1 matrix: step column 0, row 1 writes row 1 of a 1-row result and reads column 1 of a 1-column source | write result(column, row) = this(row, column), which transposes any shape, as the columns×rows return type indicates | medium, not executed | Mat.TransposeLoopInBoundsIffSquare | Mat.Matrix.TransposedAnyShape |
