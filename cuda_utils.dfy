/** Index arithmetic for kernel launches: block and grid sizes, the cell a
    thread works on, and launch parameters for a box of cells. The CUDA
    triples dim3 (unsigned) and ivec3 (signed) are plain integer triples. */
module CudaUtils {
  import opened Arithmetic

  /** An unsigned triple (dim3). */
  datatype Dim3 = Dim3(x: nat, y: nat, z: nat)

  /** A signed triple (ivec3). */
  datatype IVec3 = IVec3(x: int, y: int, z: int) {
    function Plus(o: IVec3): IVec3 {
      IVec3(x + o.x, y + o.y, z + o.z)
    }

    function Minus(o: IVec3): IVec3 {
      IVec3(x - o.x, y - o.y, z - o.z)
    }
  }

  /** The number of threads per block along x. */
  const BlockSize: nat := 1024

  /** The coordinates a thread outside the domain receives. */
  const OutOfRange: IVec3 := IVec3(-1, -1, -1)

  /** q is n / b rounded up: q blocks of b cover n and q - 1 do not. */
  ghost predicate IsCeilingQuotient(q: int, n: nat, b: nat) {
    q * b >= n && (q - 1) * b < n
  }

  /** (n + b - 1) / b, the number of blocks of b needed to cover n. */
  function CeilDiv(n: nat, b: nat): (q: nat)
    requires b > 0
    ensures IsCeilingQuotient(q, n, b)
  {
    var q := (n + b - 1) / b;
    DivModSplit(n + b - 1, b);
    q
  }

  /** Block dimensions for nx * ny * nz cells (calculateBlockDimensions):
      BlockSize threads along x, and along y and z BlockSize threads when
      that axis has more than one cell and a single thread otherwise. */
  function CalculateBlockDimensions(nx: nat, ny: nat, nz: nat): (b: Dim3)
    ensures b.x == BlockSize
    ensures b.y == (if ny > 1 then BlockSize else 1)
    ensures b.z == (if nz > 1 then BlockSize else 1)
  {
    Dim3(BlockSize, if ny > 1 then BlockSize else 1, if nz > 1 then BlockSize else 1)
  }

  /** Grid dimensions (calculateGridDimensions): along each axis the number
      of blocks needed to cover the cells, rounded up. */
  function CalculateGridDimensions(nx: nat, ny: nat, nz: nat, blockDimensions: Dim3): (g: Dim3)
    requires blockDimensions.x > 0 && blockDimensions.y > 0 && blockDimensions.z > 0
    ensures IsCeilingQuotient(g.x, nx, blockDimensions.x)
    ensures IsCeilingQuotient(g.y, ny, blockDimensions.y)
    ensures IsCeilingQuotient(g.z, nz, blockDimensions.z)
  {
    Dim3(CeilDiv(nx, blockDimensions.x), CeilDiv(ny, blockDimensions.y), CeilDiv(nz, blockDimensions.z))
  }

  /** The grid built from the block dimensions of a domain covers every cell,
      and an axis of at most one cell gets exactly as many blocks as cells. */
  lemma GridCoversCells(nx: nat, ny: nat, nz: nat)
    ensures var b := CalculateBlockDimensions(nx, ny, nz);
            var g := CalculateGridDimensions(nx, ny, nz, b);
            g.x * b.x >= nx && g.y * b.y >= ny && g.z * b.z >= nz &&
            (ny <= 1 ==> g.y == ny) && (nz <= 1 ==> g.z == nz)
  {
    var b := CalculateBlockDimensions(nx, ny, nz);
    var g := CalculateGridDimensions(nx, ny, nz, b);
    if ny <= 1 {
      assert b.y == 1;
      assert g.y * 1 >= ny && (g.y - 1) * 1 < ny;
    }
    if nz <= 1 {
      assert b.z == 1;
      assert g.z * 1 >= nz && (g.z - 1) * 1 < nz;
    }
  }

  /** The flat index of a thread along x. */
  function ThreadIndex(threadIdx: Dim3, blockIdx: Dim3, blockDim: Dim3): nat {
    threadIdx.x + blockIdx.x * blockDim.x
  }

  /** The cell (x, y, z) of an nx * ny * nz domain, x varying fastest, whose
      flat index is `index`. */
  ghost predicate DecomposesTo(c: IVec3, index: nat, nx: nat, ny: nat, nz: nat) {
    0 <= c.x < nx && 0 <= c.y < ny && 0 <= c.z < nz &&
    (c.z * ny + c.y) * nx + c.x == index
  }

  /** The flat index of cell c of a domain nx cells wide and ny deep. */
  function CellIndex(c: IVec3, nx: nat, ny: nat): nat
    requires c.x >= 0 && c.y >= 0 && c.z >= 0
  {
    (c.z * ny + c.y) * nx + c.x
  }

  /** The cell of the thread, offset by directionVector (getCoordinates); a
      thread past the last cell gets (-1, -1, -1). */
  function GetCoordinates(threadIdx: Dim3, blockIdx: Dim3, blockDim: Dim3,
                          nx: nat, ny: nat, nz: nat, directionVector: IVec3): (r: IVec3)
    requires nx > 0 && ny > 0
    ensures var index := ThreadIndex(threadIdx, blockIdx, blockDim);
            (index >= nx * ny * nz ==> r == OutOfRange) &&
            (index < nx * ny * nz ==> DecomposesTo(r.Minus(directionVector), index, nx, ny, nz))
  {
    var index := ThreadIndex(threadIdx, blockIdx, blockDim);
    var xInternal := index % nx;
    var yInternal := (index / nx) % ny;
    var zInternal := index / (nx * ny);
    Decompose(index, nx, ny, nz);
    if xInternal >= nx || yInternal >= ny || zInternal >= nz then
      OutOfRange
    else
      IVec3(xInternal + directionVector.x, yInternal + directionVector.y, zInternal + directionVector.z)
  }

  /** The x and y parts of the code's decomposition are always in range, the
      z part is in range exactly when the index is below nx * ny * nz, and the
      three parts recompose the index. */
  lemma Decompose(index: nat, nx: nat, ny: nat, nz: nat)
    requires nx > 0 && ny > 0
    ensures index % nx < nx && (index / nx) % ny < ny
    ensures index / (nx * ny) < nz <==> index < nx * ny * nz
    ensures ((index / (nx * ny)) * ny + (index / nx) % ny) * nx + index % nx == index
  {
    var x, q := index % nx, index / nx;
    DivModSplit(index, nx);
    var y, z := q % ny, q / ny;
    DivModSplit(q, ny);
    DivDiv(index, nx, ny);
    CellCountCommutes(nx, ny, nz);
    if z < nz {
      MixedRadixBound(z, y, nz, ny);
      MixedRadixBound(q, x, nz * ny, nx);
    } else {
      MulMonotone(nz, z, ny);
      MulMonotone(nz * ny, q, nx);
    }
  }

  lemma CellCountCommutes(nx: nat, ny: nat, nz: nat)
    ensures nz * ny * nx == nx * ny * nz
  {
  }

  /** A thread whose flat index is below the number of cells lies in a
      block of a grid that covers the cells. */
  lemma BlockInGrid(block: nat, thread: nat, total: int, blockSize: nat, gridSize: int)
    requires thread < blockSize && thread + block * blockSize < total
    requires IsCeilingQuotient(gridSize, total, blockSize)
    ensures block < gridSize
  {
  }

  /** A flat index has at most one decomposition. */
  lemma DecompositionUnique(c1: IVec3, c2: IVec3, index: nat, nx: nat, ny: nat, nz: nat)
    requires DecomposesTo(c1, index, nx, ny, nz) && DecomposesTo(c2, index, nx, ny, nz)
    ensures c1 == c2
  {
    MixedRadix3Unique(c1.x, c1.y, c1.z, c2.x, c2.y, c2.z, nx, ny);
  }

  /** The flat index of every cell of the domain is below nx * ny * nz. */
  lemma DecompositionBound(c: IVec3, index: nat, nx: nat, ny: nat, nz: nat)
    requires DecomposesTo(c, index, nx, ny, nz)
    ensures index < nx * ny * nz
  {
    MixedRadixBound(c.z, c.y, nz, ny);
    MixedRadixBound(c.z * ny + c.y, c.x, nz * ny, nx);
    CellCountCommutes(nx, ny, nz);
  }

  /** Launch parameters: the number of blocks and the extent of each axis. */
  datatype LaunchParameters = LaunchParameters(gridSize: int, numberOfCellsPerDimension: IVec3)

  function TotalCells(cells: IVec3): int {
    cells.x * cells.y * cells.z
  }

  /** Launch parameters for the cells from start (inclusive) to end
      (exclusive) (makeKernelLaunchParameters): the extents end - start and
      enough blocks of blockSize threads to cover their product. */
  function MakeKernelLaunchParameters(start: IVec3, end: IVec3, blockSize: nat): (p: LaunchParameters)
    requires blockSize > 0
    requires start.x <= end.x && start.y <= end.y && start.z <= end.z
    ensures p.numberOfCellsPerDimension == end.Minus(start)
    ensures IsCeilingQuotient(p.gridSize, TotalCells(end.Minus(start)), blockSize)
  {
    var numberOfCellsPerDimension := end.Minus(start);
    var totalNumberOfCells: nat := numberOfCellsPerDimension.x * numberOfCellsPerDimension.y * numberOfCellsPerDimension.z;
    LaunchParameters(CeilDiv(totalNumberOfCells, blockSize), numberOfCellsPerDimension)
  }

  /** A thread launched over the box from start to end, offset by start,
      either lands on a cell of the box or gets (-1, -1, -1), and it gets
      (-1, -1, -1) exactly when its index is past the last cell (a box at
      non-negative coordinates never contains the cell (-1, -1, -1)). */
  lemma LaunchThreadsLandInBox(start: IVec3, end: IVec3, blockSize: nat, block: nat, thread: nat)
    requires 0 <= start.x < end.x && start.y < end.y && start.z <= end.z
    ensures var n := end.Minus(start);
            var r := GetCoordinates(Dim3(thread, 0, 0), Dim3(block, 0, 0), Dim3(blockSize, 1, 1), n.x, n.y, n.z, start);
            (r == OutOfRange <==> thread + block * blockSize >= TotalCells(n)) &&
            (r != OutOfRange ==> start.x <= r.x < end.x && start.y <= r.y < end.y && start.z <= r.z < end.z)
  {
    var n := end.Minus(start);
    var index := ThreadIndex(Dim3(thread, 0, 0), Dim3(block, 0, 0), Dim3(blockSize, 1, 1));
    var r := GetCoordinates(Dim3(thread, 0, 0), Dim3(block, 0, 0), Dim3(blockSize, 1, 1), n.x, n.y, n.z, start);
    assert index == thread + block * blockSize;
    if index < n.x * n.y * n.z {
      assert DecomposesTo(r.Minus(start), index, n.x, n.y, n.z);
      assert r.x >= 0;
    }
  }

  /** Every cell of the box is reached by its launch: a thread whose flat
      index is the cell's (thread index % blockSize of block index / blockSize
      is one) lies in a block of the grid and receives that cell. */
  lemma LaunchReachesEveryCell(start: IVec3, end: IVec3, blockSize: nat, cell: IVec3, block: nat, thread: nat)
    requires start.x <= cell.x < end.x && start.y <= cell.y < end.y && start.z <= cell.z < end.z
    requires thread < blockSize
    requires thread + block * blockSize == CellIndex(cell.Minus(start), end.x - start.x, end.y - start.y)
    ensures block < MakeKernelLaunchParameters(start, end, blockSize).gridSize
    ensures var n := end.Minus(start);
            GetCoordinates(Dim3(thread, 0, 0), Dim3(block, 0, 0), Dim3(blockSize, 1, 1), n.x, n.y, n.z, start) == cell
  {
    var n := end.Minus(start);
    var c := cell.Minus(start);
    var index := CellIndex(c, n.x, n.y);
    assert DecomposesTo(c, index, n.x, n.y, n.z);
    DecompositionBound(c, index, n.x, n.y, n.z);
    BlockInGrid(block, thread, TotalCells(n), blockSize, MakeKernelLaunchParameters(start, end, blockSize).gridSize);
    CoordinatesOfCell(Dim3(thread, 0, 0), Dim3(block, 0, 0), Dim3(blockSize, 1, 1), n.x, n.y, n.z, start, c);
  }

  /** The launch covers the whole box: for every cell, the thread
      index % blockSize of block index / blockSize, where index is the
      cell's flat index, lies in a block of the grid and receives the cell. */
  lemma LaunchCoversBox(start: IVec3, end: IVec3, blockSize: nat, cell: IVec3)
    requires blockSize > 0
    requires start.x <= cell.x < end.x && start.y <= cell.y < end.y && start.z <= cell.z < end.z
    ensures var n := end.Minus(start);
            var index := CellIndex(cell.Minus(start), n.x, n.y);
            index / blockSize < MakeKernelLaunchParameters(start, end, blockSize).gridSize &&
            GetCoordinates(Dim3(index % blockSize, 0, 0), Dim3(index / blockSize, 0, 0), Dim3(blockSize, 1, 1),
                           n.x, n.y, n.z, start) == cell
  {
    var n := end.Minus(start);
    var index := CellIndex(cell.Minus(start), n.x, n.y);
    ThreadOfIndex(index, blockSize);
    LaunchReachesEveryCell(start, end, blockSize, cell, index / blockSize, index % blockSize);
  }

  /** Thread index % blockSize of block index / blockSize has flat index index. */
  lemma ThreadOfIndex(index: nat, blockSize: nat)
    requires blockSize > 0
    ensures index % blockSize < blockSize
    ensures ThreadIndex(Dim3(index % blockSize, 0, 0), Dim3(index / blockSize, 0, 0), Dim3(blockSize, 1, 1)) == index
  {
    DivModSplit(index, blockSize);
  }

  /** A thread whose flat index decomposes to c receives c offset by the
      direction vector. */
  lemma CoordinatesOfCell(threadIdx: Dim3, blockIdx: Dim3, blockDim: Dim3,
                          nx: nat, ny: nat, nz: nat, directionVector: IVec3, c: IVec3)
    requires nx > 0 && ny > 0
    requires DecomposesTo(c, ThreadIndex(threadIdx, blockIdx, blockDim), nx, ny, nz)
    ensures GetCoordinates(threadIdx, blockIdx, blockDim, nx, ny, nz, directionVector) == c.Plus(directionVector)
  {
    var index := ThreadIndex(threadIdx, blockIdx, blockDim);
    DecompositionBound(c, index, nx, ny, nz);
    var r := GetCoordinates(threadIdx, blockIdx, blockDim, nx, ny, nz, directionVector);
    DecompositionUnique(r.Minus(directionVector), c, index, nx, ny, nz);
  }
}
