/** A memory area on the host: a flat buffer of nx * ny * nz reals with
    in-place element-wise arithmetic, copies to and from caller buffers, and
    extraction of a box of cells. */
module Memory {
  import opened Wrappers
  import opened Arithmetic

  /** Why a compound operator refused its operand. */
  datatype MemoryError = NotOnHost | SizeMismatch

  /** The element-wise operators of a memory area. */
  datatype Op = Add | Sub | Mul | Div

  function Apply(op: Op, a: real, b: real): real
    requires op == Div ==> b != 0.0
  {
    match op
    case Add => a + b
    case Sub => a - b
    case Mul => a * b
    case Div => a / b
  }

  /** No divisor among the first n elements of b is zero, when op divides. */
  ghost predicate Divisible(op: Op, b: seq<real>, n: nat) {
    op == Div ==> forall i :: 0 <= i < n && i < |b| ==> b[i] != 0.0
  }

  /** a[i] op b[i] for every index of a. */
  function Combine(op: Op, a: seq<real>, b: seq<real>): seq<real>
    requires |a| <= |b| && Divisible(op, b, |a|)
  {
    seq(|a|, i requires 0 <= i < |a| => Apply(op, a[i], b[i]))
  }

  /** a[i] op s for every index of a. */
  function CombineScalar(op: Op, a: seq<real>, s: real): seq<real>
    requires op == Div ==> s != 0.0
  {
    seq(|a|, i requires 0 <= i < |a| => Apply(op, a[i], s))
  }

  function Constant(n: nat, s: real): seq<real> {
    seq(n, _ => s)
  }

  /** The scalar operators are the buffer operators against a constant buffer. */
  lemma ScalarIsConstantBuffer(op: Op, a: seq<real>, s: real)
    requires op == Div ==> s != 0.0
    ensures CombineScalar(op, a, s) == Combine(op, a, Constant(|a|, s))
  {
  }

  /** Subtracting a buffer undoes adding it. */
  lemma SubUndoesAdd(a: seq<real>, b: seq<real>)
    requires |a| <= |b|
    ensures Combine(Sub, Combine(Add, a, b), b) == a
  {
  }

  /** Dividing by a buffer with no zero undoes multiplying by it. */
  lemma DivUndoesMul(a: seq<real>, b: seq<real>)
    requires |a| <= |b| && Divisible(Div, b, |a|)
    ensures Combine(Div, Combine(Mul, a, b), b) == a
  {
    var c := Combine(Mul, a, b);
    forall i | 0 <= i < |a|
      ensures Combine(Div, c, b)[i] == a[i]
    {
      assert b[i] != 0.0;
      assert c[i] == a[i] * b[i];
    }
  }

  /** A memory operand of a compound operator (memory::Memory): a host
      area, whose cells the host can read, or an area on a device, of which
      only the size is known here. */
  datatype MemoryRef = Host(memory: HostMemory) | Device(size: nat) {

    predicate IsOnHost() {
      Host?
    }

    function Size(): nat {
      if Host? then memory.Size() else size
    }

    ghost predicate Valid() {
      Host? ==> memory.Valid()
    }
  }

  /** The checks of the -=, *= and /= operators: the operand must be on the
      host and have the size of this area. */
  function OperandCheck(onHost: bool, otherSize: nat, size: nat): (r: Outcome<MemoryError>)
    ensures r == Pass <==> onHost && otherSize == size
    ensures r == Fail(NotOnHost) <==> !onHost
  {
    if !onHost then Fail(NotOnHost)
    else if otherSize != size then Fail(SizeMismatch)
    else Pass
  }

  /** The check of the += operator as written: only the placement is
      checked, so an operand shorter than this area is accepted. */
  function PlusOperandCheckAsWritten(onHost: bool, otherSize: nat, size: nat): (r: Outcome<MemoryError>)
    ensures r == Pass <==> onHost
  {
    if !onHost then Fail(NotOnHost) else Pass
  }

  /** As written, += accepts a one-cell host operand for a two-cell area and
      its loop then reads the operand at index 1, past its end. */
  lemma PlusAcceptsShorterOperand()
    ensures PlusOperandCheckAsWritten(true, 1, 2) == Pass
    ensures OperandCheck(true, 1, 2) == Fail(SizeMismatch)
  {
  }

  /** A box of cells [startX, endX) x [startY, endY) x [startZ, endZ). */
  datatype Box = Box(startX: nat, endX: nat, startY: nat, endY: nat, startZ: nat, endZ: nat) {

    /** The number of x values the loops visit (none when endX <= startX). */
    function NumberOfX(): nat {
      if startX <= endX then endX - startX else 0
    }

    function NumberOfY(): nat {
      if startY <= endY then endY - startY else 0
    }

    function NumberOfZ(): nat {
      if startZ <= endZ then endZ - startZ else 0
    }

    function NumberOfCells(): nat {
      NumberOfX() * NumberOfY() * NumberOfZ()
    }

    predicate Contains(c: Cell) {
      startX <= c.x < endX && startY <= c.y < endY && startZ <= c.z < endZ
    }
  }

  datatype Cell = Cell(x: nat, y: nat, z: nat)

  /** The offset of a cell of the box in a row-major output buffer of the
      box's own extent, with x varying fastest. */
  function OutputIndex(box: Box, c: Cell): nat
    requires box.Contains(c)
  {
    MulNonnegative(box.NumberOfX(), box.NumberOfY());
    MulNonnegative(c.z - box.startZ, box.NumberOfX() * box.NumberOfY());
    MulNonnegative(c.y - box.startY, box.NumberOfX());
    (c.z - box.startZ) * (box.NumberOfX() * box.NumberOfY()) + (c.y - box.startY) * box.NumberOfX() + (c.x - box.startX)
  }

  /** The output offset as the code computes it: numberOfY, not numberOfX,
      is the stride of y. */
  function OutputIndexAsWritten(box: Box, c: Cell): nat
    requires box.Contains(c)
  {
    MulNonnegative(box.NumberOfX(), box.NumberOfY());
    MulNonnegative(c.z - box.startZ, box.NumberOfX() * box.NumberOfY());
    MulNonnegative(c.y - box.startY, box.NumberOfY());
    (c.z - box.startZ) * (box.NumberOfX() * box.NumberOfY()) + (c.y - box.startY) * box.NumberOfY() + (c.x - box.startX)
  }

  /** For a box three cells wide and two deep, the code writes cells (2, 0, 0)
      and (0, 1, 0) to the same output offset; for a box one cell wide and
      two deep it writes cell (0, 1, 0) past the end of a two-cell output. */
  lemma OutputIndexAsWrittenCollides()
    ensures var box := Box(0, 3, 0, 2, 0, 1);
            OutputIndexAsWritten(box, Cell(2, 0, 0)) == OutputIndexAsWritten(box, Cell(0, 1, 0))
    ensures var box := Box(0, 1, 0, 2, 0, 1);
            OutputIndexAsWritten(box, Cell(0, 1, 0)) >= box.NumberOfCells()
  {
  }

  /** When the box is as wide as it is deep the code's offset is the row-major one. */
  lemma OutputIndexAsWrittenSquare(box: Box, c: Cell)
    requires box.Contains(c) && box.NumberOfX() == box.NumberOfY()
    ensures OutputIndexAsWritten(box, c) == OutputIndex(box, c)
  {
  }

  /** Distinct cells of the box go to distinct output offsets, all below the
      number of cells of the box. */
  lemma OutputIndexInjective(box: Box, c1: Cell, c2: Cell)
    requires box.Contains(c1) && box.Contains(c2)
    ensures OutputIndex(box, c1) < box.NumberOfCells()
    ensures OutputIndex(box, c1) == OutputIndex(box, c2) ==> c1 == c2
  {
    var nx, ny, nz := box.NumberOfX(), box.NumberOfY(), box.NumberOfZ();
    var row1 := (c1.y - box.startY) * nx + (c1.x - box.startX);
    var row2 := (c2.y - box.startY) * nx + (c2.x - box.startX);
    MixedRadixBound(c1.y - box.startY, c1.x - box.startX, ny, nx);
    MixedRadixBound(c2.y - box.startY, c2.x - box.startX, ny, nx);
    MixedRadixBound(c1.z - box.startZ, row1, nz, nx * ny);
    assert nx * ny * nz == nz * (nx * ny);
    if OutputIndex(box, c1) == OutputIndex(box, c2) {
      MixedRadixUnique(c1.z - box.startZ, row1, c2.z - box.startZ, row2, nx * ny);
      MixedRadixUnique(c1.y - box.startY, c1.x - box.startX, c2.y - box.startY, c2.x - box.startX, nx);
    }
  }

  lemma OutputIndexInjectiveAll(box: Box)
    ensures forall c1, c2 :: box.Contains(c1) && box.Contains(c2) && OutputIndex(box, c1) == OutputIndex(box, c2) ==> c1 == c2
    ensures forall c :: box.Contains(c) ==> OutputIndex(box, c) < box.NumberOfCells()
  {
    forall c1, c2 | box.Contains(c1) && box.Contains(c2)
      ensures OutputIndex(box, c1) < box.NumberOfCells()
      ensures OutputIndex(box, c1) == OutputIndex(box, c2) ==> c1 == c2
    {
      OutputIndexInjective(box, c1, c2);
    }
    forall c | box.Contains(c)
      ensures OutputIndex(box, c) < box.NumberOfCells()
    {
      OutputIndexInjective(box, c, c);
    }
  }

  /** A host memory area (memory::HostMemory) of nx * ny * nz cells. */
  class HostMemory {
    const nx: nat
    const ny: nat
    const nz: nat
    const data: array<real>

    ghost predicate Valid() {
      data.Length == nx * ny * nz
    }

    function Size(): nat {
      nx * ny * nz
    }

    /** The flat index of cell (x, y, z), x varying fastest. */
    function Index(c: Cell): nat {
      c.z * nx * ny + c.y * nx + c.x
    }

    /** A new area holds nx * ny * nz cells, every one of them 42. */
    constructor (nx: nat, ny: nat, nz: nat)
      ensures Valid() && fresh(data)
      ensures this.nx == nx && this.ny == ny && this.nz == nz
      ensures data[..] == Constant(nx * ny * nz, 42.0)
    {
      this.nx, this.ny, this.nz := nx, ny, nz;
      data := new real[nx * ny * nz](_ => 42.0);
    }

    /** Copies every cell into the first Size() entries of buffer; the rest
      of buffer and the area itself are unchanged. */
    method CopyToHost(buffer: array<real>)
      requires Valid() && buffer.Length >= Size()
      modifies buffer
      ensures buffer[..Size()] == data[..] == old(data[..])
      ensures buffer[Size()..] == old(buffer[Size()..])
    {
      var i := 0;
      while i < data.Length
        invariant 0 <= i <= data.Length
        invariant data[..] == old(data[..])
        invariant forall j :: 0 <= j < i ==> buffer[j] == data[j]
        invariant forall j :: i <= j < buffer.Length ==> buffer[j] == old(buffer[j])
      {
        buffer[i] := data[i];
        i := i + 1;
      }
      assert buffer[..Size()] == data[..];
    }

    /** Overwrites the first min(buffer.Length, Size()) cells with the
      beginning of buffer and leaves the other cells unchanged. */
    method CopyFromHost(buffer: array<real>)
      requires Valid()
      modifies data
      ensures var n := if buffer.Length < Size() then buffer.Length else Size();
              data[..] == old(buffer[..n]) + old(data[n..])
    {
      var n := if buffer.Length < data.Length then buffer.Length else data.Length;
      var i := 0;
      while i < n
        invariant 0 <= i <= n
        invariant forall j :: 0 <= j < i ==> data[j] == old(buffer[j])
        invariant forall j :: i <= j < data.Length ==> data[j] == old(data[j])
        invariant forall j :: i <= j < buffer.Length ==> buffer[j] == old(buffer[j])
      {
        data[i] := buffer[i];
        i := i + 1;
      }
      assert data[..] == old(buffer[..n]) + old(data[n..]);
    }

    /** data[i] := data[i] op src[i] for every cell; src may be data itself. */
    method CombineInPlace(op: Op, src: array<real>)
      requires Valid() && src.Length >= data.Length && Divisible(op, src[..], data.Length)
      modifies data
      ensures data[..] == Combine(op, old(data[..]), old(src[..]))
    {
      var i := 0;
      while i < data.Length
        invariant 0 <= i <= data.Length
        invariant forall j :: 0 <= j < i ==> data[j] == Apply(op, old(data[j]), old(src[j]))
        invariant forall j :: i <= j < data.Length ==> data[j] == old(data[j])
        invariant forall j :: i <= j < src.Length ==> src[j] == old(src[j])
      {
        assert op == Div ==> src[i] == old(src[..])[i];
        data[i] := Apply(op, data[i], src[i]);
        i := i + 1;
      }
    }

    /** data[i] := data[i] op s for every cell. */
    method CombineScalarInPlace(op: Op, s: real)
      requires Valid() && (op == Div ==> s != 0.0)
      modifies data
      ensures data[..] == CombineScalar(op, old(data[..]), s)
    {
      var i := 0;
      while i < data.Length
        invariant 0 <= i <= data.Length
        invariant forall j :: 0 <= j < i ==> data[j] == Apply(op, old(data[j]), s)
        invariant forall j :: i <= j < data.Length ==> data[j] == old(data[j])
      {
        data[i] := Apply(op, data[i], s);
        i := i + 1;
      }
    }

    /** The checks and update shared by -=, *= and /=. */
    method CombineChecked(op: Op, other: MemoryRef) returns (status: Outcome<MemoryError>)
      requires Valid() && other.Valid()
      requires other.Host? && other.Size() == Size() ==> Divisible(op, other.memory.data[..], Size())
      modifies data
      ensures status == OperandCheck(other.IsOnHost(), other.Size(), Size())
      ensures status == Pass ==> data[..] == Combine(op, old(data[..]), old(other.memory.data[..]))
      ensures status != Pass ==> data[..] == old(data[..])
    {
      status := OperandCheck(other.IsOnHost(), other.Size(), Size());
      if status == Pass {
        CombineInPlace(op, other.memory.data);
      }
    }

    /** this += other, with the size check the other operators make. */
    method AddAssign(other: MemoryRef) returns (status: Outcome<MemoryError>)
      requires Valid() && other.Valid()
      modifies data
      ensures status == OperandCheck(other.IsOnHost(), other.Size(), Size())
      ensures status == Pass ==> data[..] == Combine(Add, old(data[..]), old(other.memory.data[..]))
      ensures status != Pass ==> data[..] == old(data[..])
    {
      status := CombineChecked(Add, other);
    }

    /** this += other as the code is written: a host operand of any size is
      accepted, and the loop reads it at every index of this area (only
      defined when the operand is at least as long). */
    method AddAssignAsWritten(other: MemoryRef) returns (status: Outcome<MemoryError>)
      requires Valid() && other.Valid()
      requires other.Host? ==> other.Size() >= Size()
      modifies data
      ensures status == PlusOperandCheckAsWritten(other.IsOnHost(), other.Size(), Size())
      ensures status == Pass ==> data[..] == Combine(Add, old(data[..]), old(other.memory.data[..]))
      ensures status != Pass ==> data[..] == old(data[..])
    {
      status := PlusOperandCheckAsWritten(other.IsOnHost(), other.Size(), Size());
      if status == Pass {
        CombineInPlace(Add, other.memory.data);
      }
    }

    /** this -= other. */
    method SubAssign(other: MemoryRef) returns (status: Outcome<MemoryError>)
      requires Valid() && other.Valid()
      modifies data
      ensures status == OperandCheck(other.IsOnHost(), other.Size(), Size())
      ensures status == Pass ==> data[..] == Combine(Sub, old(data[..]), old(other.memory.data[..]))
      ensures status != Pass ==> data[..] == old(data[..])
    {
      status := CombineChecked(Sub, other);
    }

    /** this *= other. */
    method MulAssign(other: MemoryRef) returns (status: Outcome<MemoryError>)
      requires Valid() && other.Valid()
      modifies data
      ensures status == OperandCheck(other.IsOnHost(), other.Size(), Size())
      ensures status == Pass ==> data[..] == Combine(Mul, old(data[..]), old(other.memory.data[..]))
      ensures status != Pass ==> data[..] == old(data[..])
    {
      status := CombineChecked(Mul, other);
    }

    /** this /= other; no cell of a matching host operand may be zero. */
    method DivAssign(other: MemoryRef) returns (status: Outcome<MemoryError>)
      requires Valid() && other.Valid()
      requires other.Host? && other.Size() == Size() ==> Divisible(Div, other.memory.data[..], Size())
      modifies data
      ensures status == OperandCheck(other.IsOnHost(), other.Size(), Size())
      ensures status == Pass ==> data[..] == Combine(Div, old(data[..]), old(other.memory.data[..]))
      ensures status != Pass ==> data[..] == old(data[..])
    {
      status := CombineChecked(Div, other);
    }

    /** this += scalar. */
    method AddAssignScalar(scalar: real)
      requires Valid()
      modifies data
      ensures data[..] == CombineScalar(Add, old(data[..]), scalar)
    {
      CombineScalarInPlace(Add, scalar);
    }

    /** this -= scalar. */
    method SubAssignScalar(scalar: real)
      requires Valid()
      modifies data
      ensures data[..] == CombineScalar(Sub, old(data[..]), scalar)
    {
      CombineScalarInPlace(Sub, scalar);
    }

    /** this *= scalar. */
    method MulAssignScalar(scalar: real)
      requires Valid()
      modifies data
      ensures data[..] == CombineScalar(Mul, old(data[..]), scalar)
    {
      CombineScalarInPlace(Mul, scalar);
    }

    /** this /= scalar, for a nonzero scalar. */
    method DivAssignScalar(scalar: real)
      requires Valid() && scalar != 0.0
      modifies data
      ensures data[..] == CombineScalar(Div, old(data[..]), scalar)
    {
      CombineScalarInPlace(Div, scalar);
    }

    /** Sets every cell to zero. */
    method MakeZero()
      requires Valid()
      modifies data
      ensures data[..] == Constant(Size(), 0.0)
    {
      var i := 0;
      while i < data.Length
        invariant 0 <= i <= data.Length
        invariant forall j :: 0 <= j < i ==> data[j] == 0.0
      {
        data[i] := 0.0;
        i := i + 1;
      }
    }

    /** Copies the cells of a box of this area into output, the cell at
      (x, y, z) going to offset OutputIndex(box, (x, y, z)); output beyond
      the box's number of cells and this area are unchanged. */
    method CopyInternalCells(box: Box, output: array<real>)
      requires Valid() && output != data
      requires box.startX < box.endX && box.startY < box.endY && box.startZ < box.endZ ==>
               box.endX <= nx && box.endY <= ny && box.endZ <= nz
      requires output.Length >= box.NumberOfCells()
      modifies output
      ensures forall c :: box.Contains(c) ==> OutputIndex(box, c) < output.Length && Index(c) < data.Length &&
                                              output[OutputIndex(box, c)] == data[Index(c)]
      ensures output[box.NumberOfCells()..] == old(output[box.NumberOfCells()..])
    {
      OutputIndexInjectiveAll(box);
      IndexInRangeAll(box);
      var z := box.startZ;
      while z < box.endZ
        invariant box.startZ <= z && (box.startZ < box.endZ ==> z <= box.endZ)
        invariant forall c :: box.Contains(c) && c.z < z ==> output[OutputIndex(box, c)] == data[Index(c)]
        invariant forall k :: box.NumberOfCells() <= k < output.Length ==> output[k] == old(output[k])
      {
        var y := box.startY;
        while y < box.endY
          invariant box.startY <= y && (box.startY < box.endY ==> y <= box.endY)
          invariant forall c :: box.Contains(c) && (c.z < z || (c.z == z && c.y < y)) ==>
                                output[OutputIndex(box, c)] == data[Index(c)]
          invariant forall k :: box.NumberOfCells() <= k < output.Length ==> output[k] == old(output[k])
        {
          var x := box.startX;
          while x < box.endX
            invariant box.startX <= x && (box.startX < box.endX ==> x <= box.endX)
            invariant forall c :: box.Contains(c) && (c.z < z || (c.z == z && (c.y < y || (c.y == y && c.x < x)))) ==>
                                  output[OutputIndex(box, c)] == data[Index(c)]
            invariant forall k :: box.NumberOfCells() <= k < output.Length ==> output[k] == old(output[k])
          {
            var cell := Cell(x, y, z);
            assert box.Contains(cell);
            output[OutputIndex(box, cell)] := data[Index(cell)];
            x := x + 1;
          }
          y := y + 1;
        }
        z := z + 1;
      }
    }

    /** Every cell of a box inside the area has its flat index inside the buffer. */
    lemma IndexInRangeAll(box: Box)
      requires Valid()
      requires box.startX < box.endX && box.startY < box.endY && box.startZ < box.endZ ==>
               box.endX <= nx && box.endY <= ny && box.endZ <= nz
      ensures forall c :: box.Contains(c) ==> Index(c) < data.Length
    {
      forall c | box.Contains(c)
        ensures Index(c) < data.Length
      {
        FlatIndexBound(c.x, c.y, c.z, nx, ny, nz);
      }
    }
  }
}
