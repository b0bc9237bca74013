/** Facts about multiplication, division and remainder on natural numbers
    that the index computations of the other modules rest on. */
module Arithmetic {

  lemma MulNonnegative(a: int, b: int)
    requires a >= 0 && b >= 0
    ensures a * b >= 0
  {
  }

  lemma MulMonotone(a: nat, b: nat, k: nat)
    requires a <= b
    ensures a * k <= b * k
  {
  }

  /** q * k + r < n * k when q < n and r < k. */
  lemma MixedRadixBound(q: nat, r: nat, n: nat, k: nat)
    requires q < n && r < k
    ensures q * k + r < n * k
  {
    assert q * k + r < (q + 1) * k <= n * k;
  }

  /** The flat index z nx ny + y nx + x of a point (x, y, z) of an
      nx * ny * nz grid is below nx * ny * nz. */
  lemma FlatIndexBound(x: nat, y: nat, z: nat, nx: nat, ny: nat, nz: nat)
    requires x < nx && y < ny && z < nz
    ensures z * nx * ny + y * nx + x < nx * ny * nz
  {
    MixedRadixBound(y, x, ny, nx);
    assert ny * nx == nx * ny;
    MixedRadixBound(z, y * nx + x, nz, nx * ny);
    assert z * nx * ny == z * (nx * ny);
    assert nz * (nx * ny) == nx * ny * nz;
  }

  /** q1 * k + r1 == q2 * k + r2 with both remainders below k fixes q and r. */
  lemma MixedRadixUnique(q1: nat, r1: nat, q2: nat, r2: nat, k: nat)
    requires r1 < k && r2 < k && q1 * k + r1 == q2 * k + r2
    ensures q1 == q2 && r1 == r2
  {
    MixedRadixBound(q1, r1, q1 + 1, k);
    MixedRadixBound(q2, r2, q2 + 1, k);
    if q1 < q2 {
      MulMonotone(q1 + 1, q2, k);
      assert false;
    } else if q2 < q1 {
      MulMonotone(q2 + 1, q1, k);
      assert false;
    }
  }

  /** Two points of an nx * ny * nz grid with the same flat index
      (z ny + y) nx + x are the same point. */
  lemma MixedRadix3Unique(x1: nat, y1: nat, z1: nat, x2: nat, y2: nat, z2: nat, nx: nat, ny: nat)
    requires x1 < nx && x2 < nx && y1 < ny && y2 < ny
    requires (z1 * ny + y1) * nx + x1 == (z2 * ny + y2) * nx + x2
    ensures x1 == x2 && y1 == y2 && z1 == z2
  {
    var q1, q2 := z1 * ny + y1, z2 * ny + y2;
    assert q1 == q2 && x1 == x2 by {
      MixedRadixUnique(q1, x1, q2, x2, nx);
    }
    MixedRadixUnique(z1, y1, z2, y2, ny);
  }

  lemma DivModSplit(a: nat, b: nat)
    requires b > 0
    ensures a == (a / b) * b + a % b && 0 <= a % b < b
  {
  }

  /** The quotient and remainder are the unique q, r with a == q * d + r and
      r < d. */
  lemma DivUnique(a: nat, d: nat, q: nat, r: nat)
    requires d > 0 && r < d && a == q * d + r
    ensures a / d == q && a % d == r
  {
    DivModSplit(a, d);
    MixedRadixUnique(q, r, a / d, a % d, d);
  }

  /** Dividing by b and then by c is dividing by b * c. */
  lemma DivDiv(a: nat, b: nat, c: nat)
    requires b > 0 && c > 0
    ensures a / b / c == a / (b * c)
  {
    var q1, r1 := a / b, a % b;
    DivModSplit(a, b);
    var q2, r2 := q1 / c, q1 % c;
    DivModSplit(q1, c);
    MixedRadixBound(r2, r1, c, b);
    assert a == q2 * (b * c) + (r2 * b + r1) by {
      calc {
        a;
        q1 * b + r1;
        (q2 * c + r2) * b + r1;
        { Distribute(q2 * c, r2, b); }
        q2 * c * b + r2 * b + r1;
        { MulRearrange(q2, c, b); }
        q2 * (b * c) + (r2 * b + r1);
      }
    }
    DivUnique(a, b * c, q2, r2 * b + r1);
  }

  lemma Distribute(x: int, y: int, k: int)
    ensures (x + y) * k == x * k + y * k
  {
  }

  lemma MulRearrange(x: int, y: int, z: int)
    ensures x * y * z == x * (z * y)
  {
  }
}
