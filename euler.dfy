/** The ideal-gas Euler equations: pointwise maps between conserved,
    primitive and extra (derived) variables, the directional point flux, the
    admissibility predicate, and writes of a conserved state into the five
    per-variable buffers of a volume at one cell index.

    Floating-point numbers are modelled as exact reals. */
module Euler {

  /** The adiabatic exponent of the gas (the GAMMA constant, 5/3). */
  const Gamma: real := 5.0 / 3.0

  /** A three-component real vector (rvec3). */
  datatype RVec3 = RVec3(x: real, y: real, z: real) {

    /** Component d (0 = x, 1 = y, 2 = z), the vector's operator[]. */
    function At(d: nat): real
      requires d < 3
    {
      if d == 0 then x else if d == 1 then y else z
    }

    function Dot(o: RVec3): real {
      x * o.x + y * o.y + z * o.z
    }

    function Scale(s: real): RVec3 {
      RVec3(s * x, s * y, s * z)
    }

    function Divide(s: real): RVec3
      requires s != 0.0
    {
      RVec3(x / s, y / s, z / s)
    }

    function Plus(o: RVec3): RVec3 {
      RVec3(x + o.x, y + o.y, z + o.z)
    }

    /** This vector with `a` added to component d only. */
    function AddAt(d: nat, a: real): (r: RVec3)
      requires d < 3
      ensures forall k :: 0 <= k < 3 ==> r.At(k) == At(k) + (if k == d then a else 0.0)
    {
      if d == 0 then RVec3(x + a, y, z)
      else if d == 1 then RVec3(x, y + a, z)
      else RVec3(x, y, z + a)
    }
  }

  /** Density, momentum and total energy of one cell. */
  datatype ConservedVariables = ConservedVariables(rho: real, m: RVec3, E: real) {
    function Plus(o: ConservedVariables): ConservedVariables {
      ConservedVariables(rho + o.rho, m.Plus(o.m), E + o.E)
    }
  }

  /** Pressure and velocity of one cell. */
  datatype ExtraVariables = ExtraVariables(p: real, u: RVec3)

  /** Density, velocity and pressure of one cell. */
  datatype PrimitiveVariables = PrimitiveVariables(rho: real, u: RVec3, p: real)

  /** A conserved state together with its extra variables. */
  datatype AllVariables = AllVariables(conserved: ConservedVariables, extra: ExtraVariables)

  /** Kinetic energy per volume, |m|^2 / (2 rho), as the code computes it. */
  function KineticEnergy(c: ConservedVariables): real
    requires c.rho != 0.0
  {
    0.5 * c.m.Dot(c.m) / c.rho
  }

  /** The ideal-gas equation of state linking a density, velocity and
      pressure to a momentum and total energy: m = rho u and
      E = p / (gamma - 1) + rho |u|^2 / 2. */
  ghost predicate StateOfGas(rho: real, u: RVec3, p: real, m: RVec3, E: real) {
    m == u.Scale(rho) && E == p / (Gamma - 1.0) + 0.5 * rho * u.Dot(u)
  }

  /** An AllVariables value whose extra part belongs to its conserved part. */
  ghost predicate Consistent(a: AllVariables) {
    a.conserved.rho != 0.0 &&
    StateOfGas(a.conserved.rho, a.extra.u, a.extra.p, a.conserved.m, a.conserved.E)
  }

  lemma ScaleAt(v: RVec3, s: real, k: nat)
    requires k < 3
    ensures v.Scale(s).At(k) == s * v.At(k)
  {
  }

  lemma ScaleCancels(rho: real, v: RVec3, w: RVec3)
    requires rho != 0.0 && v.Scale(rho) == w.Scale(rho)
    ensures v == w
  {
    assert rho * v.x == rho * w.x && rho * v.y == rho * w.y && rho * v.z == rho * w.z;
  }

  lemma DivideThenScale(rho: real, m: RVec3)
    requires rho != 0.0
    ensures m.Divide(rho).Scale(rho) == m
  {
    assert rho * (m.x / rho) == m.x;
    assert rho * (m.y / rho) == m.y;
    assert rho * (m.z / rho) == m.z;
  }

  lemma KineticEnergyOfVelocity(rho: real, u: RVec3)
    requires rho != 0.0
    ensures 0.5 * u.Scale(rho).Dot(u.Scale(rho)) / rho == 0.5 * rho * u.Dot(u)
  {
    var m := u.Scale(rho);
    calc {
      m.Dot(m);
      (rho * u.x) * (rho * u.x) + (rho * u.y) * (rho * u.y) + (rho * u.z) * (rho * u.z);
      rho * (rho * u.Dot(u));
    }
  }

  /** Velocity and pressure from a conserved state (computeExtra). */
  function ComputeExtra(c: ConservedVariables): (v: ExtraVariables)
    requires c.rho != 0.0
    ensures StateOfGas(c.rho, v.u, v.p, c.m, c.E)
  {
    var ie := c.E - KineticEnergy(c);
    var v := ExtraVariables((Gamma - 1.0) * ie, c.m.Divide(c.rho));
    DivideThenScale(c.rho, c.m);
    KineticEnergyOfVelocity(c.rho, v.u);
    v
  }

  /** Extra variables read off a primitive state (computeExtra overload). */
  function ComputeExtraOfPrimitive(w: PrimitiveVariables): ExtraVariables {
    ExtraVariables(w.p, w.u)
  }

  /** Conserved state of a primitive state (computeConserved). */
  function ComputeConserved(w: PrimitiveVariables): (c: ConservedVariables)
    ensures c.rho == w.rho && StateOfGas(w.rho, w.u, w.p, c.m, c.E)
  {
    var m := w.u.Scale(w.rho);
    var E := w.p / (Gamma - 1.0) + 0.5 * w.rho * w.u.Dot(w.u);
    ConservedVariables(w.rho, m, E)
  }

  /** Primitive state of a conserved state (computePrimitiveVariables). */
  function ComputePrimitiveVariables(c: ConservedVariables): (w: PrimitiveVariables)
    requires c.rho != 0.0
    ensures w.rho == c.rho && StateOfGas(c.rho, w.u, w.p, c.m, c.E)
  {
    var u := c.m.Divide(c.rho);
    var ie := c.E - KineticEnergy(c);
    var p := (Gamma - 1.0) * ie;
    DivideThenScale(c.rho, c.m);
    KineticEnergyOfVelocity(c.rho, u);
    PrimitiveVariables(c.rho, u, p)
  }

  /** The equation of state determines velocity and pressure uniquely from
      a nonzero density, momentum and energy. */
  lemma StateOfGasUnique(rho: real, u1: RVec3, p1: real, u2: RVec3, p2: real, m: RVec3, E: real)
    requires rho != 0.0
    requires StateOfGas(rho, u1, p1, m, E) && StateOfGas(rho, u2, p2, m, E)
    ensures u1 == u2 && p1 == p2
  {
    ScaleCancels(rho, u1, u2);
  }

  /** primitive -> conserved -> primitive is the identity for nonzero density. */
  lemma PrimitiveRoundTrip(w: PrimitiveVariables)
    requires w.rho != 0.0
    ensures ComputePrimitiveVariables(ComputeConserved(w)) == w
  {
    var c := ComputeConserved(w);
    var w' := ComputePrimitiveVariables(c);
    StateOfGasUnique(w.rho, w'.u, w'.p, w.u, w.p, c.m, c.E);
  }

  /** conserved -> primitive -> conserved is the identity for nonzero density. */
  lemma ConservedRoundTrip(c: ConservedVariables)
    requires c.rho != 0.0
    ensures ComputeConserved(ComputePrimitiveVariables(c)) == c
  {
  }

  /** The conserved and the primitive overloads of computeExtra agree. */
  lemma ExtraOverloadsAgree(w: PrimitiveVariables)
    requires w.rho != 0.0
    ensures ComputeExtra(ComputeConserved(w)) == ComputeExtraOfPrimitive(w)
  {
    var c := ComputeConserved(w);
    var v := ComputeExtra(c);
    StateOfGasUnique(w.rho, v.u, v.p, w.u, w.p, c.m, c.E);
  }

  /** computeExtra is the extra part of computePrimitiveVariables. */
  lemma ExtraOfPrimitiveVariables(c: ConservedVariables)
    requires c.rho != 0.0
    ensures ComputeExtra(c) == ComputeExtraOfPrimitive(ComputePrimitiveVariables(c))
  {
    var v := ComputeExtra(c);
    var w := ComputePrimitiveVariables(c);
    StateOfGasUnique(c.rho, v.u, v.p, w.u, w.p, c.m, c.E);
  }

  /** computeExtra gives u = m / rho and p = (gamma - 1)(E - |m|^2 / (2 rho)). */
  lemma ExtraFormula(c: ConservedVariables)
    requires c.rho != 0.0
    ensures ComputeExtra(c).u.Scale(c.rho) == c.m
    ensures ComputeExtra(c).p == (Gamma - 1.0) * (c.E - KineticEnergy(c))
  {
    var v := ComputeExtra(c);
    KineticEnergyOfVelocity(c.rho, v.u);
  }

  /** Physical admissibility (obeysConstraints): positive density and
      strictly positive pressure. The finiteness and NaN tests of the code
      always hold for reals. */
  predicate ObeysConstraints(c: ConservedVariables, v: ExtraVariables) {
    c.rho > 0.0 && v.p > 0.0
  }

  /** A conserved state is admissible exactly when its density and its
      internal energy E - |m|^2 / (2 rho) are positive. */
  lemma ObeysConstraintsOfConserved(c: ConservedVariables)
    requires c.rho != 0.0
    ensures ObeysConstraints(c, ComputeExtra(c)) <==> c.rho > 0.0 && c.E > KineticEnergy(c)
  {
    ExtraFormula(c);
  }

  /** The conserved state of a primitive state is admissible exactly when
      the primitive density and pressure are positive. */
  lemma ObeysConstraintsOfPrimitive(w: PrimitiveVariables)
    requires w.rho != 0.0
    ensures var c := ComputeConserved(w);
            ObeysConstraints(c, ComputeExtra(c)) <==> w.rho > 0.0 && w.p > 0.0
  {
    ExtraOverloadsAgree(w);
  }

  /** A gas at rest (zero momentum) has zero velocity and pressure
      (gamma - 1) E, and is admissible exactly when rho and E are positive;
      with E = 2.5 the pressure is 5/3. */
  lemma GasAtRest(rho: real, E: real)
    requires rho != 0.0
    ensures var c := ConservedVariables(rho, RVec3(0.0, 0.0, 0.0), E);
            ComputeExtra(c).u == RVec3(0.0, 0.0, 0.0) &&
            ComputeExtra(c).p == (Gamma - 1.0) * E &&
            (E == 2.5 ==> ComputeExtra(c).p == 5.0 / 3.0) &&
            (ObeysConstraints(c, ComputeExtra(c)) <==> rho > 0.0 && E > 0.0)
  {
    var c := ConservedVariables(rho, RVec3(0.0, 0.0, 0.0), E);
    var v := ComputeExtra(c);
    assert KineticEnergy(c) == 0.0 by {
      assert c.m.Dot(c.m) == 0.0;
    }
    ExtraFormula(c);
    ScaleCancels(rho, v.u, RVec3(0.0, 0.0, 0.0));
  }

  /** Pairs a conserved state with its extra variables (makeAllVariables). */
  function MakeAllVariables(rho: real, mx: real, my: real, mz: real, E: real): (a: AllVariables)
    requires rho != 0.0
    ensures a.conserved == ConservedVariables(rho, RVec3(mx, my, mz), E)
    ensures Consistent(a)
  {
    var conserved := ConservedVariables(rho, RVec3(mx, my, mz), E);
    AllVariables(conserved, ComputeExtra(conserved))
  }

  /** The directional point flux (computePointFlux<direction>):
      F.rho = m_d, F.m = u_d m + p e_d, F.E = (E + p) u_d. */
  function ComputePointFlux(direction: nat, a: AllVariables): (F: ConservedVariables)
    requires direction < 3
    ensures F.rho == a.conserved.m.At(direction)
    ensures forall k :: 0 <= k < 3 ==>
      F.m.At(k) == a.extra.u.At(direction) * a.conserved.m.At(k) + (if k == direction then a.extra.p else 0.0)
    ensures F.E == (a.conserved.E + a.extra.p) * a.extra.u.At(direction)
  {
    var m := a.conserved.m.Scale(a.extra.u.At(direction));
    ConservedVariables(a.conserved.m.At(direction), m.AddAt(direction, a.extra.p),
                       (a.conserved.E + a.extra.p) * a.extra.u.At(direction))
  }

  /** For a state whose momentum is its density times its velocity (every
      consistent state) the point flux in direction d is
      (rho u_d, rho u_d u_k + p [k = d], u_d (E + p)), the F, G and H vectors
      of the Euler system. */
  lemma PointFluxOfGasState(direction: nat, a: AllVariables)
    requires direction < 3 && a.conserved.m == a.extra.u.Scale(a.conserved.rho)
    ensures ComputePointFlux(direction, a).rho == a.conserved.rho * a.extra.u.At(direction)
    ensures forall k :: 0 <= k < 3 ==>
              ComputePointFlux(direction, a).m.At(k) ==
              a.conserved.rho * a.extra.u.At(direction) * a.extra.u.At(k) + (if k == direction then a.extra.p else 0.0)
    ensures ComputePointFlux(direction, a).E == (a.conserved.E + a.extra.p) * a.extra.u.At(direction)
  {
    ScaleAt(a.extra.u, a.conserved.rho, direction);
    forall k | 0 <= k < 3
      ensures ComputePointFlux(direction, a).m.At(k) ==
              a.conserved.rho * a.extra.u.At(direction) * a.extra.u.At(k) + (if k == direction then a.extra.p else 0.0)
    {
      MomentumFluxOfGasState(direction, k, a);
    }
  }

  lemma MomentumFluxOfGasState(d: nat, k: nat, a: AllVariables)
    requires d < 3 && k < 3 && a.conserved.m == a.extra.u.Scale(a.conserved.rho)
    ensures ComputePointFlux(d, a).m.At(k) ==
            a.conserved.rho * a.extra.u.At(d) * a.extra.u.At(k) + (if k == d then a.extra.p else 0.0)
  {
    var rho, u, m := a.conserved.rho, a.extra.u, a.conserved.m;
    assert m.x == rho * u.x && m.y == rho * u.y && m.z == rho * u.z;
    if d == 0 {
      if k == 0 {} else if k == 1 {} else {}
    } else if d == 1 {
      if k == 0 {} else if k == 1 {} else {}
    } else {
      if k == 0 {} else if k == 1 {} else {}
    }
  }

  /** The momentum flux tensor of a state with m = rho u is symmetric: the k-th
      momentum component of the flux in direction d equals the d-th
      component of the flux in direction k. */
  lemma MomentumFluxSymmetric(a: AllVariables, d: nat, k: nat)
    requires a.conserved.m == a.extra.u.Scale(a.conserved.rho) && d < 3 && k < 3
    ensures ComputePointFlux(d, a).m.At(k) == ComputePointFlux(k, a).m.At(d)
  {
    MomentumFluxOfGasState(d, k, a);
    MomentumFluxOfGasState(k, d, a);
  }

  // ---------------------------------------------------------------------
  // Per-variable buffers of a volume

  /** The five conserved-variable buffers of a volume (euler::Views). */
  datatype Views = Views(rho: array<real>, mx: array<real>, my: array<real>, mz: array<real>, E: array<real>) {

    /** All buffers have one length and no two of them are the same memory. */
    ghost predicate Valid() {
      rho.Length == mx.Length == my.Length == mz.Length == E.Length &&
      rho != mx && rho != my && rho != mz && rho != E &&
      mx != my && mx != mz && mx != E &&
      my != mz && my != E &&
      mz != E
    }

    function Length(): nat {
      rho.Length
    }
  }

  /** The four extra-variable buffers of a volume (euler::ViewsExtra). */
  datatype ViewsExtra = ViewsExtra(p: array<real>, ux: array<real>, uy: array<real>, uz: array<real>) {

    ghost predicate Valid() {
      p.Length == ux.Length == uy.Length == uz.Length &&
      p != ux && p != uy && p != uz &&
      ux != uy && ux != uz &&
      uy != uz
    }

    function Length(): nat {
      p.Length
    }
  }

  /** The conserved state stored at one index (fetchConservedVariables). */
  function FetchConservedVariables(views: Views, index: nat): ConservedVariables
    reads views.rho, views.mx, views.my, views.mz, views.E
    requires views.Valid() && index < views.Length()
  {
    ConservedVariables(views.rho[index], RVec3(views.mx[index], views.my[index], views.mz[index]), views.E[index])
  }

  /** The extra variables stored at one index (fetchExtraVariables). */
  function FetchExtraVariables(views: ViewsExtra, index: nat): ExtraVariables
    reads views.p, views.ux, views.uy, views.uz
    requires views.Valid() && index < views.Length()
  {
    ExtraVariables(views.p[index], RVec3(views.ux[index], views.uy[index], views.uz[index]))
  }

  /** Stores a conserved state at one index (setViewAt); every other cell of
      every buffer keeps its value. */
  method SetViewAt(output: Views, index: nat, input: ConservedVariables)
    requires output.Valid() && index < output.Length()
    modifies output.rho, output.mx, output.my, output.mz, output.E
    ensures FetchConservedVariables(output, index) == input
    ensures output.rho[..] == old(output.rho[..])[index := input.rho]
    ensures output.mx[..] == old(output.mx[..])[index := input.m.x]
    ensures output.my[..] == old(output.my[..])[index := input.m.y]
    ensures output.mz[..] == old(output.mz[..])[index := input.m.z]
    ensures output.E[..] == old(output.E[..])[index := input.E]
  {
    output.rho[index] := input.rho;
    output.mx[index] := input.m.x;
    output.my[index] := input.m.y;
    output.mz[index] := input.m.z;
    output.E[index] := input.E;
  }

  /** Stores extra variables at one index (setExtraViewAt); every other cell
      of every buffer keeps its value. */
  method SetExtraViewAt(output: ViewsExtra, index: nat, input: ExtraVariables)
    requires output.Valid() && index < output.Length()
    modifies output.p, output.ux, output.uy, output.uz
    ensures FetchExtraVariables(output, index) == input
    ensures output.p[..] == old(output.p[..])[index := input.p]
    ensures output.ux[..] == old(output.ux[..])[index := input.u.x]
    ensures output.uy[..] == old(output.uy[..])[index := input.u.y]
    ensures output.uz[..] == old(output.uz[..])[index := input.u.z]
  {
    output.p[index] := input.p;
    output.ux[index] := input.u.x;
    output.uy[index] := input.u.y;
    output.uz[index] := input.u.z;
  }

  /** Adds a conserved state to the one stored at one index (addToViewAt);
      every other cell of every buffer keeps its value. */
  method AddToViewAt(output: Views, index: nat, input: ConservedVariables)
    requires output.Valid() && index < output.Length()
    modifies output.rho, output.mx, output.my, output.mz, output.E
    ensures FetchConservedVariables(output, index) == old(FetchConservedVariables(output, index)).Plus(input)
    ensures output.rho[..] == old(output.rho[..])[index := old(output.rho[index]) + input.rho]
    ensures output.mx[..] == old(output.mx[..])[index := old(output.mx[index]) + input.m.x]
    ensures output.my[..] == old(output.my[..])[index := old(output.my[index]) + input.m.y]
    ensures output.mz[..] == old(output.mz[..])[index := old(output.mz[index]) + input.m.z]
    ensures output.E[..] == old(output.E[..])[index := old(output.E[index]) + input.E]
  {
    output.rho[index] := output.rho[index] + input.rho;
    output.mx[index] := output.mx[index] + input.m.x;
    output.my[index] := output.my[index] + input.m.y;
    output.mz[index] := output.mz[index] + input.m.z;
    output.E[index] := output.E[index] + input.E;
  }

  /** The conserved state at one index together with its extra variables
      (fetchAllVariables). */
  function FetchAllVariables(views: Views, index: nat): (a: AllVariables)
    reads views.rho, views.mx, views.my, views.mz, views.E
    requires views.Valid() && index < views.Length() && views.rho[index] != 0.0
    ensures a.conserved == FetchConservedVariables(views, index) && Consistent(a)
  {
    MakeAllVariables(views.rho[index], views.mx[index], views.my[index], views.mz[index], views.E[index])
  }
}
