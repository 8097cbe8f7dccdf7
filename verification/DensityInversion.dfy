/** Inverting the density table by bisection (`lookup_pressure_from_density`). */
module DensityInversion {
  import opened Interpolation
  import opened RealAlgebra

  const R_H2: real := 4124.2  // specific gas constant of hydrogen

  // ----- one axis

  function Mean(a: seq<real>, s: Spot): real
    requires s.cell + 1 < |a|
  {
    Mix(s.weight, a[s.cell], a[s.cell + 1])
  }

  /** Piecewise linear interpolation of a along the grid. */
  function Interp(g: Grid, a: seq<real>, x: real): real
    requires |a| == |g|
  {
    Mean(a, Locate(g, x))
  }

  lemma SameCellIncreases(g: Grid, a: seq<real>, x: real, y: real, s: Spot, t: Spot)
    requires |a| == |g| && Increasing(a) && x < y && Located(g, x, s) && Located(g, y, t) && s.cell == t.cell
    ensures Mean(a, s) < Mean(a, t)
  {
    var d := g[s.cell + 1] - g[s.cell];
    CancelLt(s.weight, t.weight, d, x - g[s.cell], y - g[s.cell]);
    MeanGrowsWithWeight(s.weight, t.weight, a[s.cell], a[s.cell + 1]);
  }

  lemma LaterCellIncreases(g: Grid, a: seq<real>, x: real, y: real, s: Spot, t: Spot)
    requires |a| == |g| && Increasing(a) && g[0] <= x < y && Located(g, x, s) && Located(g, y, t) && s.cell != t.cell
    ensures Mean(a, s) < Mean(a, t)
  {
    MeanBetween(s.weight, a[s.cell], a[s.cell + 1]);
    MeanBetween(t.weight, a[t.cell], a[t.cell + 1]);
    assert a[t.cell] < a[t.cell + 1] && t.weight > 0.0;
    assert Mean(a, s) <= a[s.cell + 1] <= a[t.cell] && a[t.cell] < Mean(a, t);
  }

  /** Interpolating an increasing table is strictly increasing over the whole range, across cells too. */
  lemma InterpIsIncreasing(g: Grid, a: seq<real>, x: real, y: real)
    requires |a| == |g| && Increasing(a) && InRange(g, x) && InRange(g, y) && x < y
    ensures Interp(g, a, x) < Interp(g, a, y)
  {
    LocateIsLocated(g, x);
    LocateIsLocated(g, y);
    var s, t := Locate(g, x), Locate(g, y);
    if s.cell == t.cell {
      SameCellIncreases(g, a, x, y, s, t);
    } else {
      LaterCellIncreases(g, a, x, y, s, t);
    }
  }

  lemma InterpAtEnds(g: Grid, a: seq<real>)
    requires |a| == |g|
    ensures Interp(g, a, g[0]) == a[0] && Interp(g, a, Last(g)) == a[|a| - 1]
  {
    LocateNode(g, 0);
    LocateNode(g, |g| - 1);
  }

  /** A query on the border of two cells may be read from either. */
  lemma ReadFromEither(g: Grid, a: seq<real>, x: real, s: Spot, c: Spot)
    requires |a| == |g| && Located(g, x, s)
    requires c.cell + 1 < |g| && g[c.cell] <= x <= g[c.cell + 1] && c.weight * (g[c.cell + 1] - g[c.cell]) == x - g[c.cell]
    ensures Mean(a, s) == Mean(a, c)
  {
    assert s.cell < c.cell ==> g[s.cell + 1] <= g[c.cell];
    if s.cell == c.cell {
      SameFactor(s.weight, c.weight, g[c.cell + 1] - g[c.cell], x - g[c.cell]);
    } else {
      assert s.cell + 1 == c.cell && x == g[c.cell];
      SameFactor(c.weight, 0.0, g[c.cell + 1] - g[c.cell], 0.0);
      SameFactor(s.weight, 1.0, g[s.cell + 1] - g[s.cell], g[s.cell + 1] - g[s.cell]);
    }
  }

  /** The cell in which a value between the ends is reached, and where in it. */
  lemma InverseSpot(g: Grid, a: seq<real>, v: real) returns (c: Spot, x: real)
    requires |a| == |g| && Increasing(a) && a[0] < v <= a[|a| - 1]
    ensures c.cell + 1 < |g| && g[c.cell] <= x <= g[c.cell + 1] && InRange(g, x)
    ensures c.weight * (g[c.cell + 1] - g[c.cell]) == x - g[c.cell] && Mean(a, c) == v
  {
    var i := SearchSorted(a, v) - 1;
    assert g[i] < g[i + 1] && a[i] < v <= a[i + 1];
    var w;
    w, x := OnLine(a[i], a[i + 1], g[i], g[i + 1], v);
    assert g[0] <= g[i] && g[i + 1] <= Last(g);
    c := Spot(i, w);
  }

  /** Every value between the ends is reached: the piecewise linear inverse. */
  lemma InverseExists(g: Grid, a: seq<real>, v: real) returns (x: real)
    requires |a| == |g| && Increasing(a) && a[0] < v <= a[|a| - 1]
    ensures InRange(g, x) && Interp(g, a, x) == v
  {
    var c;
    c, x := InverseSpot(g, a, v);
    LocateIsLocated(g, x);
    ReadValue(g, a, x, Locate(g, x), c, v);
  }

  lemma ReadValue(g: Grid, a: seq<real>, x: real, s: Spot, c: Spot, v: real)
    requires |a| == |g| && Located(g, x, s) && c.cell + 1 < |g| && g[c.cell] <= x <= g[c.cell + 1]
    requires c.weight * (g[c.cell + 1] - g[c.cell]) == x - g[c.cell] && Mean(a, c) == v
    ensures Mean(a, s) == v
  {
    ReadFromEither(g, a, x, s, c);
  }

  /** The point of a segment that has a given height. */
  lemma OnLine(a: real, b: real, g: real, h: real, v: real) returns (w: real, x: real)
    requires a < v <= b && g < h
    ensures g <= x <= h && w * (h - g) == x - g && Mix(w, a, b) == v
  {
    w := ShareOf(v - a, b - a);
    OnSegment(w, a, b, v);
    var dg := h - g;
    Fraction(w, dg);
    x := g + w * dg;
  }

  lemma ShareOf(part: real, whole: real) returns (w: real)
    requires 0.0 < part <= whole
    ensures 0.0 <= w <= 1.0 && w * whole == part
  {
    w := part / whole;
    RatioBounds(part, whole);
    Quotient(part, whole);
  }

  lemma OnSegment(w: real, a: real, b: real, v: real)
    requires w * (b - a) == v - a
    ensures Mix(w, a, b) == v
  {
    MixAsStep(w, a, b);
  }

  // ----- the density table

  /** `lookup` of the density inside the table's bounds. */
  function Density(data: seq<seq<real>>, gp: Grid, gt: Grid, p: real, t: real): real
    requires Fits(data, gp, gt)
  {
    ByWeights(data, gp, gt, p, t)
  }

  /** At every temperature of the table, density strictly increases with pressure. */
  predicate IncreasingTable(data: seq<seq<real>>, gp: Grid, gt: Grid) {
    && Fits(data, gp, gt)
    && (forall i, k, j | 0 <= i < k < |gp| && 0 <= j < |gt| :: data[i][j] < data[k][j])
  }

  /** The table read at one temperature: a row of densities over the pressure grid. */
  function AtTemperature(data: seq<seq<real>>, gp: Grid, gt: Grid, t: real): (a: seq<real>)
    requires Fits(data, gp, gt)
    ensures |a| == |gp| && forall i | 0 <= i < |a| :: a[i] == RowValue(data, i, Locate(gt, t))
  {
    seq(|gp|, i requires 0 <= i < |gp| => RowValue(data, i, Locate(gt, t)))
  }

  lemma RowsIncrease(data: seq<seq<real>>, gp: Grid, gt: Grid, t: real)
    requires IncreasingTable(data, gp, gt)
    ensures Increasing(AtTemperature(data, gp, gt, t))
  {
    var s, a := Locate(gt, t), AtTemperature(data, gp, gt, t);
    WeightIsFraction(gt, t);
    forall i, k | 0 <= i < k < |a|
      ensures a[i] < a[k]
    {
      MeanGrows(s.weight, data[i][s.cell], data[i][s.cell + 1], data[k][s.cell], data[k][s.cell + 1]);
    }
  }

  lemma MeanOfRows(data: seq<seq<real>>, a: seq<real>, sx: Spot, sy: Spot)
    requires Covers(data, sx, sy) && |a| == |data|
    requires a[sx.cell] == RowValue(data, sx.cell, sy) && a[sx.cell + 1] == RowValue(data, sx.cell + 1, sy)
    ensures Blend(data, sx, sy) == Mean(a, sx)
  {
    BlendByRows(data, sx, sy);
  }

  lemma DensityIsInterp(data: seq<seq<real>>, gp: Grid, gt: Grid, p: real, t: real)
    requires Fits(data, gp, gt)
    ensures Density(data, gp, gt, p, t) == Interp(gp, AtTemperature(data, gp, gt, t), p)
  {
    MeanOfRows(data, AtTemperature(data, gp, gt, t), Locate(gp, p), Locate(gt, t));
  }

  /** Interpolated density strictly increases with pressure, at every temperature. */
  lemma DensityIsIncreasing(data: seq<seq<real>>, gp: Grid, gt: Grid, p: real, q: real, t: real)
    requires IncreasingTable(data, gp, gt) && InRange(gp, p) && InRange(gp, q) && p < q
    ensures Density(data, gp, gt, p, t) < Density(data, gp, gt, q, t)
  {
    DensityIsInterp(data, gp, gt, p, t);
    DensityIsInterp(data, gp, gt, q, t);
    RowsIncrease(data, gp, gt, t);
    InterpIsIncreasing(gp, AtTemperature(data, gp, gt, t), p, q);
  }

  ghost predicate IsInverse(data: seq<seq<real>>, gp: Grid, gt: Grid, rho: real, t: real, p: real)
    requires Fits(data, gp, gt)
  {
    InRange(gp, p) && Density(data, gp, gt, p, t) == rho
  }

  /** A density strictly above the lower end and below the upper end has exactly one pressure. */
  lemma UniqueInverse(data: seq<seq<real>>, gp: Grid, gt: Grid, rho: real, t: real) returns (p: real)
    requires IncreasingTable(data, gp, gt)
    requires Density(data, gp, gt, gp[0], t) < rho < Density(data, gp, gt, Last(gp), t)
    ensures IsInverse(data, gp, gt, rho, t, p)
    ensures forall q :: IsInverse(data, gp, gt, rho, t, q) ==> q == p
  {
    var a := AtTemperature(data, gp, gt, t);
    DensityIsInterp(data, gp, gt, gp[0], t);
    DensityIsInterp(data, gp, gt, Last(gp), t);
    RowsIncrease(data, gp, gt, t);
    assert Interp(gp, a, gp[0]) == a[0] && Interp(gp, a, Last(gp)) == a[|a| - 1] by { InterpAtEnds(gp, a); }
    p := InverseExists(gp, a, rho);
    DensityIsInterp(data, gp, gt, p, t);
    forall q | IsInverse(data, gp, gt, rho, t, q)
      ensures q == p
    {
      if p < q {
        DensityIsIncreasing(data, gp, gt, p, q, t);
      } else if q < p {
        DensityIsIncreasing(data, gp, gt, q, p, t);
      }
    }
  }

  function Halvings(k: nat): real
    ensures Halvings(k) > 0.0
  {
    if k == 0 then 1.0 else 2.0 * Halvings(k - 1)
  }

  /** A strictly increasing quantity on a range. */
  ghost predicate IncreasingOn(d: real -> real, lo: real, hi: real) {
    forall p, q | lo <= p < q <= hi :: d(p) < d(q)
  }

  /** After k halvings the bracket encloses the wanted value and is 2^k times narrower than the range. */
  predicate Bracket(d: real -> real, rho: real, from: real, to: real, lo: real, hi: real, k: nat) {
    && from <= lo < hi <= to && (hi - lo) * Halvings(k) == to - from
    && d(lo) < rho < d(hi)
  }

  lemma BracketHoldsInverse(d: real -> real, rho: real, from: real, to: real, lo: real, hi: real, k: nat, star: real)
    requires IncreasingOn(d, from, to) && Bracket(d, rho, from, to, lo, hi, k)
    requires from <= star <= to && d(star) == rho
    ensures lo < star < hi
  {
    assert star < lo ==> d(star) < d(lo);
    assert hi < star ==> d(hi) < d(star);
  }

  lemma HalveBracket(d: real -> real, rho: real, from: real, to: real, lo: real, hi: real, k: nat)
    requires Bracket(d, rho, from, to, lo, hi, k)
    ensures var mid := 0.5 * (lo + hi);
      && (d(mid) < rho ==> Bracket(d, rho, from, to, mid, hi, k + 1))
      && (d(mid) > rho ==> Bracket(d, rho, from, to, lo, mid, k + 1))
  {
    HalfWidth(hi - lo, Halvings(k), to - from);
  }

  /** The density is within the tolerance, or the pressure within the final half-width of the exact one. */
  predicate IsAccurate(density: real, rho: real, tolRel: real, p: real, star: real, range: real, maxIter: nat) {
    Distance(density, rho) < tolRel * rho || Distance(p, star) <= range / Halvings(maxIter + 1)
  }

  /** The loop of the inversion, for any increasing quantity that takes the value rho at `star`. The tolerance is
      relative to rho itself, so a negative target is "met" by the very first midpoint. */
  method Bisect(d: real -> real, rho: real, from: real, to: real, tolRel: real, maxIter: nat, ghost star: real) returns (p: real)
    requires IncreasingOn(d, from, to) && from <= star <= to && d(star) == rho && rho != 0.0 && tolRel > 0.0
    requires d(from) < rho < d(to) && from < to
    ensures from <= p <= to
    ensures rho > 0.0 ==> IsAccurate(d(p), rho, tolRel, p, star, to - from, maxIter)
    ensures rho < 0.0 ==> p == 0.5 * (from + to)
  {
    var lo, hi := from, to;
    for k := 0 to maxIter
      invariant Bracket(d, rho, from, to, lo, hi, k)
      invariant rho < 0.0 ==> lo == from && hi == to
    {
      var mid := 0.5 * (lo + hi);
      var dMid := d(mid);
      ToleranceTest(dMid, rho, tolRel);
      if Distance(dMid, rho) / rho < tolRel {
        return mid;
      }
      HalveBracket(d, rho, from, to, lo, hi, k);
      if dMid < rho {
        lo := mid;
      } else {
        hi := mid;
      }
    }
    p := 0.5 * (lo + hi);
    BracketHoldsInverse(d, rho, from, to, lo, hi, maxIter, star);
    MidpointError(lo, hi, star, maxIter, to - from);
  }

  lemma MidpointError(lo: real, hi: real, star: real, k: nat, total: real)
    requires lo < star < hi && (hi - lo) * Halvings(k) == total
    ensures Distance(0.5 * (lo + hi), star) <= total / Halvings(k + 1)
  {
    HalfWidth(hi - lo, Halvings(k), total);
  }

  /** The inversion strictly inside the table. */
  method InvertInside(data: seq<seq<real>>, gp: Grid, gt: Grid, rho: real, t: real, tolRel: real, maxIter: nat)
    returns (p: real, ghost star: real)
    requires IncreasingTable(data, gp, gt) && tolRel > 0.0 && rho != 0.0
    requires Density(data, gp, gt, gp[0], t) < rho < Density(data, gp, gt, Last(gp), t)
    ensures InRange(gp, p) && Inverts(data, gp, gt, rho, t, star)
    ensures rho < 0.0 ==> p == 0.5 * (gp[0] + Last(gp))
    ensures rho > 0.0 ==> IsAccurate(Density(data, gp, gt, p, t), rho, tolRel, p, star, Last(gp) - gp[0], maxIter)
  {
    star := UniqueInverse(data, gp, gt, rho, t);
    p := BisectCurve(q => DensityOrZero(data, gp, gt, q, t), data, gp, gt, rho, t, tolRel, maxIter, star);
  }

  method BisectCurve(d: real -> real, ghost data: seq<seq<real>>, gp: Grid, ghost gt: Grid, rho: real, ghost t: real,
                     tolRel: real, maxIter: nat, ghost star: real) returns (p: real)
    requires IncreasingTable(data, gp, gt) && tolRel > 0.0 && rho != 0.0 && IsCurve(data, gp, gt, t, d)
    requires Density(data, gp, gt, gp[0], t) < rho < Density(data, gp, gt, Last(gp), t) && IsInverse(data, gp, gt, rho, t, star)
    ensures InRange(gp, p) && (rho < 0.0 ==> p == 0.5 * (gp[0] + Last(gp)))
    ensures rho > 0.0 ==> IsAccurate(Density(data, gp, gt, p, t), rho, tolRel, p, star, Last(gp) - gp[0], maxIter)
  {
    DensityRises(data, gp, gt, t, d);
    IsItsCurve(data, gp, gt, rho, t, d, star);
    p := Bisect(d, rho, gp[0], Last(gp), tolRel, maxIter, star);
    assert CurveAt(data, gp, gt, t, d, p);
  }

  /** d is the table's density at one temperature. */
  ghost predicate IsCurve(data: seq<seq<real>>, gp: Grid, gt: Grid, t: real, d: real -> real) {
    forall q :: CurveAt(data, gp, gt, t, d, q)
  }

  predicate CurveAt(data: seq<seq<real>>, gp: Grid, gt: Grid, t: real, d: real -> real, q: real) {
    d(q) == DensityOrZero(data, gp, gt, q, t)
  }

  lemma IsItsCurve(data: seq<seq<real>>, gp: Grid, gt: Grid, rho: real, t: real, d: real -> real, star: real)
    requires Fits(data, gp, gt) && IsCurve(data, gp, gt, t, d)
    requires Density(data, gp, gt, gp[0], t) < rho < Density(data, gp, gt, Last(gp), t) && IsInverse(data, gp, gt, rho, t, star)
    ensures d(gp[0]) < rho < d(Last(gp)) && d(star) == rho
  {
    assert CurveAt(data, gp, gt, t, d, gp[0]) && CurveAt(data, gp, gt, t, d, Last(gp)) && CurveAt(data, gp, gt, t, d, star);
  }

  lemma DensityRises(data: seq<seq<real>>, gp: Grid, gt: Grid, t: real, d: real -> real)
    requires IncreasingTable(data, gp, gt) && IsCurve(data, gp, gt, t, d)
    ensures IncreasingOn(d, gp[0], Last(gp))
  {
    forall a, b | gp[0] <= a < b <= Last(gp)
      ensures d(a) < d(b)
    {
      DensityIsIncreasing(data, gp, gt, a, b, t);
      assert CurveAt(data, gp, gt, t, d, a) && CurveAt(data, gp, gt, t, d, b);
    }
  }

  /** `star` is the one pressure in the table's range that has this density. */
  ghost predicate Inverts(data: seq<seq<real>>, gp: Grid, gt: Grid, rho: real, t: real, star: real)
    requires Fits(data, gp, gt)
  {
    IsInverse(data, gp, gt, rho, t, star) && forall q :: IsInverse(data, gp, gt, rho, t, q) ==> q == star
  }

  /** Bisection. Below the table it returns the lowest pressure, above it the ideal-gas pressure; in between, for a
      positive target, the result meets the relative density tolerance, or lies within the final half-width of the
      one pressure that has this density. */
  method LookupPressureFromDensity(data: seq<seq<real>>, gp: Grid, gt: Grid, rho: real, t: real, tolRel: real, maxIter: nat)
    returns (p: real, ghost star: real)
    requires IncreasingTable(data, gp, gt) && InRange(gt, t) && tolRel > 0.0 && rho != 0.0
    ensures rho <= Density(data, gp, gt, gp[0], t) ==> p == gp[0]
    ensures rho >= Density(data, gp, gt, Last(gp), t) && rho > Density(data, gp, gt, gp[0], t) ==> p == rho * R_H2 * t
    ensures Density(data, gp, gt, gp[0], t) < rho < Density(data, gp, gt, Last(gp), t) ==>
      && InRange(gp, p) && Inverts(data, gp, gt, rho, t, star)
      && (rho < 0.0 ==> p == 0.5 * (gp[0] + Last(gp)))
      && (rho > 0.0 ==> IsAccurate(Density(data, gp, gt, p, t), rho, tolRel, p, star, Last(gp) - gp[0], maxIter))
  {
    if rho <= Density(data, gp, gt, gp[0], t) {
      return gp[0], 0.0;
    }
    if rho >= Density(data, gp, gt, Last(gp), t) {
      return rho * R_H2 * t, 0.0;
    }
    p, star := InvertInside(data, gp, gt, rho, t, tolRel, maxIter);
  }

  function DensityOrZero(data: seq<seq<real>>, gp: Grid, gt: Grid, p: real, t: real): real {
    if Fits(data, gp, gt) then Density(data, gp, gt, p, t) else 0.0
  }

  lemma ToleranceTest(v: real, rho: real, tol: real)
    requires rho != 0.0 && tol > 0.0
    ensures rho > 0.0 && Distance(v, rho) / rho < tol ==> Distance(v, rho) < tol * rho
    ensures v == rho ==> Distance(v, rho) / rho < tol
    ensures rho < 0.0 ==> Distance(v, rho) / rho < tol
  {
    var q := Distance(v, rho) / rho;
    Quotient(Distance(v, rho), rho);
    if rho > 0.0 && q < tol {
      ScaleLt(rho, q, tol);
    }
    if rho < 0.0 && q > 0.0 {
      ScaleLt(q, rho, 0.0);
    }
  }

  lemma HalfWidth(width: real, h: real, total: real)
    requires h > 0.0 && width * h == total
    ensures (0.5 * width) * (2.0 * h) == total && 0.5 * width == total / (2.0 * h)
  {
    assert (0.5 * width) * (2.0 * h) == width * h;
  }
}
