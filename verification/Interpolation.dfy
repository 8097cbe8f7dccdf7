/** Table interpolation: the shared-weights variant, the direct bilinear variant, and the two mixture sums on top. */
module Interpolation {
  import opened RealAlgebra

  type Grid = g: seq<real> | |g| >= 2 && Increasing(g) witness [0.0, 1.0]

  predicate Increasing(g: seq<real>) {
    forall i, j | 0 <= i < j < |g| :: g[i] < g[j]
  }

  /** A table row per x, a column per y. */
  predicate Fits(data: seq<seq<real>>, gx: Grid, gy: Grid) {
    |data| == |gx| && forall i | 0 <= i < |data| :: |data[i]| == |gy|
  }

  function Last(g: Grid): real {
    g[|g| - 1]
  }

  predicate InRange(g: Grid, x: real) {
    g[0] <= x <= Last(g)
  }

  /** numpy's left `searchsorted`: the first index whose entry is at least x. */
  function SearchSorted(g: seq<real>, x: real): (i: nat)
    ensures i <= |g|
    ensures forall j | 0 <= j < i :: g[j] < x
    ensures i < |g| ==> x <= g[i]
  {
    if g == [] || x <= g[0] then 0 else 1 + SearchSorted(g[1..], x)
  }

  lemma SearchSortedIs(g: seq<real>, x: real, i: nat)
    requires Increasing(g) && i <= |g| && (i > 0 ==> g[i - 1] < x) && (i < |g| ==> x <= g[i])
    ensures SearchSorted(g, x) == i
  {
    assert forall j | 0 <= j < i :: g[j] <= g[i - 1];
  }

  /** A cell of the grid and the weight of its upper end. */
  datatype Spot = Spot(cell: nat, weight: real)

  /** `get_interp_weights_jit` along one axis: clamped to the grid. */
  function Locate(g: Grid, x: real): (s: Spot)
    ensures s.cell + 1 < |g|
  {
    if x <= g[0] then Spot(0, 0.0)
    else if x >= Last(g) then Spot(|g| - 2, 1.0)
    else
      var i := SearchSorted(g, x) - 1;
      Spot(i, (x - g[i]) / (g[i + 1] - g[i]))
  }

  /** `bilinear_interp_jit` along one axis: the cell is clamped, the weight is not. */
  function LocateDirect(g: Grid, x: real): (s: Spot)
    ensures s.cell + 1 < |g|
  {
    var ix := if x <= g[0] then 1 else if x >= Last(g) then |g| - 1
              else if SearchSorted(g, x) == 0 then 1 else SearchSorted(g, x);
    Spot(ix - 1, if g[ix] - g[ix - 1] == 0.0 then 0.0 else (x - g[ix - 1]) / (g[ix] - g[ix - 1]))
  }

  /** `get_mixture_enthalpy_fast` along one axis: the query is clamped first. */
  function LocateClamped(g: Grid, x: real): (s: Spot)
    ensures s.cell + 1 < |g|
  {
    var c := if x < g[0] then g[0] else if x > Last(g) then Last(g) else x;
    var k := SearchSorted(g, c);
    var ix := if k == 0 then 1 else if k >= |g| then |g| - 1 else k;
    Spot(ix - 1, if g[ix] != g[ix - 1] then (c - g[ix - 1]) / (g[ix] - g[ix - 1]) else 0.0)
  }

  predicate Covers(data: seq<seq<real>>, sx: Spot, sy: Spot) {
    sx.cell + 1 < |data| && sy.cell + 1 < |data[sx.cell]| && sy.cell + 1 < |data[sx.cell + 1]|
  }

  predicate AllCover(tables: seq<seq<seq<real>>>, sx: Spot, sy: Spot) {
    forall k | 0 <= k < |tables| :: Covers(tables[k], sx, sy)
  }

  /** `interp_from_weights_jit`: apply weights to a table. */
  function Blend(data: seq<seq<real>>, sx: Spot, sy: Spot): real
    requires Covers(data, sx, sy)
  {
    var (i, j, wx, wy) := (sx.cell, sy.cell, sx.weight, sy.weight);
    (1.0 - wx) * (1.0 - wy) * data[i][j] + wx * (1.0 - wy) * data[i + 1][j]
    + (1.0 - wx) * wy * data[i][j + 1] + wx * wy * data[i + 1][j + 1]
  }

  function ByWeights(data: seq<seq<real>>, gx: Grid, gy: Grid, x: real, y: real): real
    requires Fits(data, gx, gy)
  {
    Blend(data, Locate(gx, x), Locate(gy, y))
  }

  /** `bilinear_interp_jit`. */
  function Bilinear(data: seq<seq<real>>, gx: Grid, gy: Grid, x: real, y: real): real
    requires Fits(data, gx, gy)
  {
    var sx, sy := LocateDirect(gx, x), LocateDirect(gy, y);
    var (i, j, wx, wy) := (sx.cell, sy.cell, sx.weight, sy.weight);
    data[i][j] * (1.0 - wx) * (1.0 - wy) + data[i + 1][j] * wx * (1.0 - wy)
    + data[i][j + 1] * (1.0 - wx) * wy + data[i + 1][j + 1] * wx * wy
  }

  // ----- one axis

  lemma RatioBounds(n: real, d: real)
    requires d > 0.0
    ensures 0.0 <= n <= d ==> 0.0 <= n / d <= 1.0
    ensures n > 0.0 ==> n / d > 0.0
    ensures n < 0.0 ==> n / d < 0.0
    ensures n > d ==> n / d > 1.0
  {
  }

  /** The cell contains the query. */
  lemma LocateMeans(g: Grid, x: real)
    requires InRange(g, x)
    ensures var s := Locate(g, x);
      && g[s.cell] <= x <= g[s.cell + 1] && 0.0 <= s.weight <= 1.0
      && (x > g[0] ==> g[s.cell] < x && s.weight > 0.0)
  {
    var s := Locate(g, x);
    var n, d := x - g[s.cell], g[s.cell + 1] - g[s.cell];
    assert g[s.cell] < g[s.cell + 1];
    RatioBounds(n, d);
  }

  /** The spot is in the query's cell and its weight says where; a query right of the grid's start is read from
      the cell whose left end is strictly below it. */
  predicate Located(g: Grid, x: real, s: Spot) {
    && s.cell + 1 < |g| && g[s.cell] <= x <= g[s.cell + 1] && 0.0 <= s.weight <= 1.0
    && (x > g[0] ==> g[s.cell] < x && s.weight > 0.0)
    && s.weight * (g[s.cell + 1] - g[s.cell]) == x - g[s.cell]
  }

  lemma LocateIsLocated(g: Grid, x: real)
    requires InRange(g, x)
    ensures Located(g, x, Locate(g, x))
  {
    LocateMeans(g, x);
    var s := Locate(g, x);
    assert g[s.cell] < g[s.cell + 1];
    Quotient(x - g[s.cell], g[s.cell + 1] - g[s.cell]);
  }

  /** Clamping the query first or the cell and weight later is the same, for every query. */
  lemma ClampedIsLocate(g: Grid, x: real)
    ensures LocateClamped(g, x) == Locate(g, x)
  {
    var n := |g|;
    if x <= g[0] {
      SearchSortedIs(g, g[0], 0);
      assert g[0] < g[1] && 0.0 / (g[1] - g[0]) == 0.0;
    } else if x >= Last(g) {
      SearchSortedIs(g, Last(g), n - 1);
      FullWeight(g[n - 1] - g[n - 2]);
    } else {
      var k := SearchSorted(g, x);
      assert 0 < k < n && g[k - 1] < g[k];
    }
  }

  lemma FullWeight(d: real)
    requires d != 0.0
    ensures d / d == 1.0
  {
  }

  /** The direct variant uses the same cell always, and the same weight exactly on the grid's range; outside it
      extrapolates. */
  lemma DirectIsLocateIff(g: Grid, x: real)
    ensures LocateDirect(g, x).cell == Locate(g, x).cell
    ensures LocateDirect(g, x).weight == Locate(g, x).weight <==> InRange(g, x)
  {
    var n := |g|;
    if x <= g[0] {
      assert g[0] < g[1];
      RatioBounds(x - g[0], g[1] - g[0]);
    } else if x >= Last(g) {
      assert g[n - 2] < g[n - 1];
      RatioBounds(x - g[n - 2], g[n - 1] - g[n - 2]);
      FullWeight(g[n - 1] - g[n - 2]);
    } else {
      var k := SearchSorted(g, x);
      assert 0 < k < n && g[k - 1] < g[k];
    }
  }

  // ----- two axes

  /** A table that is 1 on one row (or one column) and 0 elsewhere. */
  function RowTable(gx: Grid, gy: Grid, row: nat): (d: seq<seq<real>>)
    ensures Fits(d, gx, gy)
    ensures forall i, j | 0 <= i < |gx| && 0 <= j < |gy| :: d[i][j] == if i == row then 1.0 else 0.0
  {
    seq(|gx|, i => seq(|gy|, j => if i == row then 1.0 else 0.0))
  }

  function ColumnTable(gx: Grid, gy: Grid, column: nat): (d: seq<seq<real>>)
    ensures Fits(d, gx, gy)
    ensures forall i, j | 0 <= i < |gx| && 0 <= j < |gy| :: d[i][j] == if j == column then 1.0 else 0.0
  {
    seq(|gx|, i => seq(|gy|, j => if j == column then 1.0 else 0.0))
  }

  lemma BilinearIsBlend(data: seq<seq<real>>, gx: Grid, gy: Grid, x: real, y: real)
    requires Fits(data, gx, gy)
    ensures Bilinear(data, gx, gy, x, y) == Blend(data, LocateDirect(gx, x), LocateDirect(gy, y))
  {
    var sx, sy := LocateDirect(gx, x), LocateDirect(gy, y);
    var (i, j, wx, wy) := (sx.cell, sy.cell, sx.weight, sy.weight);
    Reorder(data[i][j], 1.0 - wx, 1.0 - wy);
    Reorder(data[i + 1][j], wx, 1.0 - wy);
    Reorder(data[i][j + 1], 1.0 - wx, wy);
    Reorder(data[i + 1][j + 1], wx, wy);
  }

  lemma Reorder(a: real, b: real, c: real)
    ensures a * b * c == b * c * a
  {
  }

  lemma BlendOfRow(gx: Grid, gy: Grid, sx: Spot, sy: Spot)
    requires sx.cell + 1 < |gx| && sy.cell + 1 < |gy|
    ensures Blend(RowTable(gx, gy, sx.cell + 1), sx, sy) == sx.weight
    ensures Blend(ColumnTable(gx, gy, sy.cell + 1), sx, sy) == sy.weight
  {
    var wx, wy := sx.weight, sy.weight;
    assert wx * (1.0 - wy) + wx * wy == wx;
    assert (1.0 - wx) * wy + wx * wy == wy;
  }

  /** Shared weights and direct interpolation agree on all tables exactly for the queries inside the grid. */
  lemma VariantsAgreeIff(gx: Grid, gy: Grid, x: real, y: real)
    ensures (forall data | Fits(data, gx, gy) :: ByWeights(data, gx, gy, x, y) == Bilinear(data, gx, gy, x, y))
            <==> InRange(gx, x) && InRange(gy, y)
  {
    DirectIsLocateIff(gx, x);
    DirectIsLocateIff(gy, y);
    var sx, sy, dx, dy := Locate(gx, x), Locate(gy, y), LocateDirect(gx, x), LocateDirect(gy, y);
    if InRange(gx, x) && InRange(gy, y) {
      forall data | Fits(data, gx, gy)
        ensures ByWeights(data, gx, gy, x, y) == Bilinear(data, gx, gy, x, y)
      {
        BilinearIsBlend(data, gx, gy, x, y);
        assert sx == dx && sy == dy;
      }
    } else {
      BlendOfRow(gx, gy, sx, sy);
      BlendOfRow(gx, gy, dx, dy);
      var row, column := RowTable(gx, gy, sx.cell + 1), ColumnTable(gx, gy, sy.cell + 1);
      BilinearIsBlend(row, gx, gy, x, y);
      BilinearIsBlend(column, gx, gy, x, y);
      assert ByWeights(row, gx, gy, x, y) != Bilinear(row, gx, gy, x, y)
          || ByWeights(column, gx, gy, x, y) != Bilinear(column, gx, gy, x, y);
    }
  }

  lemma MixBetween(a: real, b: real, w: real, lo: real, hi: real)
    requires lo <= a <= hi && lo <= b <= hi && 0.0 <= w <= 1.0
    ensures lo <= Mix(w, a, b) <= hi
  {
    if a <= b {
      MeanBetween(w, a, b);
    } else {
      MeanBetween(1.0 - w, b, a);
      assert Mix(w, a, b) == Mix(1.0 - w, b, a);
    }
  }

  /** Along y first: the value of row i at the query's y. */
  function RowValue(data: seq<seq<real>>, i: nat, sy: Spot): real
    requires i < |data| && sy.cell + 1 < |data[i]|
  {
    Mix(sy.weight, data[i][sy.cell], data[i][sy.cell + 1])
  }

  lemma BlendByRows(data: seq<seq<real>>, sx: Spot, sy: Spot)
    requires Covers(data, sx, sy)
    ensures Blend(data, sx, sy)
            == Mix(sx.weight, RowValue(data, sx.cell, sy), RowValue(data, sx.cell + 1, sy))
  {
    var (i, j, wx, wy) := (sx.cell, sy.cell, sx.weight, sy.weight);
    DistributeMix(1.0 - wx, wy, data[i][j], data[i][j + 1]);
    DistributeMix(wx, wy, data[i + 1][j], data[i + 1][j + 1]);
  }

  /** For every query, inside the grid or not, the value lies between the four corners of its cell. */
  lemma BetweenCorners(data: seq<seq<real>>, gx: Grid, gy: Grid, x: real, y: real, lo: real, hi: real)
    requires Fits(data, gx, gy)
    requires var i, j := Locate(gx, x).cell, Locate(gy, y).cell;
      && lo <= data[i][j] <= hi && lo <= data[i + 1][j] <= hi
      && lo <= data[i][j + 1] <= hi && lo <= data[i + 1][j + 1] <= hi
    ensures lo <= ByWeights(data, gx, gy, x, y) <= hi
  {
    WeightIsFraction(gx, x);
    WeightIsFraction(gy, y);
    BlendBetween(data, Locate(gx, x), Locate(gy, y), lo, hi);
  }

  lemma BlendBetween(data: seq<seq<real>>, sx: Spot, sy: Spot, lo: real, hi: real)
    requires Covers(data, sx, sy) && 0.0 <= sx.weight <= 1.0 && 0.0 <= sy.weight <= 1.0
    requires lo <= data[sx.cell][sy.cell] <= hi && lo <= data[sx.cell + 1][sy.cell] <= hi
    requires lo <= data[sx.cell][sy.cell + 1] <= hi && lo <= data[sx.cell + 1][sy.cell + 1] <= hi
    ensures lo <= Blend(data, sx, sy) <= hi
  {
    MixBetween(data[sx.cell][sy.cell], data[sx.cell][sy.cell + 1], sy.weight, lo, hi);
    MixBetween(data[sx.cell + 1][sy.cell], data[sx.cell + 1][sy.cell + 1], sy.weight, lo, hi);
    BlendByRows(data, sx, sy);
    MixBetween(RowValue(data, sx.cell, sy), RowValue(data, sx.cell + 1, sy), sx.weight, lo, hi);
  }

  lemma WeightIsFraction(g: Grid, x: real)
    ensures 0.0 <= Locate(g, x).weight <= 1.0
  {
    if InRange(g, x) {
      LocateMeans(g, x);
    }
  }

  /** At a node the weight is 0 or 1, towards that node. */
  lemma LocateNode(g: Grid, i: nat)
    requires i < |g|
    ensures var s := Locate(g, g[i]); (s.cell == i && s.weight == 0.0) || (s.cell + 1 == i && s.weight == 1.0)
  {
    if 0 < i < |g| - 1 {
      assert g[0] < g[i] < Last(g);
      SearchSortedIs(g, g[i], i);
      FullWeight(g[i] - g[i - 1]);
    }
  }

  /** The interpolation is exact at the nodes of the grid. */
  lemma ExactAtNodes(data: seq<seq<real>>, gx: Grid, gy: Grid, i: nat, j: nat)
    requires Fits(data, gx, gy) && i < |gx| && j < |gy|
    ensures ByWeights(data, gx, gy, gx[i], gy[j]) == data[i][j]
  {
    LocateNode(gx, i);
    LocateNode(gy, j);
  }

  // ----- mixtures

  /** `get_mix_enthalpy_fast_jit`: skips fractions up to 1e-9. */
  method MixByWeights(tables: seq<seq<seq<real>>>, fractions: seq<real>, sx: Spot, sy: Spot) returns (h: real)
    requires |tables| == |fractions| && AllCover(tables, sx, sy)
    ensures h == MixSum(tables, fractions, sx, sy, Above(1e-9))
  {
    h := 0.0;
    for i := 0 to |fractions|
      invariant h == MixSum(tables[..i], fractions[..i], sx, sy, Above(1e-9))
    {
      MixSumStep(tables, fractions, sx, sy, Above(1e-9), i);
      if fractions[i] > 1e-9 {
        h := h + Product(fractions[i], Blend(tables[i], sx, sy));
      }
    }
    assert tables[..|tables|] == tables && fractions[..|tables|] == fractions;
  }

  /** `get_mixture_enthalpy_fast`: locates by clamping, skips fractions below 1e-12. */
  method MixFast(tables: seq<seq<seq<real>>>, gx: Grid, gy: Grid, fractions: seq<real>, x: real, y: real) returns (h: real)
    requires |tables| == |fractions| && forall k | 0 <= k < |tables| :: Fits(tables[k], gx, gy)
    ensures AllCover(tables, LocateClamped(gx, x), LocateClamped(gy, y))
    ensures h == MixSum(tables, fractions, LocateClamped(gx, x), LocateClamped(gy, y), AtLeast(1e-12))
  {
    h := 0.0;
    var sx, sy := LocateClamped(gx, x), LocateClamped(gy, y);
    for i := 0 to |fractions|
      invariant h == MixSum(tables[..i], fractions[..i], sx, sy, AtLeast(1e-12))
    {
      MixSumStep(tables, fractions, sx, sy, AtLeast(1e-12), i);
      if !(fractions[i] < 1e-12) {
        h := h + Product(fractions[i], Blend(tables[i], sx, sy));
      }
    }
    assert tables[..|tables|] == tables && fractions[..|tables|] == fractions;
  }

  lemma MixSumStep(tables: seq<seq<seq<real>>>, fractions: seq<real>, sx: Spot, sy: Spot, cut: Cut, i: nat)
    requires i < |tables| == |fractions| && AllCover(tables, sx, sy)
    ensures MixSum(tables[..i + 1], fractions[..i + 1], sx, sy, cut)
            == MixSum(tables[..i], fractions[..i], sx, sy, cut) + Contribution(tables[i], fractions[i], sx, sy, cut)
  {
    assert tables[..i + 1][..i] == tables[..i] && fractions[..i + 1][..i] == fractions[..i];
  }

  /** What one species adds. */
  function Contribution(table: seq<seq<real>>, w: real, sx: Spot, sy: Spot, cut: Cut): real
    requires Covers(table, sx, sy)
  {
    if Counts(cut, w) then Product(w, Blend(table, sx, sy)) else 0.0
  }

  datatype Cut = Above(limit: real) | AtLeast(limit: real)

  predicate Counts(cut: Cut, w: real) {
    match cut
    case Above(limit) => w > limit
    case AtLeast(limit) => w >= limit
  }

  function MixSum(tables: seq<seq<seq<real>>>, fractions: seq<real>, sx: Spot, sy: Spot, cut: Cut): real
    requires |tables| == |fractions| && AllCover(tables, sx, sy)
  {
    if tables == [] then 0.0
    else
      var n := |tables| - 1;
      assert Covers(tables[n], sx, sy);
      MixSum(tables[..n], fractions[..n], sx, sy, cut) + Contribution(tables[n], fractions[n], sx, sy, cut)
  }

  lemma {:induction false} SameCuts(tables: seq<seq<seq<real>>>, fractions: seq<real>, sx: Spot, sy: Spot)
    requires |tables| == |fractions| && AllCover(tables, sx, sy)
    requires forall k | 0 <= k < |fractions| :: Counts(Above(1e-9), fractions[k]) == Counts(AtLeast(1e-12), fractions[k])
    ensures MixSum(tables, fractions, sx, sy, Above(1e-9)) == MixSum(tables, fractions, sx, sy, AtLeast(1e-12))
  {
    if tables != [] {
      SameCuts(tables[..|tables| - 1], fractions[..|tables| - 1], sx, sy);
    }
  }

  function ConstantTable(gx: Grid, gy: Grid, c: real): (d: seq<seq<real>>)
    ensures Fits(d, gx, gy)
    ensures forall i, j | 0 <= i < |gx| && 0 <= j < |gy| :: d[i][j] == c
  {
    seq(|gx|, i => seq(|gy|, j => c))
  }

  /** All tables zero except table k, which is constantly 1. */
  function OneHot(gx: Grid, gy: Grid, n: nat, k: nat): (r: seq<seq<seq<real>>>)
    ensures |r| == n && forall i | 0 <= i < n :: r[i] == ConstantTable(gx, gy, if i == k then 1.0 else 0.0)
  {
    seq(n, i => ConstantTable(gx, gy, if i == k then 1.0 else 0.0))
  }

  lemma BlendConstant(data: seq<seq<real>>, sx: Spot, sy: Spot, c: real)
    requires Covers(data, sx, sy)
    requires data[sx.cell][sy.cell] == data[sx.cell + 1][sy.cell] == data[sx.cell][sy.cell + 1] == data[sx.cell + 1][sy.cell + 1] == c
    ensures Blend(data, sx, sy) == c
  {
    BlendByRows(data, sx, sy);
    assert RowValue(data, sx.cell, sy) == c && RowValue(data, sx.cell + 1, sy) == c;
  }

  lemma {:induction false} MixOneHot(tables: seq<seq<seq<real>>>, fractions: seq<real>, sx: Spot, sy: Spot, cut: Cut, k: nat)
    requires |tables| == |fractions| && AllCover(tables, sx, sy)
    requires forall i | 0 <= i < |tables| :: Covers(tables[i], sx, sy) && Blend(tables[i], sx, sy) == if i == k then 1.0 else 0.0
    ensures MixSum(tables, fractions, sx, sy, cut) == if k < |tables| && Counts(cut, fractions[k]) then fractions[k] else 0.0
  {
    if tables != [] {
      MixOneHot(tables[..|tables| - 1], fractions[..|tables| - 1], sx, sy, cut, k);
    }
  }

  /** The fractions that count. */
  function CountedSum(fractions: seq<real>, cut: Cut): real {
    if fractions == [] then 0.0
    else
      var n := |fractions| - 1;
      CountedSum(fractions[..n], cut) + (if Counts(cut, fractions[n]) then fractions[n] else 0.0)
  }

  lemma OneMoreShare(h: real, sum: real, w: real)
    ensures Product(h, sum + w) == Product(h, sum) + Product(w, h) && Product(0.0, h) == 0.0
  {
  }

  /** A mixture of gases with the same enthalpy has that enthalpy, in proportion to the fractions that count. */
  lemma {:induction false} MixOfEquals(tables: seq<seq<seq<real>>>, fractions: seq<real>, sx: Spot, sy: Spot, cut: Cut, h: real)
    requires |tables| == |fractions| && AllCover(tables, sx, sy)
    requires forall k | 0 <= k < |tables| :: Covers(tables[k], sx, sy) && Blend(tables[k], sx, sy) == h
    ensures MixSum(tables, fractions, sx, sy, cut) == Product(h, CountedSum(fractions, cut))
  {
    if tables != [] {
      var n := |tables| - 1;
      MixOfEquals(tables[..n], fractions[..n], sx, sy, cut, h);
      assert Contribution(tables[n], fractions[n], sx, sy, cut) == if Counts(cut, fractions[n]) then Product(fractions[n], h) else 0.0;
      OneMoreShare(h, CountedSum(fractions[..n], cut), if Counts(cut, fractions[n]) then fractions[n] else 0.0);
    }
  }

  /** The two mixture enthalpies agree on all tables, for every query, exactly if no mass fraction lies in the band
      from 1e-12 to 1e-9 that only one of them counts. */
  lemma MixturesAgreeIff(gx: Grid, gy: Grid, fractions: seq<real>, x: real, y: real)
    ensures (forall tables: seq<seq<seq<real>>> | |tables| == |fractions| && (forall k | 0 <= k < |tables| :: Fits(tables[k], gx, gy)) ::
               MixSum(tables, fractions, LocateClamped(gx, x), LocateClamped(gy, y), AtLeast(1e-12))
               == MixSum(tables, fractions, Locate(gx, x), Locate(gy, y), Above(1e-9)))
            <==> (forall k | 0 <= k < |fractions| :: !(1e-12 <= fractions[k] <= 1e-9))
  {
    ClampedIsLocate(gx, x);
    ClampedIsLocate(gy, y);
    var sx, sy := Locate(gx, x), Locate(gy, y);
    if forall k | 0 <= k < |fractions| :: !(1e-12 <= fractions[k] <= 1e-9) {
      forall tables: seq<seq<seq<real>>> | |tables| == |fractions| && (forall k | 0 <= k < |tables| :: Fits(tables[k], gx, gy))
        ensures MixSum(tables, fractions, sx, sy, AtLeast(1e-12)) == MixSum(tables, fractions, sx, sy, Above(1e-9))
      {
        SameCuts(tables, fractions, sx, sy);
      }
    } else {
      var k :| 0 <= k < |fractions| && 1e-12 <= fractions[k] <= 1e-9;
      CutsDiffer(gx, gy, fractions, sx, sy, k);
    }
  }

  lemma CutsDiffer(gx: Grid, gy: Grid, fractions: seq<real>, sx: Spot, sy: Spot, k: nat)
    requires k < |fractions| && 1e-12 <= fractions[k] <= 1e-9 && sx.cell + 1 < |gx| && sy.cell + 1 < |gy|
    ensures var tables := OneHot(gx, gy, |fractions|, k);
      && AllCover(tables, sx, sy)
      && MixSum(tables, fractions, sx, sy, AtLeast(1e-12)) != MixSum(tables, fractions, sx, sy, Above(1e-9))
  {
    var tables := OneHot(gx, gy, |fractions|, k);
    forall i | 0 <= i < |tables|
      ensures Covers(tables[i], sx, sy) && Blend(tables[i], sx, sy) == if i == k then 1.0 else 0.0
    {
      BlendConstant(tables[i], sx, sy, if i == k then 1.0 else 0.0);
    }
    MixOneHot(tables, fractions, sx, sy, AtLeast(1e-12), k);
    MixOneHot(tables, fractions, sx, sy, Above(1e-9), k);
  }
}
