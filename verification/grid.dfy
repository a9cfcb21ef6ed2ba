/** The evenly spaced xi grid over an element used by get_values_in_element
    and set_values_in_element, and the layout of its value array. */
module Grid {
  /** Every xi direction has at least one grid cell. */
  predicate ValidGrid(numberInXi: seq<int>) {
    forall i | 0 <= i < |numberInXi| :: numberInXi[i] > 0
  }

  /** Number of grid points: one more than the cell count in each direction,
      multiplied over the directions. */
  function PointCount(numberInXi: seq<int>): (count: nat)
    requires ValidGrid(numberInXi)
    ensures count >= 1
  {
    if |numberInXi| == 0 then 1
    else (numberInXi[0] + 1) * PointCount(numberInXi[1..])
  }

  /** idx names a grid point: one index per direction, from 0 up to the
      cell count. */
  predicate InGrid(numberInXi: seq<int>, idx: seq<int>) {
    && |idx| == |numberInXi|
    && forall i | 0 <= i < |idx| :: 0 <= idx[i] <= numberInXi[i]
  }

  /** Multiplying by a non-negative factor keeps order. */
  lemma MulMonotone(b: int, x: int, y: int)
    requires b >= 0
    ensures x <= y ==> b * x <= b * y
  {
    if x <= y {
      assert b * y == b * x + b * (y - x);
    }
  }

  lemma DivModIdentity(x: int, b: int)
    requires b > 0
    ensures x == b * (x / b) + x % b
  {
  }

  lemma Distribute(b: int, x: int, y: int)
    ensures b * (x + y) == b * x + b * y
  {
  }

  /** a + b * q < b * p for digits a < b and q < p. */
  lemma MixedRadixBound(a: int, b: int, q: int, p: int)
    requires 0 <= a < b && 0 <= q < p
    ensures a + b * q < b * p
  {
    MulMonotone(b, q, p - 1);
  }

  /** x / b < p when x < b * p. */
  lemma QuotientBound(x: int, b: int, p: int)
    requires 0 <= x < b * p && b > 0
    ensures x / b < p
  {
    MulMonotone(b, p, x / b);
  }

  /** The last digit and the rest of p in base b, for p < b * n. */
  lemma DigitSplit(p: int, b: int, n: int)
    requires 0 <= p < b * n && b > 0
    ensures 0 <= p % b < b && 0 <= p / b < n
  {
    QuotientBound(p, b, n);
  }

  /** Division by b undoes the composition a + b * q. */
  lemma DivModUnique(a: int, b: int, q: int)
    requires 0 <= a < b && 0 <= q
    ensures (a + b * q) / b == q && (a + b * q) % b == a
  {
    var x := a + b * q;
    var d, m := x / b, x % b;
    assert x == b * d + m;
    assert b * (q - d) == m - a;
    MulMonotone(b, 1, q - d);
    MulMonotone(b, q - d, -1);
  }

  /** Position of a grid point in the point order, which cycles fastest
      through xi1, then xi2, and so on. */
  function PointIndex(numberInXi: seq<int>, idx: seq<int>): (p: nat)
    requires ValidGrid(numberInXi) && InGrid(numberInXi, idx)
    ensures p < PointCount(numberInXi)
  {
    if |idx| == 0 then 0
    else
      var q := PointIndex(numberInXi[1..], idx[1..]);
      MixedRadixBound(idx[0], numberInXi[0] + 1, q, PointCount(numberInXi[1..]));
      idx[0] + (numberInXi[0] + 1) * q
  }

  /** The grid point at position p of the point order. */
  function Coordinates(numberInXi: seq<int>, p: int): (idx: seq<int>)
    requires ValidGrid(numberInXi) && 0 <= p < PointCount(numberInXi)
    ensures InGrid(numberInXi, idx)
  {
    if |numberInXi| == 0 then []
    else
      var b := numberInXi[0] + 1;
      var rest := numberInXi[1..];
      DigitSplit(p, b, PointCount(rest));
      var tail := Coordinates(rest, p / b);
      assert forall i | 1 <= i <= |tail| :: ([p % b] + tail)[i] == tail[i - 1];
      [p % b] + tail
  }

  lemma {:induction false} CoordinatesThenIndex(numberInXi: seq<int>, p: int)
    requires ValidGrid(numberInXi) && 0 <= p < PointCount(numberInXi)
    ensures PointIndex(numberInXi, Coordinates(numberInXi, p)) == p
  {
    if |numberInXi| > 0 {
      var b := numberInXi[0] + 1;
      var idx := Coordinates(numberInXi, p);
      assert PointCount(numberInXi) == b * PointCount(numberInXi[1..]);
      QuotientBound(p, b, PointCount(numberInXi[1..]));
      CoordinatesThenIndex(numberInXi[1..], p / b);
      assert idx[0] == p % b;
      assert idx[1..] == Coordinates(numberInXi[1..], p / b);
      assert PointIndex(numberInXi, idx) == p % b + b * (p / b);
      DivModIdentity(p, b);
    }
  }

  lemma {:induction false} IndexThenCoordinates(numberInXi: seq<int>, idx: seq<int>)
    requires ValidGrid(numberInXi) && InGrid(numberInXi, idx)
    ensures Coordinates(numberInXi, PointIndex(numberInXi, idx)) == idx
  {
    if |idx| > 0 {
      var b := numberInXi[0] + 1;
      var q := PointIndex(numberInXi[1..], idx[1..]);
      DivModUnique(idx[0], b, q);
      IndexThenCoordinates(numberInXi[1..], idx[1..]);
    }
  }

  /** The distance in the point order between neighbours along direction k:
      the number of points in the directions before k. */
  function Stride(numberInXi: seq<int>, k: nat): nat
    requires ValidGrid(numberInXi) && k <= |numberInXi|
  {
    PointCount(numberInXi[..k])
  }

  /** Stepping one grid point along direction k advances the point order by
      the stride of k; along xi1 the stride is one. */
  lemma {:induction false} StepAlong(numberInXi: seq<int>, idx: seq<int>, k: nat)
    requires ValidGrid(numberInXi) && InGrid(numberInXi, idx) && k < |idx| && idx[k] < numberInXi[k]
    ensures InGrid(numberInXi, idx[k := idx[k] + 1])
    ensures PointIndex(numberInXi, idx[k := idx[k] + 1]) == PointIndex(numberInXi, idx) + Stride(numberInXi, k)
  {
    var idx' := idx[k := idx[k] + 1];
    if k == 0 {
      assert idx'[1..] == idx[1..];
      assert numberInXi[..0] == [];
      assert Stride(numberInXi, 0) == 1;
    } else {
      var b := numberInXi[0] + 1;
      var rest := numberInXi[1..];
      StepAlong(rest, idx[1..], k - 1);
      assert idx'[1..] == idx[1..][k - 1 := idx[k] + 1];
      assert rest[..k - 1] == numberInXi[..k][1..];
      assert Stride(numberInXi, k) == b * Stride(rest, k - 1);
      var q := PointIndex(rest, idx[1..]);
      assert PointIndex(numberInXi, idx) == idx[0] + b * q;
      assert PointIndex(numberInXi, idx') == idx[0] + b * (q + Stride(rest, k - 1));
      Distribute(b, q, Stride(rest, k - 1));
    }
  }

  /** The xi coordinates of a grid point: index over cell count in each
      direction, so from 0 to 1 inclusive. */
  function GridXi(numberInXi: seq<int>, idx: seq<int>): (xi: seq<real>)
    requires ValidGrid(numberInXi) && InGrid(numberInXi, idx)
    ensures |xi| == |idx|
    ensures forall i | 0 <= i < |xi| :: 0.0 <= xi[i] <= 1.0
  {
    var xi := seq(|idx|, i requires 0 <= i < |idx| => idx[i] as real / numberInXi[i] as real);
    forall i | 0 <= i < |xi| ensures 0.0 <= xi[i] <= 1.0 {
      UnitRatio(idx[i], numberInXi[i]);
    }
    xi
  }

  /** a / n lies in [0, 1] for 0 <= a <= n. */
  lemma UnitRatio(a: int, n: int)
    requires 0 <= a <= n && n > 0
    ensures 0.0 <= a as real / n as real <= 1.0
  {
    var r := a as real / n as real;
    assert r * n as real == a as real;
  }

  /** Distinct grid points lie at distinct xi. */
  lemma GridXiInjective(numberInXi: seq<int>, idx1: seq<int>, idx2: seq<int>)
    requires ValidGrid(numberInXi) && InGrid(numberInXi, idx1) && InGrid(numberInXi, idx2)
    requires GridXi(numberInXi, idx1) == GridXi(numberInXi, idx2)
    ensures idx1 == idx2
  {
    forall i | 0 <= i < |idx1| ensures idx1[i] == idx2[i] {
      var n := numberInXi[i] as real;
      assert GridXi(numberInXi, idx1)[i] == GridXi(numberInXi, idx2)[i];
      assert idx1[i] as real / n == idx2[i] as real / n;
      assert idx1[i] as real == (idx1[i] as real / n) * n;
    }
  }

  /** The xi of the point at position p of the point order. */
  function PointXi(numberInXi: seq<int>, p: int): seq<real>
    requires ValidGrid(numberInXi) && 0 <= p < PointCount(numberInXi)
  {
    GridXi(numberInXi, Coordinates(numberInXi, p))
  }

  /** Different positions of the point order lie at different xi. */
  lemma PointXiInjective(numberInXi: seq<int>, p: int, q: int)
    requires ValidGrid(numberInXi) && 0 <= p < PointCount(numberInXi) && 0 <= q < PointCount(numberInXi)
    ensures PointXi(numberInXi, p) == PointXi(numberInXi, q) ==> p == q
  {
    if PointXi(numberInXi, p) == PointXi(numberInXi, q) {
      GridXiInjective(numberInXi, Coordinates(numberInXi, p), Coordinates(numberInXi, q));
      CoordinatesThenIndex(numberInXi, p);
      CoordinatesThenIndex(numberInXi, q);
    }
  }

  /** Position in the value array of component c at grid point p: points
      cycle fastest, components last. */
  function ValueIndex(c: nat, p: nat, count: nat): nat {
    c * count + p
  }

  /** ValueIndex is a bijection between (component, point) pairs and the
      positions of an array of components * count values. */
  lemma ValueIndexBijection(c: nat, p: nat, count: nat, components: nat)
    requires c < components && p < count
    ensures ValueIndex(c, p, count) < components * count
    ensures ValueIndex(c, p, count) / count == c && ValueIndex(c, p, count) % count == p
  {
    var v := ValueIndex(c, p, count);
    assert v == p + count * c;
    MixedRadixBound(p, count, c, components);
    assert count * components == components * count;
    DivModUnique(p, count, c);
  }

  lemma ValueIndexCovers(v: nat, count: nat, components: nat)
    requires v < components * count
    ensures count > 0 && v / count < components && ValueIndex(v / count, v % count, count) == v
  {
    assert count != 0;
    QuotientBound(v, count, components);
  }

  /** The value array for per-point values: entry ValueIndex(c, p) holds
      component c at point p (LayoutEntry). */
  function Layout(points: seq<seq<real>>, components: nat): (values: seq<real>)
    requires forall p | 0 <= p < |points| :: |points[p]| == components
    ensures |values| == components * |points|
  {
    seq(components * |points|, v requires 0 <= v < components * |points| =>
      ValueIndexCovers(v, |points|, components);
      points[v % |points|][v / |points|])
  }

  lemma LayoutEntry(points: seq<seq<real>>, components: nat, c: nat, p: nat)
    requires forall q | 0 <= q < |points| :: |points[q]| == components
    requires c < components && p < |points|
    ensures ValueIndex(c, p, |points|) < components * |points|
    ensures Layout(points, components)[ValueIndex(c, p, |points|)] == points[p][c]
  {
    ValueIndexBijection(c, p, |points|, components);
  }

  /** The values of point p taken out of a value array. */
  function PointValues(values: seq<real>, p: nat, count: nat, components: nat): (r: seq<real>)
    requires |values| == components * count && p < count
    ensures |r| == components
  {
    seq(components, c requires 0 <= c < components =>
      ValueIndexBijection(c, p, count, components);
      values[ValueIndex(c, p, count)])
  }

  /** Taking point values back out of a layout gives the points. */
  lemma LayoutRoundTrip(points: seq<seq<real>>, components: nat, p: nat)
    requires forall q | 0 <= q < |points| :: |points[q]| == components
    requires p < |points|
    ensures PointValues(Layout(points, components), p, |points|, components) == points[p]
  {
    var r := PointValues(Layout(points, components), p, |points|, components);
    forall c | 0 <= c < components ensures r[c] == points[p][c] {
      LayoutEntry(points, components, c, p);
    }
  }
}
