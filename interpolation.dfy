/**
 * The weighted interpolation of the hole filler: sums over an unordered point set, the
 * weighted mean I(u) of the border values seen from a point u, and the centroid of the hole
 * set that the approximate fill evaluates I at.
 */
module Interpolation {
  import opened PointSets

  /** The result of the float division numerator / denominator; Undefined is the 0/0 case (NaN in Java). */
  datatype Sample = Value(v: real) | Undefined

  /** Every weight is strictly positive, as 1 / (epsilon + d^z) with epsilon > 0 is. */
  ghost predicate Positive(w: (Point, Point) -> real)
  {
    forall p, q :: w(p, q) > 0.0
  }

  /** The sum of f over s, in no particular order. */
  ghost function Sum(s: set<Point>, f: map<Point, real>): real
    requires s <= f.Keys
  {
    if s == {} then 0.0 else var p :| p in s; f[p] + Sum(s - {p}, f)
  }

  /** Any element may be taken out first: the sum does not depend on the order of the points. */
  lemma {:induction false} SumRemove(s: set<Point>, f: map<Point, real>, p: Point)
    requires s <= f.Keys && p in s
    ensures Sum(s, f) == f[p] + Sum(s - {p}, f)
    decreases |s|
  {
    var q :| q in s && Sum(s, f) == f[q] + Sum(s - {q}, f);
    if q != p {
      SumRemove(s - {q}, f, p);
      SumRemove(s - {p}, f, q);
      assert s - {q} - {p} == s - {p} - {q};
    }
  }

  /** Adding one new point adds its term: the step an accumulating loop takes. */
  lemma SumInsert(s: set<Point>, f: map<Point, real>, p: Point)
    requires s + {p} <= f.Keys && p !in s
    ensures Sum(s + {p}, f) == Sum(s, f) + f[p]
  {
    SumRemove(s + {p}, f, p);
    assert s + {p} - {p} == s;
  }

  /**
   * The step of a loop that takes p out of the points still to visit: the sum over the points
   * already visited grows by the term of p.
   */
  lemma SumStep(all: set<Point>, remaining: set<Point>, f: map<Point, real>, p: Point)
    requires all <= f.Keys && remaining <= all && p in remaining
    ensures Sum(all - (remaining - {p}), f) == Sum(all - remaining, f) + f[p]
  {
    SumInsert(all - remaining, f, p);
    assert (all - remaining) + {p} == all - (remaining - {p});
  }

  /**
   * The step of the loop of I(u) that visits border point p with weight w and value g: both
   * running sums grow by the terms of p.
   */
  lemma WeightedSumsStep(all: set<Point>, remaining: set<Point>, products: map<Point, real>,
                         weights: map<Point, real>, p: Point, num: real, den: real, w: real, g: real)
    requires all <= products.Keys && all <= weights.Keys && remaining <= all && p in remaining
    requires num == Sum(all - remaining, products) && den == Sum(all - remaining, weights)
    requires products[p] == w * g && weights[p] == w
    ensures num + w * g == Sum(all - (remaining - {p}), products)
    ensures den + w == Sum(all - (remaining - {p}), weights)
  {
    SumStep(all, remaining, products, p);
    SumStep(all, remaining, weights, p);
  }

  /** Multiplying both sides of a <= b by c >= 0 keeps the order. */
  lemma MulMonotone(a: real, b: real, c: real)
    requires a <= b && 0.0 <= c
    ensures a * c <= b * c
  {
    assert (b - a) * c >= 0.0;
  }

  /** Bounds lo * den <= num <= hi * den with den > 0 give bounds on the quotient. */
  lemma QuotientWithin(num: real, den: real, lo: real, hi: real)
    requires den > 0.0 && Scaled(lo, den) <= num <= Scaled(hi, den)
    ensures lo <= num / den <= hi
  {
    var q := num / den;
    assert q * den == num;
    assert (q - lo) * den >= 0.0;
    assert (hi - q) * den >= 0.0;
  }

  /** Termwise f <= g gives Sum(s, f) <= Sum(s, g). */
  lemma {:induction false} SumMonotone(s: set<Point>, f: map<Point, real>, g: map<Point, real>)
    requires s <= f.Keys && s <= g.Keys
    requires forall p :: p in s ==> f[p] <= g[p]
    ensures Sum(s, f) <= Sum(s, g)
    decreases |s|
  {
    if s != {} {
      var p :| p in s;
      SumRemove(s, f, p);
      SumRemove(s, g, p);
      SumMonotone(s - {p}, f, g);
    }
  }

  /** k * x, named so that the solver matches products of sums as single terms. */
  function Scaled(k: real, x: real): real
  {
    k * x
  }

  lemma ScaledAdd(k: real, a: real, b: real)
    ensures Scaled(k, a + b) == Scaled(k, a) + Scaled(k, b)
  {
  }

  /** Scaling every term by k scales the sum by k. */
  lemma {:induction false} SumScale(s: set<Point>, f: map<Point, real>, g: map<Point, real>, k: real)
    requires s <= f.Keys && s <= g.Keys
    requires forall p :: p in s ==> g[p] == k * f[p]
    ensures Sum(s, g) == Scaled(k, Sum(s, f))
    decreases |s|
  {
    if s != {} {
      var p :| p in s;
      SumRemove(s, f, p);
      SumRemove(s, g, p);
      SumScale(s - {p}, f, g, k);
      ScaledAdd(k, f[p], Sum(s - {p}, f));
    }
  }

  /** Summing 1 over s counts s. */
  lemma {:induction false} SumCounts(s: set<Point>, f: map<Point, real>)
    requires s <= f.Keys
    requires forall p :: p in s ==> f[p] == 1.0
    ensures Sum(s, f) == |s| as real
    decreases |s|
  {
    if s != {} {
      var p :| p in s;
      SumRemove(s, f, p);
      SumCounts(s - {p}, f);
    }
  }

  /** Termwise bounds lo * f <= g <= hi * f carry over to the sums. */
  lemma SumBounds(s: set<Point>, f: map<Point, real>, g: map<Point, real>, lo: real, hi: real)
    requires s <= f.Keys && s <= g.Keys
    requires forall p :: p in s ==> lo * f[p] <= g[p] <= hi * f[p]
    ensures Scaled(lo, Sum(s, f)) <= Sum(s, g) <= Scaled(hi, Sum(s, f))
  {
    var low := map p | p in s :: lo * f[p];
    var high := map p | p in s :: hi * f[p];
    SumMonotone(s, low, g);
    SumMonotone(s, g, high);
    SumScale(s, f, low, lo);
    SumScale(s, f, high, hi);
  }

  /** A sum of positive terms is positive exactly when there is a term. */
  lemma {:induction false} SumPositive(s: set<Point>, f: map<Point, real>)
    requires s <= f.Keys
    requires forall p :: p in s ==> f[p] > 0.0
    ensures s == {} ==> Sum(s, f) == 0.0
    ensures s != {} ==> Sum(s, f) > 0.0
    decreases |s|
  {
    if s != {} {
      var p :| p in s;
      SumRemove(s, f, p);
      SumPositive(s - {p}, f);
    }
  }

  /** Every term lies in [lo, hi], so the sum lies in [lo * |s|, hi * |s|]. */
  lemma SumWithin(s: set<Point>, f: map<Point, real>, lo: real, hi: real)
    requires s <= f.Keys
    requires forall p :: p in s ==> lo <= f[p] <= hi
    ensures Scaled(lo, |s| as real) <= Sum(s, f) <= Scaled(hi, |s| as real)
  {
    var ones := map p | p in s :: 1.0;
    SumCounts(s, ones);
    SumBounds(s, ones, f, lo, hi);
  }

  /** The weight of every border point seen from u. */
  function Weights(u: Point, s: set<Point>, w: (Point, Point) -> real): (r: map<Point, real>)
    ensures r.Keys == s
  {
    map b | b in s :: w(u, b)
  }

  /** The weighted value of every border point seen from u. */
  function WeightedValues(u: Point, s: set<Point>, w: (Point, Point) -> real, v: map<Point, real>): (r: map<Point, real>)
    requires s <= v.Keys
    ensures r.Keys == s
  {
    map b | b in s :: w(u, b) * v[b]
  }

  /**
   * I(u): the sum of w(u, b) * v[b] over the border points b, divided by the sum of the
   * weights w(u, b); Undefined when the denominator is 0.
   */
  ghost function Iu(u: Point, s: set<Point>, w: (Point, Point) -> real, v: map<Point, real>): Sample
    requires s <= v.Keys
  {
    var denominator := Sum(s, Weights(u, s, w));
    if denominator == 0.0 then Undefined
    else Value(Sum(s, WeightedValues(u, s, w, v)) / denominator)
  }

  /** With positive weights, I(u) is undefined exactly when the border set is empty. */
  lemma IuUndefinedIffNoBorder(u: Point, s: set<Point>, w: (Point, Point) -> real, v: map<Point, real>)
    requires Positive(w) && s <= v.Keys
    ensures Iu(u, s, w, v).Undefined? <==> s == {}
  {
    SumPositive(s, Weights(u, s, w));
  }

  /**
   * Convexity: with positive weights and a non-empty border set whose values lie in [lo, hi],
   * I(u) is defined and lies in [lo, hi].
   */
  lemma IuIsConvex(u: Point, s: set<Point>, w: (Point, Point) -> real, v: map<Point, real>, lo: real, hi: real)
    requires Positive(w) && s <= v.Keys && s != {}
    requires forall b :: b in s ==> lo <= v[b] <= hi
    ensures Iu(u, s, w, v).Value?
    ensures lo <= Iu(u, s, w, v).v <= hi
  {
    var ws, wv := Weights(u, s, w), WeightedValues(u, s, w, v);
    forall b | b in s ensures lo * ws[b] <= wv[b] <= hi * ws[b] {
      WeightedTermWithin(w(u, b), v[b], lo, hi);
    }
    SumPositive(s, ws);
    SumBounds(s, ws, wv, lo, hi);
    QuotientWithin(Sum(s, wv), Sum(s, ws), lo, hi);
  }

  /** One term: a positive weight times a value in [lo, hi] lies between lo and hi times the weight. */
  lemma WeightedTermWithin(weight: real, value: real, lo: real, hi: real)
    requires weight > 0.0 && lo <= value <= hi
    ensures lo * weight <= weight * value <= hi * weight
  {
    MulMonotone(lo, value, weight);
    MulMonotone(value, hi, weight);
  }

  /** Some border value is a least one, and some a greatest one. */
  lemma {:induction false} ExtremeValues(s: set<Point>, v: map<Point, real>)
    requires s <= v.Keys && s != {}
    ensures exists b :: b in s && forall c :: c in s ==> v[b] <= v[c]
    ensures exists b :: b in s && forall c :: c in s ==> v[c] <= v[b]
    decreases |s|
  {
    var p :| p in s;
    if s - {p} != {} {
      ExtremeValues(s - {p}, v);
      var lo :| lo in s - {p} && forall c :: c in s - {p} ==> v[lo] <= v[c];
      var hi :| hi in s - {p} && forall c :: c in s - {p} ==> v[c] <= v[hi];
      if v[p] < v[lo] {
        assert forall c :: c in s ==> v[p] <= v[c];
      } else {
        assert forall c :: c in s ==> v[lo] <= v[c];
      }
      if v[hi] < v[p] {
        assert forall c :: c in s ==> v[c] <= v[p];
      } else {
        assert forall c :: c in s ==> v[c] <= v[hi];
      }
    } else {
      assert s == {p};
    }
  }

  /** I(u) lies between the least and the greatest border value. */
  lemma IuWithinBorderRange(u: Point, s: set<Point>, w: (Point, Point) -> real, v: map<Point, real>)
    requires Positive(w) && s <= v.Keys && s != {}
    ensures Iu(u, s, w, v).Value?
    ensures exists b :: b in s && v[b] <= Iu(u, s, w, v).v
    ensures exists b :: b in s && Iu(u, s, w, v).v <= v[b]
  {
    ExtremeValues(s, v);
    var lo :| lo in s && forall c :: c in s ==> v[lo] <= v[c];
    var hi :| hi in s && forall c :: c in s ==> v[c] <= v[hi];
    IuIsConvex(u, s, w, v, v[lo], v[hi]);
  }

  /** A border of one uniform value c fills with exactly c. */
  lemma IuOfUniformBorder(u: Point, s: set<Point>, w: (Point, Point) -> real, v: map<Point, real>, c: real)
    requires Positive(w) && s <= v.Keys && s != {}
    requires forall b :: b in s ==> v[b] == c
    ensures Iu(u, s, w, v) == Value(c)
  {
    IuIsConvex(u, s, w, v, c, c);
  }

  /** Java's (int) cast of a double: the fraction is dropped, rounding toward zero. */
  function Trunc(r: real): int
  {
    if r >= 0.0 then r.Floor else -((-r).Floor)
  }

  function XCoordinates(s: set<Point>): (r: map<Point, real>)
    ensures r.Keys == s
  {
    map p | p in s :: p.x as real
  }

  function YCoordinates(s: set<Point>): (r: map<Point, real>)
    ensures r.Keys == s
  {
    map p | p in s :: p.y as real
  }

  /** The mean row and the mean column of the points, each truncated to an integer. */
  ghost function Centroid(s: set<Point>): Point
    requires s != {}
  {
    Point(Trunc(Sum(s, XCoordinates(s)) / |s| as real), Trunc(Sum(s, YCoordinates(s)) / |s| as real))
  }

  /** The mean of values in [lo, hi] truncates into [lo, hi] when 0 <= lo. */
  lemma TruncatedMeanWithin(total: real, n: nat, lo: int, hi: int)
    requires n > 0 && 0 <= lo
    requires Scaled(lo as real, n as real) <= total <= Scaled(hi as real, n as real)
    ensures lo <= Trunc(total / n as real) <= hi
  {
    QuotientWithin(total, n as real, lo as real, hi as real);
  }

  /**
   * The centroid of points inside a box with non-negative corners lies in that box; so the
   * centroid of a hole set, whose points are interior, is an interior cell.
   */
  lemma CentroidInBox(s: set<Point>, x0: int, x1: int, y0: int, y1: int)
    requires s != {} && 0 <= x0 && 0 <= y0
    requires forall p :: p in s ==> x0 <= p.x <= x1 && y0 <= p.y <= y1
    ensures x0 <= Centroid(s).x <= x1 && y0 <= Centroid(s).y <= y1
  {
    SumWithin(s, XCoordinates(s), x0 as real, x1 as real);
    SumWithin(s, YCoordinates(s), y0 as real, y1 as real);
    TruncatedMeanWithin(Sum(s, XCoordinates(s)), |s|, x0, x1);
    TruncatedMeanWithin(Sum(s, YCoordinates(s)), |s|, y0, y1);
  }
}
