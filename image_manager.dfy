/**
 * The hole filler itself: an object that owns an image grid and a mask grid, builds the hole
 * set and the border set from the mask, and overwrites the hole cells of the image with
 * weighted means of the border values.
 */
module HoleFilling {
  import opened PointSets
  import opened Interpolation

  /** The value of image cell p for every point p of s. */
  function Pixels(a: array2<real>, s: set<Point>): (r: map<Point, real>)
    reads a
    requires forall p :: p in s ==> InGrid(a, p)
    ensures r.Keys == s
    ensures forall p :: p in s ==> r[p] == At(a, p)
  {
    map p | p in s :: At(a, p)
  }

  /** Every cell of the grid holds a value in [0, 1]. */
  ghost predicate PixelsInRange(a: array2<real>)
    reads a
  {
    forall i, j :: 0 <= i < a.Length0 && 0 <= j < a.Length1 ==> 0.0 <= a[i, j] <= 1.0
  }

  /** A map that agrees with the grid at every point of s is the pixel map of s. */
  lemma PixelsOf(a: array2<real>, s: set<Point>, v: map<Point, real>)
    requires forall p :: p in s ==> InGrid(a, p)
    requires v.Keys == s && forall p :: p in s ==> v[p] == At(a, p)
    ensures Pixels(a, s) == v
  {
  }

  /** The centroid of a non-empty hole set is an interior cell, so it is a cell of the grid. */
  lemma CentroidOfHolesIsInterior(m: array2<real>, holes: set<Point>)
    requires holes != {} && AllInterior(m, holes)
    ensures Interior(m, Centroid(holes))
  {
    CentroidInBox(holes, 1, m.Length0 - 2, 1, m.Length1 - 2);
  }

  /** The centroid of a single point is that point, so a one-cell hole is filled exactly by either fill. */
  lemma CentroidOfSingleton(p: Point)
    ensures Centroid({p}) == p
  {
    SumInsert({}, XCoordinates({p}), p);
    SumInsert({}, YCoordinates({p}), p);
    assert {} + {p} == {p};
  }

  class ImageManager {
    var holePoints: set<Point>
    var borderPoints: set<Point>
    const image: array2<real>
    const mask: array2<real>
    const weight: (Point, Point) -> real
    const rows: nat
    const cols: nat
    const is4Connected: bool

    /**
     * The two grids are distinct and of the same size, pixel values lie in [0, 1] (the loader
     * divides by 255), every weight is positive, holes come from the mask, and border points
     * are known cells of the grid.
     */
    ghost predicate Valid()
      reads this, image, mask
    {
      && image != mask
      && image.Length0 == rows && image.Length1 == cols
      && mask.Length0 == rows && mask.Length1 == cols
      && Positive(weight)
      && PixelsInRange(image)
      && AllHoleCells(mask, holePoints)
      && AllBorderCells(mask, borderPoints)
    }

    /** A manager over grids that already exist, with both point sets empty. */
    constructor (image: array2<real>, mask: array2<real>, is4Connected: bool, weight: (Point, Point) -> real)
      requires image != mask && image.Length0 == mask.Length0 && image.Length1 == mask.Length1
      requires Positive(weight)
      requires PixelsInRange(image)
      ensures Valid()
      ensures this.image == image && this.mask == mask && this.weight == weight
      ensures this.is4Connected == is4Connected
      ensures rows == image.Length0 && cols == image.Length1
      ensures holePoints == {} && borderPoints == {}
    {
      this.image := image;
      this.mask := mask;
      this.weight := weight;
      this.is4Connected := is4Connected;
      rows := image.Length0;
      cols := image.Length1;
      holePoints := {};
      borderPoints := {};
    }

    /** Adds every interior cell whose mask value is below the threshold to the hole set. */
    method CalculateHoleSet()
      requires Valid()
      modifies this`holePoints
      ensures Valid()
      ensures holePoints == old(holePoints) + HoleSet(mask)
    {
      ScanGrid();
      HoleSetShape(mask);
    }

    /** The two nested loops over the interior rows and columns, in row-major order. */
    method ScanGrid()
      requires mask.Length0 == rows && mask.Length1 == cols
      modifies this`holePoints
      ensures holePoints == old(holePoints) + HoleSet(mask)
    {
      ghost var base := holePoints;
      var lastRow, lastCol := rows - 1, cols - 1;
      var row := 1;
      while row < lastRow
        invariant 1 <= row && (row <= lastRow || row == 1)
        invariant holePoints == base + HolesBefore(mask, row, 1)
      {
        var col := 1;
        while col < lastCol
          invariant 1 <= col && (col <= lastCol || col == 1)
          invariant holePoints == base + HolesBefore(mask, row, col)
        {
          HolesBeforeStep(mask, base, row, col);
          if mask[row, col] < PixelThreshold {
            holePoints := holePoints + {Point(row, col)};
          }
          col := col + 1;
        }
        HolesBeforeNextRow(mask, row, col);
        row := row + 1;
      }
      HolesBeforeEnd(mask, row);
    }

    /**
     * Visits the 8 offsets around every hole point and adds each neighbour the rule counts
     * and the mask does not mark as a hole. Border points are known cells, so the hole set
     * and the border set stay disjoint.
     */
    method CalculateBorderSet()
      requires Valid()
      modifies this`borderPoints
      ensures Valid()
      ensures borderPoints == old(borderPoints) + BorderSet(mask, holePoints, is4Connected)
      ensures borderPoints !! holePoints
    {
      BorderPointsAreKnown(mask, holePoints, is4Connected);
      ScanHoles();
    }

    /** The loop over the hole set; every hole point is visited once, in no particular order. */
    method ScanHoles()
      requires AllInterior(mask, holePoints)
      modifies this`borderPoints
      ensures borderPoints == old(borderPoints) + BorderSet(mask, holePoints, is4Connected)
    {
      ghost var holes, base := holePoints, borderPoints;
      var remaining := holePoints;
      while remaining != {}
        invariant remaining <= holes
        invariant borderPoints == base + BorderSet(mask, holes - remaining, is4Connected)
        decreases |remaining|
      {
        var hole :| hole in remaining;
        BorderSetGrows(mask, base, holes - remaining, hole, is4Connected);
        AddNeighbours(hole);
        assert (holes - remaining) + {hole} == holes - (remaining - {hole});
        remaining := remaining - {hole};
      }
      assert holes - remaining == holes;
    }

    /**
     * The scan around one hole point: the row offset dx and the column offset dy each run
     * from -1 to 1; the centre is skipped, and a cell is added when it is not a hole and the
     * neighbour rule counts it.
     */
    method AddNeighbours(hole: Point)
      requires Interior(mask, hole)
      modifies this`borderPoints
      ensures borderPoints == old(borderPoints) + RowsScanned(mask, hole, is4Connected, 2)
    {
      ghost var base := borderPoints;
      for dx := -1 to 2
        invariant borderPoints == base + RowsScanned(mask, hole, is4Connected, dx)
      {
        RowsScannedStep(mask, hole, is4Connected, base, dx);
        ScanOffsetRow(hole, dx);
      }
    }

    /** The inner loop of the scan: the column offsets dy = -1, 0, 1 for one row offset dx. */
    method ScanOffsetRow(hole: Point, dx: int)
      requires Interior(mask, hole) && -1 <= dx <= 1
      modifies this`borderPoints
      ensures borderPoints == old(borderPoints) + RowScanned(mask, hole, is4Connected, dx, 2)
    {
      ghost var base := borderPoints;
      var x, y := hole.x, hole.y;
      for dy := -1 to 2
        invariant borderPoints == base + RowScanned(mask, hole, is4Connected, dx, dy)
      {
        AddsAsTested(mask, hole, is4Connected, dx, dy);
        RowScannedStep(mask, hole, is4Connected, base, dx, dy);
        var currX, currY := x + dx, y + dy;
        if dx == 0 && dy == 0 {
          continue;
        }
        var inCorner := Abs(dx) + Abs(dy) == 2;
        var inHole := mask[currX, currY] < PixelThreshold;
        var isNeighbour := !inCorner && is4Connected;
        if !inHole && isNeighbour {
          borderPoints := borderPoints + {Point(currX, currY)};
        }
      }
    }

    /** The value of image cell p; when every pixel lies in [0, 1], so does this one. */
    function GetPixel(p: Point): (v: real)
      reads image
      requires 0 <= p.x < image.Length0 && 0 <= p.y < image.Length1
      ensures PixelsInRange(image) ==> 0.0 <= v <= 1.0
    {
      image[p.x, p.y]
    }

    /** Overwrites image cell p and no other cell. */
    method SetPixel(p: Point, value: real)
      requires InGrid(image, p)
      modifies image
      ensures image[p.x, p.y] == value
      ensures forall q :: InGrid(image, q) && q != p ==> At(image, q) == old(At(image, q))
      ensures old(PixelsInRange(image)) && 0.0 <= value <= 1.0 ==> PixelsInRange(image)
    {
      image[p.x, p.y] := value;
    }

    /** I(u) over the current border set and the current border values. */
    ghost function ExactValue(u: Point): Sample
      reads this, image, mask
      requires Valid()
    {
      Iu(u, borderPoints, weight, Pixels(image, borderPoints))
    }

    /**
     * Accumulates the weighted border values and the weights seen from u, and divides the
     * first sum by the second: the result is I(u), Undefined exactly when the border is empty.
     */
    method CalculateIu(u: Point) returns (r: Sample)
      requires Valid()
      ensures r == ExactValue(u)
      ensures r.Undefined? <==> borderPoints == {}
      ensures r.Value? ==> 0.0 <= r.v <= 1.0
    {
      ghost var values := Pixels(image, borderPoints);
      var numerator, denominator := AccumulateIu(u);
      if denominator == 0.0 {
        r := Undefined;
      } else {
        r := Value(numerator / denominator);
      }
      IuUndefinedIffNoBorder(u, borderPoints, weight, values);
      if borderPoints != {} {
        IuIsConvex(u, borderPoints, weight, values, 0.0, 1.0);
      }
    }

    /** The loop of I(u): the two running sums over the border set, visited in no particular order. */
    method AccumulateIu(u: Point) returns (numerator: real, denominator: real)
      requires forall b :: b in borderPoints ==> InGrid(image, b)
      ensures numerator == Sum(borderPoints, WeightedValues(u, borderPoints, weight, Pixels(image, borderPoints)))
      ensures denominator == Sum(borderPoints, Weights(u, borderPoints, weight))
    {
      ghost var border := borderPoints;
      ghost var products := WeightedValues(u, border, weight, Pixels(image, border));
      ghost var weights := Weights(u, border, weight);
      numerator, denominator := 0.0, 0.0;
      var remaining := borderPoints;
      while remaining != {}
        invariant remaining <= border
        invariant numerator == Sum(border - remaining, products)
        invariant denominator == Sum(border - remaining, weights)
        decreases |remaining|
      {
        var b :| b in remaining;
        var w := weight(u, b);
        var g := GetPixel(b);
        WeightedSumsStep(border, remaining, products, weights, b, numerator, denominator, w, g);
        numerator := numerator + w * g;
        denominator := denominator + w;
        remaining := remaining - {b};
      }
      assert border - remaining == border;
    }

    /**
     * Writes I(p) into every hole cell p. The border cells are never written, so every value
     * is I(p) over the original border values whatever the visiting order. With an empty border
     * set I is undefined; the fill then reports failure and writes nothing.
     */
    method FillHolesInImage() returns (filled: bool)
      requires Valid()
      modifies image
      ensures Valid()
      ensures filled <==> (holePoints == {} || borderPoints != {})
      ensures filled ==> forall p :: p in holePoints ==> old(ExactValue(p)) == Value(At(image, p))
      ensures forall p {:trigger At(image, p)} :: InGrid(image, p) && p !in holePoints ==> At(image, p) == old(At(image, p))
      ensures !filled ==> forall p {:trigger At(image, p)} :: InGrid(image, p) ==> At(image, p) == old(At(image, p))
    {
      ghost var holes, border := holePoints, borderPoints;
      ghost var values := Pixels(image, border);
      var remaining := holePoints;
      while remaining != {}
        invariant remaining <= holes
        invariant Valid()
        invariant border == {} ==> remaining == holes
        invariant forall p :: p in holes - remaining ==> Iu(p, border, weight, values) == Value(At(image, p))
        invariant forall p {:trigger At(image, p)} :: InGrid(image, p) && p !in holes ==> At(image, p) == old(At(image, p))
        invariant border == {} ==> forall p {:trigger At(image, p)} :: InGrid(image, p) ==> At(image, p) == old(At(image, p))
        decreases |remaining|
      {
        var hole :| hole in remaining;
        PixelsOf(image, border, values);
        var ok := FillHole(hole, values);
        if !ok {
          return false;
        }
        remaining := remaining - {hole};
      }
      filled := true;
    }

    /** One step of the exact fill: I(hole) is computed and, when it is defined, written at hole. */
    method FillHole(hole: Point, ghost values: map<Point, real>) returns (ok: bool)
      requires Valid() && hole in holePoints && values == Pixels(image, borderPoints)
      modifies image
      ensures Valid()
      ensures ok <==> borderPoints != {}
      ensures ok ==> Value(At(image, hole)) == Iu(hole, borderPoints, weight, values)
      ensures forall p {:trigger At(image, p)} :: InGrid(image, p) && (!ok || p != hole) ==> At(image, p) == old(At(image, p))
    {
      var value := CalculateIu(hole);
      if value.Undefined? {
        return false;
      }
      SetPixel(hole, value.v);
      ok := true;
    }

    /**
     * Evaluates I once, at the centroid of the hole set, and writes that single value into
     * every hole cell. With an empty border set I is undefined; the fill then reports failure
     * and writes nothing. An empty hole set leaves the image as it is.
     */
    method ApproximateFill() returns (filled: bool)
      requires Valid()
      modifies image
      ensures Valid()
      ensures filled <==> (holePoints == {} || borderPoints != {})
      ensures filled && holePoints != {} ==>
                forall p :: p in holePoints ==> old(ExactValue(Centroid(holePoints))) == Value(At(image, p))
      ensures forall p :: InGrid(image, p) && p !in holePoints ==> At(image, p) == old(At(image, p))
      ensures !filled ==> forall p :: InGrid(image, p) ==> At(image, p) == old(At(image, p))
    {
      if holePoints == {} {
        return true;
      }
      var centre := HoleCentroid();
      var value := CalculateIu(centre);
      if value.Undefined? {
        return false;
      }
      WriteHoles(value.v);
      filled := true;
    }

    /** The second loop of the approximate fill: v is written into every hole cell and no other cell. */
    method WriteHoles(v: real)
      requires Valid() && 0.0 <= v <= 1.0
      modifies image
      ensures Valid()
      ensures forall p :: p in holePoints ==> At(image, p) == v
      ensures forall p :: InGrid(image, p) && p !in holePoints ==> At(image, p) == old(At(image, p))
    {
      var remaining := holePoints;
      while remaining != {}
        invariant remaining <= holePoints
        invariant Valid()
        invariant forall p :: p in holePoints - remaining ==> At(image, p) == v
        invariant forall p :: InGrid(image, p) && p !in holePoints ==> At(image, p) == old(At(image, p))
        decreases |remaining|
      {
        var hole :| hole in remaining;
        SetPixel(hole, v);
        remaining := remaining - {hole};
      }
    }

    /** The first loop of the approximate fill and the division after it: the centroid of the hole set. */
    method HoleCentroid() returns (centre: Point)
      requires holePoints != {}
      ensures centre == Centroid(holePoints)
    {
      var xSum, ySum := SumCoordinates();
      var count := |holePoints|;
      centre := Point(Trunc(xSum / count as real), Trunc(ySum / count as real));
    }

    /** The loop of the centroid: the row and the column coordinates of the hole points, summed. */
    method SumCoordinates() returns (xSum: real, ySum: real)
      ensures xSum == Sum(holePoints, XCoordinates(holePoints))
      ensures ySum == Sum(holePoints, YCoordinates(holePoints))
    {
      ghost var holes := holePoints;
      xSum, ySum := 0.0, 0.0;
      var remaining := holePoints;
      while remaining != {}
        invariant remaining <= holes
        invariant xSum == Sum(holes - remaining, XCoordinates(holes))
        invariant ySum == Sum(holes - remaining, YCoordinates(holes))
        decreases |remaining|
      {
        var hole :| hole in remaining;
        SumStep(holes, remaining, XCoordinates(holes), hole);
        SumStep(holes, remaining, YCoordinates(holes), hole);
        xSum := xSum + hole.x as real;
        ySum := ySum + hole.y as real;
        remaining := remaining - {hole};
      }
      assert holes - remaining == holes;
    }
  }
}
