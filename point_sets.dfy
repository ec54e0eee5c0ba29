/**
 * The two point sets of the hole-filling pipeline, as specifications over the mask grid:
 * the hole set (interior cells whose mask value is below the threshold) and the border set
 * (known cells next to a hole), together with the neighbour rule the program applies.
 */
module PointSets {

  /** A grid coordinate; `x` is the row index and `y` the column index. */
  datatype Point = Point(x: int, y: int)

  /** A mask value below this marks a missing pixel. */
  const PixelThreshold: real := 0.5

  function Abs(n: int): nat
  {
    if n < 0 then -n else n
  }

  predicate InGrid(g: array2<real>, p: Point)
  {
    0 <= p.x < g.Length0 && 0 <= p.y < g.Length1
  }

  /** The value of grid g at cell p. */
  function At(g: array2<real>, p: Point): real
    reads g
    requires InGrid(g, p)
  {
    g[p.x, p.y]
  }

  /** Not on the outermost ring of the grid. */
  predicate Interior(g: array2<real>, p: Point)
  {
    1 <= p.x < g.Length0 - 1 && 1 <= p.y < g.Length1 - 1
  }

  /** `d` is one of the 8 offsets the border scan visits: {-1,0,1}^2 without (0,0). */
  predicate IsOffset(d: Point)
  {
    -1 <= d.x <= 1 && -1 <= d.y <= 1 && !(d.x == 0 && d.y == 0)
  }

  predicate IsCorner(d: Point)
  {
    Abs(d.x) + Abs(d.y) == 2
  }

  /** The neighbour rule as the program writes it: not a corner AND the 4-connected flag set. */
  predicate CountsAsNeighbour(d: Point, is4Connected: bool)
  {
    !IsCorner(d) && is4Connected
  }

  /** The rule meant by a 4-or-8 connectivity flag: corners are excluded in 4-connected mode only, so 8-connected mode counts all 8 offsets. */
  predicate IntendedNeighbour(d: Point, is4Connected: bool)
  {
    !(IsCorner(d) && is4Connected)
  }

  predicate AxisNeighbours(p: Point, q: Point)
  {
    Abs(p.x - q.x) + Abs(p.y - q.y) == 1
  }

  /** Every interior cell whose mask value is below the threshold. */
  ghost function HoleSet(m: array2<real>): set<Point>
    reads m
  {
    set i, j | 1 <= i < m.Length0 - 1 && 1 <= j < m.Length1 - 1 && m[i, j] < PixelThreshold :: Point(i, j)
  }

  /** The hole cells a row-major scan has met before it reaches cell (row, col). */
  ghost function HolesBefore(m: array2<real>, row: int, col: int): set<Point>
    reads m
  {
    set i, j | 1 <= i < m.Length0 - 1 && 1 <= j < m.Length1 - 1 && (i < row || (i == row && j < col))
                && m[i, j] < PixelThreshold :: Point(i, j)
  }

  ghost predicate AllInterior(m: array2<real>, holes: set<Point>)
  {
    forall h :: h in holes ==> Interior(m, h)
  }

  /** Every point of `holes` is a hole cell of the mask, as every point of HoleSet(m) is. */
  ghost predicate AllHoleCells(m: array2<real>, holes: set<Point>)
    reads m
  {
    forall h :: h in holes ==> Interior(m, h) && At(m, h) < PixelThreshold
  }

  /** Every point of `border` is a cell of the grid that the mask does not mark as a hole. */
  ghost predicate AllBorderCells(m: array2<real>, border: set<Point>)
    reads m
  {
    forall b :: b in border ==> InGrid(m, b) && At(m, b) >= PixelThreshold
  }

  /**
   * Visiting offset (dx, dy) of an interior hole `h` adds the neighbour: the offset is one of
   * the 8, the as-written rule counts it and the neighbour's mask value is not below the
   * threshold. (Holes are interior cells, so the neighbour is a cell of the grid.)
   */
  predicate Adds(m: array2<real>, h: Point, is4Connected: bool, dx: int, dy: int)
    reads m
  {
    Interior(m, h) && IsOffset(Point(dx, dy)) && CountsAsNeighbour(Point(dx, dy), is4Connected)
    && m[h.x + dx, h.y + dy] >= PixelThreshold
  }

  /** The same, under the intended neighbour rule. */
  predicate IntendedAdds(m: array2<real>, h: Point, is4Connected: bool, dx: int, dy: int)
    reads m
  {
    Interior(m, h) && IsOffset(Point(dx, dy)) && IntendedNeighbour(Point(dx, dy), is4Connected)
    && m[h.x + dx, h.y + dy] >= PixelThreshold
  }

  /**
   * The border set the program builds from `holes`: every neighbour h + d of a hole h, for an
   * offset d that the as-written rule counts, whose mask value is not below the threshold.
   */
  ghost function BorderSet(m: array2<real>, holes: set<Point>, is4Connected: bool): set<Point>
    reads m
  {
    set h, dx, dy | h in holes && -1 <= dx <= 1 && -1 <= dy <= 1 && Adds(m, h, is4Connected, dx, dy)
      :: Point(h.x + dx, h.y + dy)
  }

  /**
   * The border points contributed by hole `h` for the offsets the scan visits before (nx, ny):
   * the offsets run row offset first, column offset second, each from -1 to 1.
   */
  ghost function NeighboursBefore(m: array2<real>, h: Point, is4Connected: bool, nx: int, ny: int): set<Point>
    reads m
  {
    set dx, dy | -1 <= dx <= 1 && -1 <= dy <= 1 && (dx < nx || (dx == nx && dy < ny))
                 && Adds(m, h, is4Connected, dx, dy) :: Point(h.x + dx, h.y + dy)
  }

  /** The border set under the intended neighbour rule. */
  ghost function IntendedBorderSet(m: array2<real>, holes: set<Point>, is4Connected: bool): set<Point>
    reads m
  {
    set h, dx, dy | h in holes && -1 <= dx <= 1 && -1 <= dy <= 1 && IntendedAdds(m, h, is4Connected, dx, dy)
      :: Point(h.x + dx, h.y + dy)
  }

  /** Hole points are interior cells with a low mask value; small grids have no holes. */
  lemma HoleSetShape(m: array2<real>)
    ensures forall p :: p in HoleSet(m) ==> Interior(m, p) && At(m, p) < PixelThreshold
    ensures m.Length0 < 3 || m.Length1 < 3 ==> HoleSet(m) == {}
  {
  }

  /** Scanning one row to its end is the same as standing at the start of the next row. */
  lemma HolesBeforeNextRow(m: array2<real>, row: int, col: int)
    requires col >= m.Length1 - 1
    ensures HolesBefore(m, row, col) == HolesBefore(m, row + 1, 1)
  {
    forall p | p in HolesBefore(m, row + 1, 1) ensures p in HolesBefore(m, row, col) {
      assert p.y < m.Length1 - 1;
    }
  }

  /** A scan that has passed every interior row has met every hole. */
  lemma HolesBeforeEnd(m: array2<real>, row: int)
    requires row >= m.Length0 - 1
    ensures HolesBefore(m, row, 1) == HoleSet(m)
  {
  }

  /**
   * Adding hole cell (row, col) when its mask value is low, and nothing otherwise, moves the
   * scan on by one cell.
   */
  lemma HolesBeforeStep(m: array2<real>, base: set<Point>, row: int, col: int)
    requires 1 <= row < m.Length0 - 1 && 1 <= col < m.Length1 - 1
    ensures m[row, col] < PixelThreshold ==>
              base + HolesBefore(m, row, col) + {Point(row, col)} == base + HolesBefore(m, row, col + 1)
    ensures !(m[row, col] < PixelThreshold) ==> base + HolesBefore(m, row, col) == base + HolesBefore(m, row, col + 1)
  {
    assert HolesBefore(m, row, col + 1)
           == HolesBefore(m, row, col) + (if m[row, col] < PixelThreshold then {Point(row, col)} else {});
  }

  /** Every neighbour the scan visits is inside the grid, because holes are interior. */
  lemma NeighbourInGrid(m: array2<real>, h: Point, d: Point)
    requires Interior(m, h) && -1 <= d.x <= 1 && -1 <= d.y <= 1
    ensures InGrid(m, Point(h.x + d.x, h.y + d.y))
  {
  }

  /** Visiting offset (dx, dy) adds that neighbour exactly when the rule counts it and it is known. */
  lemma NeighboursBeforeStep(m: array2<real>, h: Point, is4Connected: bool, dx: int, dy: int)
    requires Interior(m, h) && -1 <= dx <= 1 && -1 <= dy <= 1
    ensures NeighboursBefore(m, h, is4Connected, dx, dy + 1)
            == NeighboursBefore(m, h, is4Connected, dx, dy) + Step(m, h, is4Connected, dx, dy)
  {
    NeighboursBeforeStepCovered(m, h, is4Connected, dx, dy);
    NeighboursBeforeStepGrows(m, h, is4Connected, dx, dy);
  }

  /** Every neighbour met up to offset (dx, dy) was met before it or is the one at (dx, dy). */
  lemma NeighboursBeforeStepCovered(m: array2<real>, h: Point, is4Connected: bool, dx: int, dy: int)
    requires Interior(m, h) && -1 <= dx <= 1 && -1 <= dy <= 1
    ensures NeighboursBefore(m, h, is4Connected, dx, dy + 1)
            <= NeighboursBefore(m, h, is4Connected, dx, dy) + Step(m, h, is4Connected, dx, dy)
  {
    var b := NeighboursBefore(m, h, is4Connected, dx, dy);
    var step := Step(m, h, is4Connected, dx, dy);
    forall p | p in NeighboursBefore(m, h, is4Connected, dx, dy + 1) ensures p in b + step {
      var ex, ey :| -1 <= ex <= 1 && -1 <= ey <= 1 && (ex < dx || (ex == dx && ey < dy + 1))
                    && Adds(m, h, is4Connected, ex, ey) && p == Point(h.x + ex, h.y + ey);
      if ex < dx || ey < dy {
        assert p in b;
      } else {
        assert ex == dx && ey == dy;
        assert p in step;
      }
    }
  }

  /** The neighbours met before offset (dx, dy), and the one at (dx, dy), are met up to it. */
  lemma NeighboursBeforeStepGrows(m: array2<real>, h: Point, is4Connected: bool, dx: int, dy: int)
    requires Interior(m, h) && -1 <= dx <= 1 && -1 <= dy <= 1
    ensures NeighboursBefore(m, h, is4Connected, dx, dy) + Step(m, h, is4Connected, dx, dy)
            <= NeighboursBefore(m, h, is4Connected, dx, dy + 1)
  {
    var a := NeighboursBefore(m, h, is4Connected, dx, dy + 1);
    forall p | p in NeighboursBefore(m, h, is4Connected, dx, dy) ensures p in a {
      var ex, ey :| -1 <= ex <= 1 && -1 <= ey <= 1 && (ex < dx || (ex == dx && ey < dy))
                    && Adds(m, h, is4Connected, ex, ey) && p == Point(h.x + ex, h.y + ey);
      assert p in a;
    }
  }

  /** Adds spelled the way the scan tests it: not the centre, not a hole cell, and a neighbour by the rule. */
  lemma AddsAsTested(m: array2<real>, h: Point, is4Connected: bool, dx: int, dy: int)
    requires Interior(m, h) && -1 <= dx <= 1 && -1 <= dy <= 1
    ensures Adds(m, h, is4Connected, dx, dy)
            <==> !(dx == 0 && dy == 0) && !(m[h.x + dx, h.y + dy] < PixelThreshold)
                 && (!(Abs(dx) + Abs(dy) == 2) && is4Connected)
  {
  }

  lemma NeighboursBeforeNextRow(m: array2<real>, h: Point, is4Connected: bool, dx: int)
    requires Interior(m, h)
    ensures NeighboursBefore(m, h, is4Connected, dx, 2) == NeighboursBefore(m, h, is4Connected, dx + 1, -1)
  {
  }

  /** What visiting offset (dx, dy) of hole `h` adds: that one neighbour, or nothing. */
  ghost function Step(m: array2<real>, h: Point, is4Connected: bool, dx: int, dy: int): set<Point>
    reads m
  {
    if Adds(m, h, is4Connected, dx, dy) then {Point(h.x + dx, h.y + dy)} else {}
  }

  /** What the scan of hole `h` adds in row offset dx before it reaches column offset ny. */
  ghost function RowScanned(m: array2<real>, h: Point, is4Connected: bool, dx: int, ny: int): set<Point>
    reads m
    decreases ny + 1
  {
    if ny <= -1 then {} else RowScanned(m, h, is4Connected, dx, ny - 1) + Step(m, h, is4Connected, dx, ny - 1)
  }

  /** What the scan of hole `h` adds in the row offsets before nx. */
  ghost function RowsScanned(m: array2<real>, h: Point, is4Connected: bool, nx: int): set<Point>
    reads m
    decreases nx + 1
  {
    if nx <= -1 then {} else RowsScanned(m, h, is4Connected, nx - 1) + RowScanned(m, h, is4Connected, nx - 1, 2)
  }

  /** Visiting column offset dy adds the point of Step, and nothing else, to what was there. */
  lemma RowScannedStep(m: array2<real>, h: Point, is4Connected: bool, base: set<Point>, dx: int, dy: int)
    requires -1 <= dy
    ensures Adds(m, h, is4Connected, dx, dy) ==>
              base + RowScanned(m, h, is4Connected, dx, dy) + {Point(h.x + dx, h.y + dy)}
              == base + RowScanned(m, h, is4Connected, dx, dy + 1)
    ensures !Adds(m, h, is4Connected, dx, dy) ==>
              base + RowScanned(m, h, is4Connected, dx, dy) == base + RowScanned(m, h, is4Connected, dx, dy + 1)
  {
    assert RowScanned(m, h, is4Connected, dx, dy + 1)
           == RowScanned(m, h, is4Connected, dx, dy) + Step(m, h, is4Connected, dx, dy);
  }

  /** Finishing row offset dx adds that row's points to what was there. */
  lemma RowsScannedStep(m: array2<real>, h: Point, is4Connected: bool, base: set<Point>, dx: int)
    requires -1 <= dx
    ensures base + RowsScanned(m, h, is4Connected, dx) + RowScanned(m, h, is4Connected, dx, 2)
            == base + RowsScanned(m, h, is4Connected, dx + 1)
  {
    assert RowsScanned(m, h, is4Connected, dx + 1)
           == RowsScanned(m, h, is4Connected, dx) + RowScanned(m, h, is4Connected, dx, 2);
  }

  /** Within a row offset, the scan has added the neighbours at the offsets it has visited. */
  lemma {:induction false} RowScannedIsNeighboursBefore(m: array2<real>, h: Point, is4Connected: bool, dx: int, ny: int)
    requires Interior(m, h) && -1 <= dx <= 1 && -1 <= ny <= 2
    requires RowsScanned(m, h, is4Connected, dx) == NeighboursBefore(m, h, is4Connected, dx, -1)
    ensures RowsScanned(m, h, is4Connected, dx) + RowScanned(m, h, is4Connected, dx, ny)
            == NeighboursBefore(m, h, is4Connected, dx, ny)
    decreases ny + 1
  {
    if ny > -1 {
      var done, row, step := RowsScanned(m, h, is4Connected, dx), RowScanned(m, h, is4Connected, dx, ny - 1),
                             Step(m, h, is4Connected, dx, ny - 1);
      RowScannedIsNeighboursBefore(m, h, is4Connected, dx, ny - 1);
      NeighboursBeforeStep(m, h, is4Connected, dx, ny - 1);
      calc {
        done + RowScanned(m, h, is4Connected, dx, ny);
        done + (row + step);
        (done + row) + step;
        NeighboursBefore(m, h, is4Connected, dx, ny - 1) + step;
        NeighboursBefore(m, h, is4Connected, dx, ny);
      }
    }
  }

  /** After the row offsets before nx, the scan has added the neighbours at the offsets it has visited. */
  lemma {:induction false} RowsScannedIsNeighboursBefore(m: array2<real>, h: Point, is4Connected: bool, nx: int)
    requires Interior(m, h) && -1 <= nx <= 2
    ensures RowsScanned(m, h, is4Connected, nx) == NeighboursBefore(m, h, is4Connected, nx, -1)
    decreases nx + 1
  {
    if nx == -1 {
      assert NeighboursBefore(m, h, is4Connected, -1, -1) == {};
    } else {
      RowsScannedIsNeighboursBefore(m, h, is4Connected, nx - 1);
      RowScannedIsNeighboursBefore(m, h, is4Connected, nx - 1, 2);
      NeighboursBeforeNextRow(m, h, is4Connected, nx - 1);
    }
  }

  /** Once all offsets are visited, hole `h` has contributed its share of the border set. */
  lemma BorderSetAdd(m: array2<real>, holes: set<Point>, h: Point, is4Connected: bool)
    ensures BorderSet(m, holes + {h}, is4Connected)
            == BorderSet(m, holes, is4Connected) + NeighboursBefore(m, h, is4Connected, 2, -1)
  {
    var lhs := BorderSet(m, holes + {h}, is4Connected);
    var rhs := BorderSet(m, holes, is4Connected) + NeighboursBefore(m, h, is4Connected, 2, -1);
    forall p | p in lhs ensures p in rhs {
      var g, dx, dy :| g in holes + {h} && -1 <= dx <= 1 && -1 <= dy <= 1 && Adds(m, g, is4Connected, dx, dy) && p == Point(g.x + dx, g.y + dy);
      if g in holes {
        assert p in BorderSet(m, holes, is4Connected);
      } else {
        assert p in NeighboursBefore(m, h, is4Connected, 2, -1);
      }
    }
    forall p | p in rhs ensures p in lhs {
      if p in BorderSet(m, holes, is4Connected) {
        var g, dx, dy :| g in holes && -1 <= dx <= 1 && -1 <= dy <= 1 && Adds(m, g, is4Connected, dx, dy) && p == Point(g.x + dx, g.y + dy);
        assert g in holes + {h};
      } else {
        var dx, dy :| -1 <= dx <= 1 && -1 <= dy <= 1 && Adds(m, h, is4Connected, dx, dy) && p == Point(h.x + dx, h.y + dy);
        assert h in holes + {h};
      }
    }
  }

  /**
   * The step of the border scan's outer loop: after `base` plus the border of `holes`, the
   * 9-offset scan of one more hole h yields `base` plus the border of holes + {h}.
   */
  lemma BorderSetGrows(m: array2<real>, base: set<Point>, holes: set<Point>, h: Point, is4Connected: bool)
    requires Interior(m, h)
    ensures base + BorderSet(m, holes, is4Connected) + RowsScanned(m, h, is4Connected, 2)
            == base + BorderSet(m, holes + {h}, is4Connected)
  {
    RowsScannedIsNeighboursBefore(m, h, is4Connected, 2);
    BorderSetAdd(m, holes, h, is4Connected);
  }

  /**
   * Every border point is a cell of the grid whose mask value is not below the threshold; so
   * when the holes come from the mask, no hole is a border point, and no hole adds itself.
   */
  lemma BorderPointsAreKnown(m: array2<real>, holes: set<Point>, is4Connected: bool)
    requires AllHoleCells(m, holes)
    ensures AllInterior(m, holes)
    ensures AllBorderCells(m, BorderSet(m, holes, is4Connected))
    ensures BorderSet(m, holes, is4Connected) !! holes
  {
    assert AllInterior(m, holes);
    forall b | b in BorderSet(m, holes, is4Connected)
      ensures InGrid(m, b) && At(m, b) >= PixelThreshold
    {
      var h, dx, dy :| h in holes && -1 <= dx <= 1 && -1 <= dy <= 1 && Adds(m, h, is4Connected, dx, dy) && b == Point(h.x + dx, h.y + dy);
    }
  }

  /**
   * The border set as the code builds it. In 4-connected mode it holds exactly the known cells
   * that are an axis-aligned neighbour of some hole; in 8-connected mode it is empty.
   */
  lemma BorderSetAsWritten(m: array2<real>, holes: set<Point>)
    requires AllInterior(m, holes)
    ensures BorderSet(m, holes, false) == {}
    ensures forall b :: b in BorderSet(m, holes, true) <==>
              InGrid(m, b) && At(m, b) >= PixelThreshold && exists h :: h in holes && AxisNeighbours(h, b)
  {
    forall b | InGrid(m, b) && At(m, b) >= PixelThreshold && exists h :: h in holes && AxisNeighbours(h, b)
      ensures b in BorderSet(m, holes, true)
    {
      var h :| h in holes && AxisNeighbours(h, b);
      var dx, dy := b.x - h.x, b.y - h.y;
      assert Adds(m, h, true, dx, dy);
      assert b == Point(h.x + dx, h.y + dy);
    }
    forall b | b in BorderSet(m, holes, true)
      ensures InGrid(m, b) && exists h :: h in holes && AxisNeighbours(h, b)
    {
      var h, dx, dy :| h in holes && -1 <= dx <= 1 && -1 <= dy <= 1 && Adds(m, h, true, dx, dy) && b == Point(h.x + dx, h.y + dy);
      assert AxisNeighbours(h, b);
    }
  }

  /** Adding holes never removes border points. */
  lemma BorderSetMonotone(m: array2<real>, a: set<Point>, b: set<Point>, is4Connected: bool)
    requires a <= b
    ensures BorderSet(m, a, is4Connected) <= BorderSet(m, b, is4Connected)
  {
    forall p | p in BorderSet(m, a, is4Connected) ensures p in BorderSet(m, b, is4Connected) {
      var h, dx, dy :| h in a && -1 <= dx <= 1 && -1 <= dy <= 1 && Adds(m, h, is4Connected, dx, dy) && p == Point(h.x + dx, h.y + dy);
      assert h in b;
    }
  }

  /**
   * The discrepancy of the as-written rule: a hole with a known neighbour at any of its 8
   * offsets gives a non-empty border under the intended 8-connected rule, yet the code's
   * 8-connected border set is empty.
   */
  lemma EightConnectedBorderLost(m: array2<real>, holes: set<Point>, h: Point, d: Point)
    requires AllInterior(m, holes) && h in holes && IsOffset(d)
    requires m[h.x + d.x, h.y + d.y] >= PixelThreshold
    ensures BorderSet(m, holes, false) == {}
    ensures Point(h.x + d.x, h.y + d.y) in IntendedBorderSet(m, holes, false)
  {
    BorderSetAsWritten(m, holes);
    assert IntendedAdds(m, h, false, d.x, d.y);
  }

  /** Under the intended rule, every 4-connected border point is also an 8-connected one. */
  lemma IntendedConnectivityMonotone(m: array2<real>, holes: set<Point>)
    ensures IntendedBorderSet(m, holes, true) <= IntendedBorderSet(m, holes, false)
  {
    forall p | p in IntendedBorderSet(m, holes, true) ensures p in IntendedBorderSet(m, holes, false) {
      var h, dx, dy :| h in holes && -1 <= dx <= 1 && -1 <= dy <= 1 && IntendedAdds(m, h, true, dx, dy)
                       && p == Point(h.x + dx, h.y + dy);
      assert IntendedAdds(m, h, false, dx, dy);
    }
  }

  /** In 4-connected mode the intended rule and the code's rule build the same border set. */
  lemma IntendedAgreesInFourConnectedMode(m: array2<real>, holes: set<Point>)
    ensures IntendedBorderSet(m, holes, true) == BorderSet(m, holes, true)
  {
    forall p | p in IntendedBorderSet(m, holes, true) ensures p in BorderSet(m, holes, true) {
      var h, dx, dy :| h in holes && -1 <= dx <= 1 && -1 <= dy <= 1 && IntendedAdds(m, h, true, dx, dy)
                       && p == Point(h.x + dx, h.y + dy);
      assert Adds(m, h, true, dx, dy);
    }
    forall p | p in BorderSet(m, holes, true) ensures p in IntendedBorderSet(m, holes, true) {
      var h, dx, dy :| h in holes && -1 <= dx <= 1 && -1 <= dy <= 1 && Adds(m, h, true, dx, dy)
                       && p == Point(h.x + dx, h.y + dy);
      assert IntendedAdds(m, h, true, dx, dy);
    }
  }

  /** Under the intended rule, a known diagonal neighbour of a hole is an 8-connected border point. */
  lemma IntendedDiagonalCounts(m: array2<real>, holes: set<Point>, h: Point, d: Point)
    requires AllInterior(m, holes) && h in holes && IsOffset(d) && IsCorner(d)
    requires m[h.x + d.x, h.y + d.y] >= PixelThreshold
    ensures Point(h.x + d.x, h.y + d.y) in IntendedBorderSet(m, holes, false)
    ensures Point(h.x + d.x, h.y + d.y) in BorderSet(m, holes, true) <==> exists g :: g in holes && AxisNeighbours(g, Point(h.x + d.x, h.y + d.y))
  {
    assert IntendedAdds(m, h, false, d.x, d.y);
    BorderSetAsWritten(m, holes);
  }
}
