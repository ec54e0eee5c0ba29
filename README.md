# Hole filling over a mask

This project models the hole-filling core of `ImageManager`. The manager owns two grids of the
same size: an image and a mask. The mask marks missing pixels with values below 0.5. The
pipeline runs in four steps:

1. `CalculateHoleSet` collects the interior mask cells below the threshold into the hole set.
2. `CalculateBorderSet` visits the 8 offsets around each hole. It adds each offset cell that
   the neighbour rule counts and that the mask does not mark as a hole.
3. `FillHolesInImage` overwrites each hole cell with I(u). I(u) is the weighted mean of the
   border values, with weights w(u, b) seen from the hole u.
4. `ApproximateFill` evaluates I once, at the hole set's centroid truncated to integers. It
   writes that one value into every hole cell.

The model has three modules:

- `PointSets`:
  - the point type;
  - the hole set and the border set, as specification functions of the mask;
  - the neighbour rule, as written and as intended.
- `Interpolation`:
  - order-independent sums over a point set;
  - I(u), as the datatype `Sample`, which is a value or `Undefined` for 0/0;
  - the centroid;
  - convexity.
- `HoleFilling`: the class `ImageManager`. Its fields are the two point sets, the image and
  mask as `array2<real>`, the weight function and the connectivity flag.

The source's loops are `while` and `for` loops here. Each is proved against the specification
functions. The Java `HashSet` loops visit an arbitrary element each time (`:|`), so every
result is proved for any visiting order.

The neighbour rule the code applies differs from the one its own words describe. The comment at
`ImageManager.java:137` says each hole's "4 or 8 neighbors" are checked. `Main.java:10,13` reads
a "4-or8 flag" and sets `is_4_connection_flag` when it equals 4. Together they mean that
8-connected mode also counts the diagonal offsets. The code at `ImageManager.java:170`, however,
counts an offset only when it is not a corner and the 4-connected flag is set. So in 8-connected
mode the code never adds a border point. The class follows the code:

- `BorderSetAsWritten` proves that the 8-connected border set is empty.
- `EightConnectedBorderLost` shows a hole with a known neighbour that is a border point under
  the intended rule but not in the code's set.

The intended rule is `IntendedBorderSet`, and its properties are proved separately.

Two assumptions about the inputs:

- The weight function is a parameter of the constructor. It is assumed only to be positive,
  as `1 / (0.01 + (dx² + dy²)^1.5)` is, where dx and dy are the coordinate differences.
- Pixel values are reals in [0, 1], as the loader produces by dividing by 255.

## Model

| member | source | states |
|---|---|---|
| PointSets.HoleSetShape | src/holeFilling/ImageManager.java:111-130 | every hole point is an interior cell (not on the outer ring) with mask value below 0.5; a grid with fewer than 3 rows or 3 columns has no holes |
| PointSets.HolesBeforeStep | src/holeFilling/ImageManager.java:121-128 | one column step of the row-major scan adds (row, col) exactly when its mask value is below the threshold, and nothing otherwise |
| PointSets.NeighbourInGrid | src/holeFilling/ImageManager.java:142 | every offset cell of an interior cell is inside the grid, so the border scan's mask reads are in bounds |
| PointSets.AddsAsTested | src/holeFilling/ImageManager.java:159-172 | the scan's test: skip the centre, compute the corner flag, the hole flag and the neighbour flag; it adds a cell exactly when the predicate `Adds` holds for that offset |
| PointSets.RowScannedIsNeighboursBefore | src/holeFilling/ImageManager.java:152-177 | the cells added by the inner offset loops so far are the border points that hole contributes for the offsets visited so far |
| PointSets.RowsScannedIsNeighboursBefore | src/holeFilling/ImageManager.java:152-177 | after the outer offset loop has reached row offset nx, the added cells are the hole's contributions for every offset before (nx, -1) |
| PointSets.BorderSetAdd | src/holeFilling/ImageManager.java:147-179 | the border set of holes + {h} is the border set of holes plus everything hole h contributes over its 8 offsets |
| PointSets.BorderSetGrows | src/holeFilling/ImageManager.java:147-179 | scanning one more hole turns the border set of the holes visited so far into the border set of those holes plus the new one |
| PointSets.BorderPointsAreKnown | src/holeFilling/ImageManager.java:159-175 | when the holes come from the mask, every border point is a grid cell with mask value at least 0.5, and the border set is disjoint from the hole set (so the centre is never added) |
| PointSets.BorderSetAsWritten | src/holeFilling/ImageManager.java:163-175 | with the 4-connected flag, b is a border point iff b is a known cell axis-adjacent to some hole (both directions); without it the border set is empty |
| PointSets.BorderSetMonotone | src/holeFilling/ImageManager.java:147-179 | more holes never remove a border point |
| PointSets.EightConnectedBorderLost | src/holeFilling/ImageManager.java:170 | a hole with a known neighbour at any offset gives that neighbour as an 8-connected border point under the intended rule, while the code's 8-connected border set is empty |
| PointSets.IntendedConnectivityMonotone | src/holeFilling/ImageManager.java:170 | under the intended rule, every 4-connected border point is also an 8-connected one |
| PointSets.IntendedAgreesInFourConnectedMode | src/holeFilling/ImageManager.java:170 | in 4-connected mode the intended rule and the code's rule give the same border set |
| PointSets.IntendedDiagonalCounts | src/holeFilling/ImageManager.java:163-170 | under the intended rule a known diagonal neighbour is an 8-connected border point; under the code's 4-connected rule it is one only if it is also axis-adjacent to some hole |
| Interpolation.SumRemove | src/holeFilling/ImageManager.java:208-213 | any point can be taken out of the sum first, so the accumulated sums do not depend on the order of the border set |
| Interpolation.WeightedSumsStep | src/holeFilling/ImageManager.java:210-212 | adding w(u, b) * value(b) and w(u, b) to the running sums gives the numerator and denominator over the points visited so far plus b |
| Interpolation.IuUndefinedIffNoBorder | src/holeFilling/ImageManager.java:214 | with positive weights, the division is 0/0 exactly when the border set is empty |
| Interpolation.IuIsConvex | src/holeFilling/ImageManager.java:203-215 | with positive weights and border values in [lo, hi], I(u) is defined and lies in [lo, hi] |
| Interpolation.IuWithinBorderRange | src/holeFilling/ImageManager.java:203-215 | I(u) lies between the smallest and the largest border value |
| Interpolation.IuOfUniformBorder | src/holeFilling/ImageManager.java:203-215 | a border of one uniform value c gives I(u) = c |
| Interpolation.TruncatedMeanWithin | src/holeFilling/ImageManager.java:256-259 | a mean of values in [lo, hi] with 0 <= lo, cast to int, stays in [lo, hi] |
| Interpolation.CentroidInBox | src/holeFilling/ImageManager.java:247-259 | the truncated mean coordinate of points inside a box with non-negative corners lies in that box |
| HoleFilling.CentroidOfHolesIsInterior | src/holeFilling/ImageManager.java:256-261 | the centroid of a non-empty hole set is an interior cell, so the approximate fill evaluates I at a cell of the grid |
| HoleFilling.CentroidOfSingleton | src/holeFilling/ImageManager.java:247-261 | a one-point hole's centroid is that point, so for it the approximate fill writes the exact value |
| HoleFilling.ImageManager.constructor | src/holeFilling/ImageManager.java:39-58 | a manager over existing grids of equal size, with both point sets empty and the given flag and weights |
| HoleFilling.ImageManager.CalculateHoleSet | src/holeFilling/ImageManager.java:109-131 | the hole set grows by exactly HoleSet(mask), and the manager stays valid |
| HoleFilling.ImageManager.ScanGrid | src/holeFilling/ImageManager.java:111-130 | the two nested loops over rows 1..R-2 and columns 1..C-2 add exactly HoleSet(mask) |
| HoleFilling.ImageManager.CalculateBorderSet | src/holeFilling/ImageManager.java:144-180 | the border set grows by exactly BorderSet(mask, holes, flag), ends disjoint from the hole set, and the manager stays valid |
| HoleFilling.ImageManager.ScanHoles | src/holeFilling/ImageManager.java:147-179 | the loop over the hole set, in any order, adds exactly BorderSet(mask, holes, flag) |
| HoleFilling.ImageManager.AddNeighbours | src/holeFilling/ImageManager.java:149-178 | the offset loops around one hole add exactly that hole's contribution over all its offsets |
| HoleFilling.ImageManager.ScanOffsetRow | src/holeFilling/ImageManager.java:154-177 | the inner loop for one row offset adds exactly the counted, known neighbours in that row |
| HoleFilling.ImageManager.GetPixel | src/holeFilling/ImageManager.java:224-229 | the value of image cell p; when every pixel lies in [0, 1], so does the returned value |
| HoleFilling.ImageManager.SetPixel | src/holeFilling/ImageManager.java:217-222 | cell p takes the value, every other cell keeps its value, and values in [0, 1] stay in [0, 1] |
| HoleFilling.ImageManager.CalculateIu | src/holeFilling/ImageManager.java:203-215 | the result is I(u) over the current border values; it is Undefined exactly when the border set is empty, and otherwise lies in [0, 1] |
| HoleFilling.ImageManager.AccumulateIu | src/holeFilling/ImageManager.java:205-213 | the loop over the border set, in any order, yields the sum of w(u, b) * value(b) and the sum of w(u, b) |
| HoleFilling.ImageManager.FillHole | src/holeFilling/ImageManager.java:192-193 | one iteration: it succeeds exactly when the border set is non-empty, writes I(hole) at hole, and changes no other cell |
| HoleFilling.ImageManager.FillHolesInImage | src/holeFilling/ImageManager.java:187-195 | each hole cell ends holding I(p) over the original border values, whatever the order; no cell outside the hole set changes; with an empty border (and some hole) it fails and writes nothing |
| HoleFilling.ImageManager.HoleCentroid | src/holeFilling/ImageManager.java:247-259 | the coordinate sums divided by the hole count and truncated are the centroid of the hole set |
| HoleFilling.ImageManager.SumCoordinates | src/holeFilling/ImageManager.java:250-254 | the loop over the hole set, in any order, yields the sum of the row and the sum of the column coordinates |
| HoleFilling.ImageManager.ApproximateFill | src/holeFilling/ImageManager.java:243-267 | every hole cell ends holding the same value, I at the centroid over the original border values; no other cell changes; an empty hole set changes nothing, and an empty border fails and writes nothing |
| HoleFilling.ImageManager.WriteHoles | src/holeFilling/ImageManager.java:263-266 | the write loop puts v into every hole cell and changes no other cell |

## Left out

- Loading the image and the mask from files (`Imgcodecs.imread`), the `Mat` conversions
  `MatrixToFloatMatrix` and `ImageFloatMatrixToMatrix`, and `GetImageMatrix`. These are foreign
  OpenCV calls. The grids are given to the constructor, and the constructor requires equal
  dimensions, which the code takes from the image alone and never checks.
- `Main.java`: argument parsing, native library loading and writing the result files. They are
  I/O.
- `DefaultWeightFunction`: `Math.pow` with exponent 1.5 in floats. It cannot be expressed over
  reals, so it is replaced by any weight function with positive values.
- Float rounding: sums and quotients are exact reals, and convexity is stated over reals.
- HashSet order and `Point` hashing: sets of value-equal points, visited in an arbitrary order.
- HoleFilling.ImageManager.FillHolesInImage: with an empty border set and some hole, Java writes
  NaN (0/0) into every hole cell. The model reports failure and writes nothing; NaN is not a real.
- HoleFilling.ImageManager.ApproximateFill: with an empty border set, Java writes NaN into every
  hole cell. The model reports failure and writes nothing. With an empty hole set, Java evaluates
  I at the cast of NaN before writing nothing; the model skips that evaluation, which has no effect.
- HoleFilling.ImageManager.GetPixel: its contract states only the range of the value. That the
  value is cell p's is its body, which its callers read directly.
