# Hexagonal grid: cube coordinates and map generation

This project models the hexagonal-grid library of `level_1_hexagonal` in
Dafny and proves properties of the model.

- `coord.dfy` (module `HexCoord`) models `hexagonal/coord.rs`. A cell is an integer
  triple `(x, y, z)` on the plane `x + y + z == 0`. The module covers:
  - the validating constructor and its error message;
  - the component-wise operators `+`, `-` and `* k`;
  - the hex length and distance;
  - the six-entry direction table with `direction` and `neighbour`;
  - the cube rounding that turns a fractional coordinate into a cell.

  The module is pure: datatypes, functions and lemmas. Machine integers
  (`i32`, `usize`) are unbounded `int` and `nat`, and `f32` values are reals.
- `map.dfy` (module `HexMap`) models `hexagonal/map.rs`. `Map::new` fills a local
  dictionary through nested loops. Here it is a method that updates a
  `map<Coord, T>` inside `while` loops:
  - a parallelogram gets one entry per index pair `(q, r)` in `[-Q, Q) x [-R, R)`;
  - a hexagon gets one entry per cell within `radius` of the origin;
  - the other shapes get no entries.

  The loop invariants state which keys have been inserted so far, that every
  stored value is the shape's function applied to its key, and how many
  entries there are. From them the method contracts prove three things. The
  parallelogram has exactly `4QR` entries. The hexagon's keys are exactly the
  cells of length at most `radius`, `3R(R+1) + 1` of them. Every `unwrap` of
  the constructor succeeds.

## Model

| member | source | states |
|---|---|---|
| HexCoord.NatToDecimal | level_1_hexagonal/src/hexagonal/coord.rs:131-135 | the decimal spelling of a natural is a non-empty digit string with no leading zero unless the number is 0 |
| HexCoord.DecimalRoundTrip | level_1_hexagonal/src/hexagonal/coord.rs:131-135 | reading the decimal spelling back gives the number that was spelled |
| HexCoord.IntToDecimal | level_1_hexagonal/src/hexagonal/coord.rs:131-135 | the signed spelling starts with '-' exactly for negatives and reads back to the number |
| HexCoord.Show | level_1_hexagonal/src/hexagonal/coord.rs:131-135 | the displayed form of a coordinate is at least 7 characters, opens with '(' and closes with ')'; its field layout is pinned by ShowExample and ShowInjective |
| HexCoord.IntToDecimalInjective | level_1_hexagonal/src/hexagonal/coord.rs:131-135 | different integers are never spelled the same |
| HexCoord.ShowInjective | level_1_hexagonal/src/hexagonal/coord.rs:131-135 | equal displayed forms come only from equal triples, so the constructor's error message identifies the rejected triple |
| HexCoord.New | level_1_hexagonal/src/hexagonal/coord.rs:23-31 | construction succeeds exactly when x + y + z == 0 and then yields that triple on the plane; otherwise the error is the displayed triple followed by " is not on the hexa plane" |
| HexCoord.ShowExample | level_1_hexagonal/src/hexagonal/coord.rs:155-157 | the triple (1,2,3) displays as "(1,2,3)" |
| HexCoord.NewRejectsOffPlane | level_1_hexagonal/src/hexagonal/coord.rs:155-157 | new(1,2,3) is the error "(1,2,3) is not on the hexa plane" |
| HexCoord.NewAcceptsOnPlane | level_1_hexagonal/src/hexagonal/coord.rs:141-152 | new(0,0,0) and new(1,2,-3) succeed with those components |
| HexCoord.Equals | level_1_hexagonal/src/hexagonal/coord.rs:100-104 | component-wise equality holds exactly for equal coordinates |
| HexCoord.Add | level_1_hexagonal/src/hexagonal/coord.rs:107-113 | the component sum of a + b is the sum of the operands' component sums |
| HexCoord.Sub | level_1_hexagonal/src/hexagonal/coord.rs:115-121 | the component sum of a - b is the difference of the operands' component sums |
| HexCoord.Mul | level_1_hexagonal/src/hexagonal/coord.rs:123-129 | the component sum of c * k is k times the component sum of c |
| HexCoord.PlaneClosed | level_1_hexagonal/src/hexagonal/coord.rs:107-129 | +, - and * k keep on-plane operands on the plane, although they bypass the constructor |
| HexCoord.AddCommutative | level_1_hexagonal/src/hexagonal/coord.rs:182-183 | a + b == b + a |
| HexCoord.AddAssociative | level_1_hexagonal/src/hexagonal/coord.rs:178-180 | (a + b) + c == a + (b + c) |
| HexCoord.AddIdentity | level_1_hexagonal/src/hexagonal/coord.rs:171-172 | ZERO is a two-sided identity of + |
| HexCoord.AddExample | level_1_hexagonal/src/hexagonal/coord.rs:173-176 | (1,2,-3) + (-4,5,-1) == (-3,7,-4) |
| HexCoord.SubInvertsAdd | level_1_hexagonal/src/hexagonal/coord.rs:107-121 | - undoes + and + undoes -; a - a == ZERO |
| HexCoord.AddThenSubtract | level_1_hexagonal/src/hexagonal/coord.rs:107-121 | adding u and then ZERO - u returns to the start |
| HexCoord.SubExample | level_1_hexagonal/src/hexagonal/coord.rs:190-195 | ZERO - ZERO == ZERO and (1,2,-3) - (-4,5,-1) == (5,-3,-2) |
| HexCoord.SubCommutesOnlyOnEqual | level_1_hexagonal/src/hexagonal/coord.rs:201-202 | a - b == b - a if and only if a == b |
| HexCoord.SubAssociatesOnlyWithZero | level_1_hexagonal/src/hexagonal/coord.rs:197-199 | (a - b) - c == a - (b - c) if and only if c == ZERO |
| HexCoord.SubNotAssociativeNorCommutative | level_1_hexagonal/src/hexagonal/coord.rs:197-202 | the test's triples witness that - is neither associative nor commutative |
| HexCoord.MulExample | level_1_hexagonal/src/hexagonal/coord.rs:208-218 | ZERO * k == ZERO and (1,2,-3) * k == (k,2k,-3k) for every k |
| HexCoord.MulDistributes | level_1_hexagonal/src/hexagonal/coord.rs:107-129 | (a + b) * k == a * k + b * k |
| HexCoord.Length | level_1_hexagonal/src/hexagonal/coord.rs:43-45 | the length is non-negative, and on the plane the halving is exact |
| HexCoord.LengthIsMaxComponent | level_1_hexagonal/src/hexagonal/coord.rs:43-45 | on the plane the length is the largest absolute component |
| HexCoord.Distance | level_1_hexagonal/src/hexagonal/coord.rs:47-49 | distance is non-negative and 0 from a cell to itself |
| HexCoord.DistanceToZero | level_1_hexagonal/src/hexagonal/coord.rs:224-225 | the distance to ZERO is the length |
| HexCoord.DistanceSymmetric | level_1_hexagonal/src/hexagonal/coord.rs:230-231 | distance(a, b) == distance(b, a) |
| HexCoord.DistanceAfterStep | level_1_hexagonal/src/hexagonal/coord.rs:47-57 | stepping by u moves a cell by length(u) |
| HexCoord.DistanceExample | level_1_hexagonal/src/hexagonal/coord.rs:224-228 | distance((1,2,-3), (4,5,-9)) == 6 and the distance of (1,2,-3) to ZERO is 3 |
| HexCoord.DistanceZeroIffEqual | level_1_hexagonal/src/hexagonal/coord.rs:47-49 | on the plane, distance 0 holds exactly between equal cells |
| HexCoord.LengthSubadditive | level_1_hexagonal/src/hexagonal/coord.rs:43-45 | length(u + v) <= length(u) + length(v) on the plane |
| HexCoord.DistanceTriangle | level_1_hexagonal/src/hexagonal/coord.rs:47-49 | distance obeys the triangle inequality on the plane |
| HexCoord.LengthOfMul | level_1_hexagonal/src/hexagonal/coord.rs:123-129 | scaling an on-plane cell by k scales its length by abs(k) |
| HexCoord.DirectionIsUnit | level_1_hexagonal/src/hexagonal/coord.rs:51-53 | every direction, for any index, is on the plane with length 1 |
| HexCoord.NeighbourIsAdjacent | level_1_hexagonal/src/hexagonal/coord.rs:55-57 | a neighbour of an on-plane cell is on the plane at distance 1 |
| HexCoord.OppositeEntry | level_1_hexagonal/src/hexagonal/coord.rs:14-21 | table entry i + 3 (cyclically) is the negation of entry i |
| HexCoord.DirectionOpposite | level_1_hexagonal/src/hexagonal/coord.rs:51-53 | direction(d + 3) == ZERO - direction(d) for every d |
| HexCoord.NeighbourRoundTrip | level_1_hexagonal/src/hexagonal/coord.rs:255-258 | c.neighbour(d).neighbour(d + 3) == c for every cell and direction |
| HexCoord.NeighbourExample | level_1_hexagonal/src/hexagonal/coord.rs:242-243 | two steps in direction 0 from ZERO reach (2,0,-2) |
| HexCoord.NeighboursAreUnitCells | level_1_hexagonal/src/hexagonal/coord.rs:14-21 | the table holds exactly the on-plane cells of length 1 |
| HexCoord.NeighboursDistinct | level_1_hexagonal/src/hexagonal/coord.rs:14-21 | the six table entries are pairwise different |
| HexCoord.Round | level_1_hexagonal/src/hexagonal/coord.rs:80-82 | rounding misses by at most one half, and a value exactly halfway is rounded away from zero |
| HexCoord.Repair | level_1_hexagonal/src/hexagonal/coord.rs:83-96 | for any rounded components the result is on the plane; the recomputed component is one with the largest rounding error, the later one on a tie, and the other two are kept |
| HexCoord.FromFCoord | level_1_hexagonal/src/hexagonal/coord.rs:78-97 | every fractional coordinate converts to a cell on the plane: each component is rounded and the one with the largest rounding error (the later one on a tie) is recomputed from the other two |
| HexCoord.FromFCoordKeepsPlaneRounding | level_1_hexagonal/src/hexagonal/coord.rs:86-96 | when the rounded components already sum to 0, the conversion returns them unchanged |
| HexCoord.FromFCoordRoundTrip | level_1_hexagonal/src/hexagonal/coord.rs:78-97 | converting a cell to fractional form and back gives the cell |
| HexCoord.RepairNear | level_1_hexagonal/src/hexagonal/coord.rs:86-94 | for a point on the plane whose rounded components are within one half, every repaired component is within 1 |
| HexCoord.FromFCoordNear | level_1_hexagonal/src/hexagonal/coord.rs:78-97 | a fractional point on the plane converts to a cell within 1 of it in every component |
| HexMap.ParallelogramCellRoundTrip | level_1_hexagonal/src/hexagonal/map.rs:27-40 | each direction arm builds an on-plane triple from which (q, r) can be read back |
| HexMap.ParallelogramAxesRoundTrip | level_1_hexagonal/src/hexagonal/map.rs:27-40 | every on-plane cell is the triple built from its own indices |
| HexMap.ParallelogramCellInjective | level_1_hexagonal/src/hexagonal/map.rs:25-41 | different index pairs give different cells |
| HexMap.FilledStep | level_1_hexagonal/src/hexagonal/map.rs:29-30 | an insert in loop order adds a new key and moves the inserted prefix one cell on |
| HexMap.GridCellsProduct | level_1_hexagonal/src/hexagonal/map.rs:25-26 | counting the nested loop row by row gives rows times width |
| HexMap.FilledNextRow | level_1_hexagonal/src/hexagonal/map.rs:25-26 | finishing the inner loop of row q is starting the inner loop of row q + 1 |
| HexMap.ParallelogramCells | level_1_hexagonal/src/hexagonal/map.rs:25-26 | 2Q rows of 2R cells make 4QR cells |
| HexMap.FillParallelogramRow | level_1_hexagonal/src/hexagonal/map.rs:26-41 | one inner loop adds row q: 2R new keys, values f(key), and no overwrite |
| HexMap.BuildParallelogram | level_1_hexagonal/src/hexagonal/map.rs:24-43 | the keys are exactly the on-plane cells whose indices lie in [-Q, Q) x [-R, R); every built triple is a key; every value is f(key); there are 4QR entries |
| HexMap.InHexagonBounds | level_1_hexagonal/src/hexagonal/map.rs:56-58 | on the plane, length <= radius holds exactly when every component is within [-radius, radius] |
| HexMap.RowsBeforeLeft | level_1_hexagonal/src/hexagonal/map.rs:55-58 | the rows of the loop left of the centre column, each from r1 to r2, add up to (q+R)(3R+q+1)/2 cells |
| HexMap.RowsBeforeRight | level_1_hexagonal/src/hexagonal/map.rs:55-58 | the rows up to column q, for q at or right of the centre, add up to the closed form that ends in 3R(R+1) + 1 |
| HexMap.HexagonRowsTotal | level_1_hexagonal/src/hexagonal/map.rs:55-58 | the rows from r1 to r2 over q in [-R, R] hold 3R(R+1) + 1 cells |
| HexMap.BuildHexagon | level_1_hexagonal/src/hexagonal/map.rs:54-66 | the keys are exactly the on-plane cells of length <= radius; every value is generator(key); there are 3R(R+1) + 1 entries, and none when radius < 0 |
| HexMap.New | level_1_hexagonal/src/hexagonal/map.rs:20-75 | parallelograms and hexagons get the key sets, values and sizes above; Triangle and Rectangle fall through to an empty map |
| HexMap.HexagonCountExamples | level_1_hexagonal/src/main.rs:57-79 | a negative radius gives 0 cells, and radii 0, 1 and 64 give 1, 7 and 12481 cells |

## Left out

- Integer width: `i32` overflow is not modelled. This covers the constructor's own plane test `x + y + z` (a wrapping sum accepts (i32::MAX, i32::MAX, 2), a debug build panics), the operators, `length` and the loop bounds. The `usize as i32` casts of the parallelogram bounds are not modelled either: coordinates are unbounded integers.
- Floating point: `f32` is modelled as exact reals.
  - `f32::round` is modelled as rounding half away from zero on a real.
  - The saturating `as i32` cast after rounding is not modelled.
  - `FCoord::new` (coord.rs:66-76) is not part of this model.
- `Coord::ring` (coord.rs:59-63) is not part of this model. It is an unfinished stub that returns an empty vector.
- `Display`: only the integer rendering the constructor's error message needs is modelled, not the formatter machinery.
- The accessors `x()`, `y()` and `z()` are the datatype's fields.
- `HashMap`: it is a Dafny `map`. Hashing and iteration order are not modelled.
- In the hexagon loop, the `red`, `green` and `blue` values are computed and never used. They are left out.
- The Triangle arm of `Map::new` is commented out in the source. The model, like the code, sends Triangle to the empty fall-through arm.
- Parallelogram loops: the inner loop is the helper method `FillParallelogramRow`. The outer loop in `BuildParallelogram` calls it once per row, so the nested-loop order is kept.
- HexCoord.Show: the contract fixes only the brackets and a minimum length; the comma-separated layout of the three spelled components is fixed by its body, with ShowExample and ShowInjective stating what it means for the error message.
- HexCoord.Direction and HexCoord.Neighbour carry no `ensures` of their own. Their properties are the lemmas DirectionIsUnit, NeighbourIsAdjacent, DirectionOpposite and NeighbourRoundTrip.
- `Layout`, `Orientation` and `Point` (hexagonal/mod.rs:10-124) are not part of this model. They are floating-point pixel transforms with `sin` and `cos`.
- `main.rs` is not part of this model, apart from the map size it prints. Its rendering and its colour generator are left out.
- The other programs in the repository are not part of this model: the pong, breakout and boids games, which are engine-driven floating-point simulations.
