/** Generation of hexagonal maps (hexagonal/map.rs).

    A map stores one value per cell of a region of the grid. `New` fills a
    local dictionary with nested loops over two cube axes, building each cell
    with the validating constructor and unwrapping the result, and storing the
    caller's generator applied to the cell. Only the parallelogram and the
    hexagon shapes generate cells; every other shape yields an empty map. */
module HexMap {
  import opened HexCoord

  /** The region to generate. `q` and `r` of a parallelogram are half-extents. */
  datatype MapShape<T> =
    | Parallelogram(q: nat, r: nat, direction: nat, f: Coord -> T)
    | Triangle(size: nat, pointy: bool)
    | Hexagon(radius: int, generator: Coord -> T)
    | Rectangle

  datatype Map<T> = Map(ground: map<Coord, T>)

  // ---------------------------------------------------------------------
  // Parallelogram

  /** The cell the parallelogram loops build from the indices (q, r): the two
      indices fill two of the three axes, chosen by `direction`, and the third
      axis is fixed by the plane. */
  function ParallelogramCell(q: int, r: int, direction: nat): Coord {
    if direction == 0 then Coord(q, r, -q - r)
    else if direction == 1 then Coord(q, -q - r, r)
    else Coord(-q - r, q, r)
  }

  /** The outer loop index a cell is built from, read back off its axis. */
  function AxisQ(c: Coord, direction: nat): int {
    if direction <= 1 then c.x else c.y
  }

  /** The inner loop index a cell is built from, read back off its axis. */
  function AxisR(c: Coord, direction: nat): int {
    if direction == 0 then c.y else c.z
  }

  /** The cells of the parallelogram with half-extents qs and rs. */
  predicate InParallelogram(c: Coord, qs: nat, rs: nat, direction: nat) {
    OnPlane(c) &&
    -(qs as int) <= AxisQ(c, direction) < qs &&
    -(rs as int) <= AxisR(c, direction) < rs
  }

  /** Every generated cell is on the plane and gives back its indices. */
  lemma ParallelogramCellRoundTrip(q: int, r: int, direction: nat)
    ensures OnPlane(ParallelogramCell(q, r, direction)) &&
            AxisQ(ParallelogramCell(q, r, direction), direction) == q &&
            AxisR(ParallelogramCell(q, r, direction), direction) == r
  {
  }

  /** Every cell on the plane is the cell generated from its own indices. */
  lemma ParallelogramAxesRoundTrip(c: Coord, direction: nat)
    requires OnPlane(c)
    ensures ParallelogramCell(AxisQ(c, direction), AxisR(c, direction), direction) == c
  {
  }

  /** Different indices give different cells, so no insertion overwrites another. */
  lemma ParallelogramCellInjective(q1: int, r1: int, q2: int, r2: int, direction: nat)
    requires (q1, r1) != (q2, r2)
    ensures ParallelogramCell(q1, r1, direction) != ParallelogramCell(q2, r2, direction)
  {
    ParallelogramCellRoundTrip(q1, r1, direction);
    ParallelogramCellRoundTrip(q2, r2, direction);
  }

  /** Cells in `rows` complete rows of `width` cells, counted row by row. */
  function GridCells(rows: nat, width: nat): nat {
    if rows == 0 then 0 else GridCells(rows - 1, width) + width
  }

  /** Counting row by row agrees with the product. */
  lemma {:induction false} GridCellsProduct(rows: nat, width: nat)
    ensures GridCells(rows, width) == rows * width
  {
    if rows > 0 {
      GridCellsProduct(rows - 1, width);
      assert (rows - 1) * width + width == rows * width;
    }
  }

  /** The parallelogram loops have inserted exactly the cells whose indices
      come before (q, r) in loop order. */
  ghost predicate FilledBefore(keys: set<Coord>, qs: nat, rs: nat, direction: nat, q: int, r: int) {
    forall c {:trigger c in keys} :: c in keys <==>
      InParallelogram(c, qs, rs, direction) &&
      (AxisQ(c, direction) < q || (AxisQ(c, direction) == q && AxisR(c, direction) < r))
  }

  /** One step of the inner loop inserts a new cell and moves past it. */
  lemma FilledStep(keys: set<Coord>, qs: nat, rs: nat, direction: nat, q: int, r: int)
    requires FilledBefore(keys, qs, rs, direction, q, r)
    requires -(qs as int) <= q < qs && -(rs as int) <= r < rs
    ensures ParallelogramCell(q, r, direction) !in keys
    ensures FilledBefore(keys + {ParallelogramCell(q, r, direction)}, qs, rs, direction, q, r + 1)
  {
    var cell := ParallelogramCell(q, r, direction);
    ParallelogramCellRoundTrip(q, r, direction);
    forall c | OnPlane(c) && AxisQ(c, direction) == q && AxisR(c, direction) == r
      ensures c == cell
    {
      ParallelogramAxesRoundTrip(c, direction);
    }
  }

  /** A finished row is the start of the next one. */
  lemma FilledNextRow(keys: set<Coord>, qs: nat, rs: nat, direction: nat, q: int)
    requires FilledBefore(keys, qs, rs, direction, q, rs)
    ensures FilledBefore(keys, qs, rs, direction, q + 1, -(rs as int))
  {
  }

  /** A parallelogram with half-extents qs and rs has 2qs rows of 2rs cells. */
  lemma ParallelogramCells(qs: nat, rs: nat)
    ensures GridCells(qs + qs, rs + rs) == 4 * qs * rs
  {
    GridCellsProduct(qs + qs, rs + rs);
    assert (qs + qs) * (rs + rs) == 4 * qs * rs;
  }

  /** One pass of the inner parallelogram loop: for r in -rs..rs it inserts
      the cell of (q, r) with value f(cell), completing row q without
      overwriting any earlier entry. */
  method FillParallelogramRow<T>(start: map<Coord, T>, qs: nat, rs: nat, direction: nat, f: Coord -> T, q: int)
    returns (ground: map<Coord, T>)
    requires -(qs as int) <= q < qs
    requires FilledBefore(start.Keys, qs, rs, direction, q, -(rs as int))
    requires forall c {:trigger start[c]} :: c in start ==> start[c] == f(c)
    ensures FilledBefore(ground.Keys, qs, rs, direction, q + 1, -(rs as int))
    ensures forall c {:trigger ground[c]} :: c in ground ==> ground[c] == f(c)
    ensures |ground| == |start| + (rs + rs)
  {
    ground := start;
    var r: int := -(rs as int);
    while r < rs
      invariant -(rs as int) <= r <= rs
      invariant FilledBefore(ground.Keys, qs, rs, direction, q, r)
      invariant forall c {:trigger ground[c]} :: c in ground ==> ground[c] == f(c)
      invariant |ground| == |start| + (r + rs)
    {
      var made :=
        if direction == 0 then HexCoord.New(q, r, -q - r)
        else if direction == 1 then HexCoord.New(q, -q - r, r)
        else HexCoord.New(-q - r, q, r);
      // `unwrap` never fails: every triple built here is on the plane.
      assert made.Ok?;
      var c := made.value;
      assert c == ParallelogramCell(q, r, direction);
      FilledStep(ground.Keys, qs, rs, direction, q, r);
      var before := ground.Keys;
      ground := ground[c := f(c)];
      assert ground.Keys == before + {c};
      r := r + 1;
    }
    FilledNextRow(ground.Keys, qs, rs, direction, q);
  }

  /** The parallelogram arm of `New`: for q in -qs..qs and r in -rs..rs it
      inserts the cell of (q, r) with value f(cell). */
  method BuildParallelogram<T>(qs: nat, rs: nat, direction: nat, f: Coord -> T)
    returns (ground: map<Coord, T>)
    ensures forall c :: c in ground <==> InParallelogram(c, qs, rs, direction)
    ensures forall q, r :: -(qs as int) <= q < qs && -(rs as int) <= r < rs ==> ParallelogramCell(q, r, direction) in ground
    ensures forall c {:trigger ground[c]} :: c in ground ==> ground[c] == f(c)
    ensures |ground| == 4 * qs * rs
  {
    ground := map[];
    var q: int := -(qs as int);
    while q < qs
      invariant -(qs as int) <= q <= qs
      invariant FilledBefore(ground.Keys, qs, rs, direction, q, -(rs as int))
      invariant forall c {:trigger ground[c]} :: c in ground ==> ground[c] == f(c)
      invariant |ground| == GridCells(q + qs, rs + rs)
    {
      ground := FillParallelogramRow(ground, qs, rs, direction, f, q);
      q := q + 1;
    }
    ParallelogramCells(qs, rs);
    forall q, r | -(qs as int) <= q < qs && -(rs as int) <= r < rs
      ensures ParallelogramCell(q, r, direction) in ground
    {
      ParallelogramCellRoundTrip(q, r, direction);
    }
  }

  // ---------------------------------------------------------------------
  // Hexagon

  /** The cells within `radius` steps of the origin. */
  predicate InHexagon(c: Coord, radius: int) {
    OnPlane(c) && Length(c) <= radius
  }

  /** Number of cells of a hexagon of the given radius: a centre and six
      triangles around it; none when the radius is negative. */
  function HexagonCount(radius: int): nat {
    if radius < 0 then 0 else 3 * radius * (radius + 1) + 1
  }

  /** Length of the row q of the hexagon loops, from r1 to r2 inclusive. */
  function RowLength(radius: int, q: int): int {
    Min(radius, -q + radius) - Max(-radius, -q - radius) + 1
  }

  /** Cells the hexagon loops insert before row q, summing the rows from -radius. */
  function RowsBefore(radius: int, q: int): int
    decreases q + radius
  {
    if q <= -radius then 0 else RowsBefore(radius, q - 1) + RowLength(radius, q - 1)
  }

  /** On the plane, being within the radius means every component is within it. */
  lemma InHexagonBounds(c: Coord, radius: int)
    requires OnPlane(c)
    ensures InHexagon(c, radius) <==> -radius <= c.x <= radius && -radius <= c.y <= radius && -radius <= c.z <= radius
  {
    LengthIsMaxComponent(c);
  }

  /** The rows left of the centre column. */
  lemma {:induction false} RowsBeforeLeft(radius: int, q: int)
    requires radius >= 0 && -radius <= q <= 0
    ensures 2 * RowsBefore(radius, q) == (q + radius) * (3 * radius + q + 1)
    decreases q + radius
  {
    if q > -radius {
      RowsBeforeLeft(radius, q - 1);
      assert RowLength(radius, q - 1) == 2 * radius + q;
      assert (q - 1 + radius) * (3 * radius + q) + 2 * (2 * radius + q)
          == (q + radius) * (3 * radius + q + 1);
    }
  }

  /** The rows from the centre column rightwards. */
  lemma {:induction false} RowsBeforeRight(radius: int, q: int)
    requires radius >= 0 && 0 <= q <= radius + 1
    ensures 2 * RowsBefore(radius, q) == radius * (3 * radius + 1) + 2 * q * (2 * radius + 1) - q * (q - 1)
    decreases q
  {
    if q == 0 {
      RowsBeforeLeft(radius, 0);
    } else {
      RowsBeforeRight(radius, q - 1);
      assert RowLength(radius, q - 1) == 2 * radius + 1 - (q - 1);
      assert 2 * (q - 1) * (2 * radius + 1) - (q - 1) * (q - 2) + 2 * (2 * radius + 1 - (q - 1))
          == 2 * q * (2 * radius + 1) - q * (q - 1);
    }
  }

  /** All rows together hold 3R(R+1) + 1 cells. */
  lemma HexagonRowsTotal(radius: int)
    requires radius >= 0
    ensures RowsBefore(radius, radius + 1) == HexagonCount(radius)
  {
    RowsBeforeRight(radius, radius + 1);
    assert radius * (3 * radius + 1) + 2 * (radius + 1) * (2 * radius + 1) - (radius + 1) * radius
        == 2 * (3 * radius * (radius + 1) + 1);
  }

  /** The hexagon arm of `New`: for q in -radius..=radius and r between
      max(-radius, -q-radius) and min(radius, -q+radius) it inserts the cell
      (q, r, -q-r) with value generator(cell). */
  method BuildHexagon<T>(radius: int, generator: Coord -> T) returns (ground: map<Coord, T>)
    ensures forall c :: c in ground <==> InHexagon(c, radius)
    ensures forall c {:trigger ground[c]} :: c in ground ==> ground[c] == generator(c)
    ensures |ground| == HexagonCount(radius)
  {
    ground := map[];
    var q := -radius;
    while q <= radius
      invariant radius >= 0 ==> -radius <= q <= radius + 1
      invariant radius < 0 ==> q == -radius
      invariant forall c :: c in ground <==> InHexagon(c, radius) && c.x < q
      invariant forall c {:trigger ground[c]} :: c in ground ==> ground[c] == generator(c)
      invariant |ground| == RowsBefore(radius, q)
    {
      var r1 := Max(-radius, -q - radius);
      var r2 := Min(radius, -q + radius);
      var r := r1;
      while r <= r2
        invariant r1 <= r <= r2 + 1
        invariant forall c :: c in ground <==> InHexagon(c, radius) && (c.x < q || (c.x == q && c.y < r))
        invariant forall c {:trigger ground[c]} :: c in ground ==> ground[c] == generator(c)
        invariant |ground| == RowsBefore(radius, q) + (r - r1)
      {
        var made := HexCoord.New(q, r, -q - r);
        // `unwrap` never fails: the third component is chosen to put the cell on the plane.
        assert made.Ok?;
        var c := made.value;
        InHexagonBounds(c, radius);
        forall c' | OnPlane(c') && c'.x == q && c'.y == r
          ensures c' == c
        {
        }
        ground := ground[c := generator(c)];
        r := r + 1;
      }
      forall c' | OnPlane(c') && c'.x == q
        ensures InHexagon(c', radius) ==> r1 <= c'.y <= r2
      {
        InHexagonBounds(c', radius);
      }
      q := q + 1;
    }
    if radius >= 0 {
      HexagonRowsTotal(radius);
    }
    forall c | InHexagon(c, radius)
      ensures c.x < q
    {
      InHexagonBounds(c, radius);
    }
  }

  // ---------------------------------------------------------------------
  // Map::new

  /** Builds the map of a shape. Parallelograms and hexagons get one entry
      per cell of their region, valued by the shape's function; the other
      shapes get none. */
  method New<T>(shape: MapShape<T>) returns (m: Map<T>)
    ensures shape.Parallelogram? ==>
      (forall c :: c in m.ground <==> InParallelogram(c, shape.q, shape.r, shape.direction)) &&
      (forall c :: c in m.ground ==> m.ground[c] == shape.f(c)) &&
      |m.ground| == 4 * shape.q * shape.r
    ensures shape.Hexagon? ==>
      (forall c :: c in m.ground <==> OnPlane(c) && Length(c) <= shape.radius) &&
      (forall c :: c in m.ground ==> m.ground[c] == shape.generator(c)) &&
      |m.ground| == HexagonCount(shape.radius)
    ensures shape.Triangle? || shape.Rectangle? ==> m.ground == map[]
  {
    match shape {
      case Parallelogram(qs, rs, direction, f) =>
        var ground := BuildParallelogram(qs, rs, direction, f);
        m := Map(ground);
      case Hexagon(radius, generator) =>
        var ground := BuildHexagon(radius, generator);
        m := Map(ground);
      case _ =>
        m := Map(map[]);
    }
  }

  /** A hexagon of negative radius is empty, and the radius-64 map drawn by
      the demo program has 12481 cells. */
  lemma HexagonCountExamples(radius: int)
    ensures radius < 0 ==> HexagonCount(radius) == 0
    ensures HexagonCount(0) == 1 && HexagonCount(1) == 7 && HexagonCount(64) == 12481
  {
  }
}
