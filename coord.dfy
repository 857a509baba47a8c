/** Cube coordinates of a hexagonal grid.

    A cell is an integer triple (x, y, z) on the plane x + y + z == 0. The
    validating constructor refuses triples off the plane; the arithmetic
    operators build their results directly from the components and rely on
    the plane being closed under them, which the lemmas below establish.
    Machine integers (i32, usize) are modelled as unbounded `int` and `nat`. */
module HexCoord {

  datatype Result<T, E> = Ok(value: T) | Err(error: E)

  /** An integer cube coordinate. */
  datatype Coord = Coord(x: int, y: int, z: int)

  /** A fractional cube coordinate; f32 components are modelled as reals. */
  datatype FCoord = FCoord(x: real, y: real, z: real)

  /** The invariant every coordinate handed out by this module keeps. */
  predicate OnPlane(c: Coord) {
    c.x + c.y + c.z == 0
  }

  function Abs(n: int): nat {
    if n < 0 then -n else n
  }

  function Min(a: int, b: int): int {
    if a <= b then a else b
  }

  function Max(a: int, b: int): int {
    if a >= b then a else b
  }

  // ---------------------------------------------------------------------
  // Decimal rendering, as far as the constructor's error message needs it

  function DigitChar(d: nat): char
    requires d < 10
  {
    ('0' as int + d) as char
  }

  predicate IsDigits(s: string) {
    forall i :: 0 <= i < |s| ==> '0' <= s[i] <= '9'
  }

  /** The canonical decimal spelling of n: digits only, no leading zero. */
  function NatToDecimal(n: nat): (s: string)
    ensures |s| >= 1 && IsDigits(s)
    ensures s[0] == '0' ==> n == 0
    decreases n
  {
    if n < 10 then [DigitChar(n)] else NatToDecimal(n / 10) + [DigitChar(n % 10)]
  }

  /** The number a string of decimal digits denotes. */
  function DecimalValue(s: string): nat
    requires IsDigits(s)
  {
    if |s| == 0 then 0
    else DecimalValue(s[..|s| - 1]) * 10 + (s[|s| - 1] as int - '0' as int)
  }

  /** Reading the rendering back gives the number that was rendered. */
  lemma {:induction false} DecimalRoundTrip(n: nat)
    ensures DecimalValue(NatToDecimal(n)) == n
    decreases n
  {
    if n >= 10 {
      DecimalRoundTrip(n / 10);
      var s := NatToDecimal(n);
      assert s[..|s| - 1] == NatToDecimal(n / 10);
    }
  }

  /** Signed decimal rendering of an i32, as `{}` formats it. */
  function IntToDecimal(n: int): (s: string)
    ensures |s| >= 1
    ensures s[0] == '-' <==> n < 0
    ensures n >= 0 ==> IsDigits(s) && DecimalValue(s) == n
    ensures n < 0 ==> IsDigits(s[1..]) && DecimalValue(s[1..]) == -n
  {
    if n < 0 then
      DecimalRoundTrip(-n);
      "-" + NatToDecimal(-n)
    else
      DecimalRoundTrip(n);
      NatToDecimal(n)
  }

  /** The `Display` form "(x,y,z)" of a coordinate. */
  function Show(c: Coord): (s: string)
    ensures |s| >= 7 && s[0] == '(' && s[|s| - 1] == ')'
  {
    "(" + IntToDecimal(c.x) + "," + IntToDecimal(c.y) + "," + IntToDecimal(c.z) + ")"
  }

  /** Different integers have different spellings. */
  lemma IntToDecimalInjective(a: int, b: int)
    requires IntToDecimal(a) == IntToDecimal(b)
    ensures a == b
  {
  }

  predicate NoComma(s: string) {
    forall i :: 0 <= i < |s| ==> s[i] != ','
  }

  /** A spelled integer never contains the field separator. */
  lemma IntToDecimalNoComma(n: int)
    ensures NoComma(IntToDecimal(n))
  {
    var s := IntToDecimal(n);
    if n < 0 {
      forall i | 1 <= i < |s|
        ensures s[i] != ','
      {
        assert s[i] == s[1..][i - 1];
      }
    }
  }

  /** No comma appears within the leading comma-free field. */
  lemma NoCommaBefore(p: string, r: string, k: nat)
    requires NoComma(p) && k < |p|
    ensures (p + "," + r)[k] != ','
  {
  }

  /** A string splits at most one way into a comma-free field, a comma and a rest. */
  lemma SplitAtComma(p1: string, r1: string, p2: string, r2: string)
    requires NoComma(p1) && NoComma(p2)
    requires p1 + "," + r1 == p2 + "," + r2
    ensures p1 == p2 && r1 == r2
  {
    var t := p1 + "," + r1;
    if |p1| < |p2| {
      NoCommaBefore(p2, r2, |p1|);
      assert false;
    } else if |p2| < |p1| {
      NoCommaBefore(p1, r1, |p2|);
      assert false;
    }
    assert p1 == t[..|p1|] == p2;
    assert r1 == t[|p1| + 1..] == r2;
  }

  /** The text inside the opening bracket: three fields, two commas, the closing bracket. */
  lemma ShowFields(c: Coord)
    ensures Show(c)[1..] == IntToDecimal(c.x) + "," + (IntToDecimal(c.y) + "," + (IntToDecimal(c.z) + ")"))
  {
  }

  /** The displayed form identifies the triple: distinct coordinates are
      never rendered, nor reported as off the plane, with the same text. */
  lemma ShowInjective(a: Coord, b: Coord)
    requires Show(a) == Show(b)
    ensures a == b
  {
    var sx, sy, sz := IntToDecimal(a.x), IntToDecimal(a.y), IntToDecimal(a.z);
    var tx, ty, tz := IntToDecimal(b.x), IntToDecimal(b.y), IntToDecimal(b.z);
    IntToDecimalNoComma(a.x); IntToDecimalNoComma(a.y);
    IntToDecimalNoComma(b.x); IntToDecimalNoComma(b.y);
    ShowFields(a);
    ShowFields(b);
    SplitAtComma(sx, sy + "," + (sz + ")"), tx, ty + "," + (tz + ")"));
    SplitAtComma(sy, sz + ")", ty, tz + ")");
    assert sz == (sz + ")")[..|sz|] == (tz + ")")[..|tz|] == tz;
    IntToDecimalInjective(a.x, b.x);
    IntToDecimalInjective(a.y, b.y);
    IntToDecimalInjective(a.z, b.z);
  }

  // ---------------------------------------------------------------------
  // Construction

  /** The validating constructor: accepts exactly the triples on the plane. */
  function New(x: int, y: int, z: int): (r: Result<Coord, string>)
    ensures r.Ok? <==> x + y + z == 0
    ensures r.Ok? ==> r.value == Coord(x, y, z) && OnPlane(r.value)
    ensures r.Err? ==> r.error == Show(Coord(x, y, z)) + " is not on the hexa plane"
  {
    var c := Coord(x, y, z);
    if x + y + z != 0 then Err(Show(c) + " is not on the hexa plane") else Ok(c)
  }

  /** The rendering of the unit test's rejected triple. */
  lemma ShowExample()
    ensures Show(Coord(1, 2, 3)) == "(1,2,3)"
  {
    assert IntToDecimal(1) == "1" && IntToDecimal(2) == "2" && IntToDecimal(3) == "3";
  }

  /** The unit test's rejected triple and its exact message. */
  lemma NewRejectsOffPlane()
    ensures New(1, 2, 3) == Err("(1,2,3) is not on the hexa plane")
  {
    ShowExample();
    var msg := Show(Coord(1, 2, 3)) + " is not on the hexa plane";
    assert msg == "(1,2,3) is not on the hexa plane";
  }

  /** The unit test's accepted triples. */
  lemma NewAcceptsOnPlane()
    ensures New(0, 0, 0) == Ok(Coord(0, 0, 0)) && New(1, 2, -3) == Ok(Coord(1, 2, -3))
  {
  }

  /** The derived component-wise equality; it is the identity of map keys. */
  function Equals(a: Coord, b: Coord): (r: bool)
    ensures r <==> a == b
  {
    a.x == b.x && a.y == b.y && a.z == b.z
  }

  /** The origin, identity of addition. */
  function Zero(): Coord {
    Coord(0, 0, 0)
  }

  /** The six unit directions, starting from (1,0,-1); opposite directions are three places apart. */
  const Neighbours: seq<Coord> := [
    Coord(1, 0, -1),
    Coord(1, -1, 0),
    Coord(0, -1, 1),
    Coord(-1, 0, 1),
    Coord(-1, 1, 0),
    Coord(0, 1, -1)
  ]

  // ---------------------------------------------------------------------
  // Operators

  /** Component-wise sum; the plane sums add up, so the plane is closed under it. */
  function Add(a: Coord, b: Coord): (r: Coord)
    ensures r.x + r.y + r.z == (a.x + a.y + a.z) + (b.x + b.y + b.z)
  {
    Coord(a.x + b.x, a.y + b.y, a.z + b.z)
  }

  /** Component-wise difference; the plane is closed under it. */
  function Sub(a: Coord, b: Coord): (r: Coord)
    ensures r.x + r.y + r.z == (a.x + a.y + a.z) - (b.x + b.y + b.z)
  {
    Coord(a.x - b.x, a.y - b.y, a.z - b.z)
  }

  /** Scaling by an integer; the plane is closed under it. */
  function Mul(c: Coord, k: int): (r: Coord)
    ensures r.x + r.y + r.z == (c.x + c.y + c.z) * k
  {
    Coord(c.x * k, c.y * k, c.z * k)
  }

  /** The operators never leave the plane, although they bypass `New`. */
  lemma PlaneClosed(a: Coord, b: Coord, k: int)
    requires OnPlane(a) && OnPlane(b)
    ensures OnPlane(Add(a, b)) && OnPlane(Sub(a, b)) && OnPlane(Mul(a, k))
  {
  }

  lemma AddCommutative(a: Coord, b: Coord)
    ensures Add(a, b) == Add(b, a)
  {
  }

  lemma AddAssociative(a: Coord, b: Coord, c: Coord)
    ensures Add(Add(a, b), c) == Add(a, Add(b, c))
  {
  }

  lemma AddIdentity(c: Coord)
    ensures Add(c, Zero()) == c && Add(Zero(), c) == c
  {
  }

  lemma AddExample()
    ensures Add(Coord(1, 2, -3), Coord(-4, 5, -1)) == Coord(-3, 7, -4)
  {
  }

  /** Subtraction undoes addition, and the other way round. */
  lemma SubInvertsAdd(a: Coord, b: Coord)
    ensures Sub(Add(a, b), b) == a
    ensures Add(Sub(a, b), b) == a
    ensures Sub(a, a) == Zero()
  {
  }

  /** Adding u and then adding its opposite returns to the start. */
  lemma AddThenSubtract(c: Coord, u: Coord)
    ensures Add(Add(c, u), Sub(Zero(), u)) == c
  {
  }

  lemma SubExample()
    ensures Sub(Zero(), Zero()) == Zero()
    ensures Sub(Coord(1, 2, -3), Coord(-4, 5, -1)) == Coord(5, -3, -2)
  {
    assert Sub(Coord(1, 2, -3), Coord(-4, 5, -1)) == Coord(5, -3, -2);
  }

  /** Subtraction commutes only on equal arguments. */
  lemma SubCommutesOnlyOnEqual(a: Coord, b: Coord)
    ensures Sub(a, b) == Sub(b, a) <==> a == b
  {
  }

  /** Subtraction associates only when the last operand is zero. */
  lemma SubAssociatesOnlyWithZero(a: Coord, b: Coord, c: Coord)
    ensures Sub(Sub(a, b), c) == Sub(a, Sub(b, c)) <==> c == Zero()
  {
  }

  /** The unit test's witnesses that subtraction is neither associative nor commutative. */
  lemma SubNotAssociativeNorCommutative()
    ensures Sub(Sub(Coord(1, 2, -3), Coord(-4, 5, -1)), Coord(2, 3, -5))
         != Sub(Coord(1, 2, -3), Sub(Coord(-4, 5, -1), Coord(2, 3, -5)))
    ensures Sub(Coord(1, 2, -3), Coord(-4, 5, -1)) != Sub(Coord(-4, 5, -1), Coord(1, 2, -3))
  {
    SubAssociatesOnlyWithZero(Coord(1, 2, -3), Coord(-4, 5, -1), Coord(2, 3, -5));
    SubCommutesOnlyOnEqual(Coord(1, 2, -3), Coord(-4, 5, -1));
  }

  lemma MulExample(k: int)
    ensures Mul(Zero(), k) == Zero()
    ensures Mul(Coord(1, 2, -3), k) == Coord(k, 2 * k, -3 * k)
  {
  }

  /** Scaling distributes over addition. */
  lemma MulDistributes(a: Coord, b: Coord, k: int)
    ensures Mul(Add(a, b), k) == Add(Mul(a, k), Mul(b, k))
  {
    assert (a.x + b.x) * k == a.x * k + b.x * k;
    assert (a.y + b.y) * k == a.y * k + b.y * k;
    assert (a.z + b.z) * k == a.z * k + b.z * k;
  }

  // ---------------------------------------------------------------------
  // Metric

  /** Hex length: half the sum of the absolute components. On the plane the
      halving is exact and the length is the largest absolute component. */
  function Length(c: Coord): (r: int)
    ensures r >= 0
    ensures OnPlane(c) ==> 2 * r == Abs(c.x) + Abs(c.y) + Abs(c.z)
  {
    (Abs(c.x) + Abs(c.y) + Abs(c.z)) / 2
  }

  /** On the plane the length is the largest absolute component. */
  lemma LengthIsMaxComponent(c: Coord)
    requires OnPlane(c)
    ensures Length(c) == Max(Max(Abs(c.x), Abs(c.y)), Abs(c.z))
  {
  }

  function Distance(a: Coord, b: Coord): (r: int)
    ensures r >= 0
    ensures a == b ==> r == 0
  {
    Length(Sub(a, b))
  }

  lemma DistanceToZero(c: Coord)
    ensures Distance(c, Zero()) == Length(c)
  {
    assert Sub(c, Zero()) == c;
  }

  lemma DistanceSymmetric(a: Coord, b: Coord)
    ensures Distance(a, b) == Distance(b, a)
  {
  }

  /** A step by u moves a cell by the length of u. */
  lemma DistanceAfterStep(c: Coord, u: Coord)
    ensures Distance(c, Add(c, u)) == Length(u)
  {
    assert Sub(c, Add(c, u)) == Coord(-u.x, -u.y, -u.z);
  }

  lemma DistanceExample()
    ensures Distance(Coord(1, 2, -3), Coord(4, 5, -9)) == 6
    ensures Distance(Coord(1, 2, -3), Zero()) == 3
  {
  }

  /** On the plane, distance zero means the same cell. */
  lemma DistanceZeroIffEqual(a: Coord, b: Coord)
    requires OnPlane(a) && OnPlane(b)
    ensures Distance(a, b) == 0 <==> a == b
  {
    var d := Sub(a, b);
    assert 2 * Length(d) == Abs(d.x) + Abs(d.y) + Abs(d.z);
    if Length(d) == 0 {
      assert d.x == 0 && d.y == 0 && d.z == 0;
      assert a.x == b.x && a.y == b.y && a.z == b.z;
    }
  }

  /** Length is subadditive on the plane. */
  lemma LengthSubadditive(u: Coord, v: Coord)
    requires OnPlane(u) && OnPlane(v)
    ensures Length(Add(u, v)) <= Length(u) + Length(v)
  {
    var w := Add(u, v);
    assert Abs(w.x) <= Abs(u.x) + Abs(v.x);
    assert Abs(w.y) <= Abs(u.y) + Abs(v.y);
    assert Abs(w.z) <= Abs(u.z) + Abs(v.z);
  }

  /** Distance satisfies the triangle inequality, so it is a metric on the plane. */
  lemma DistanceTriangle(a: Coord, b: Coord, c: Coord)
    requires OnPlane(a) && OnPlane(b) && OnPlane(c)
    ensures Distance(a, c) <= Distance(a, b) + Distance(b, c)
  {
    LengthSubadditive(Sub(a, b), Sub(b, c));
    assert Add(Sub(a, b), Sub(b, c)) == Sub(a, c);
  }

  /** Scaling by k scales the length by |k|. */
  lemma LengthOfMul(c: Coord, k: int)
    requires OnPlane(c)
    ensures Length(Mul(c, k)) == Abs(k) * Length(c)
  {
    var m, a := Mul(c, k), Abs(k);
    AbsMul(c.x, k);
    AbsMul(c.y, k);
    AbsMul(c.z, k);
    var sc := Abs(c.x) + Abs(c.y) + Abs(c.z);
    Distribute3(a, Abs(c.x), Abs(c.y), Abs(c.z));
    Distribute3(k, c.x, c.y, c.z);
    assert OnPlane(m);
    Distribute3(a, Length(c), Length(c), 0);
  }

  lemma Distribute3(k: int, a: int, b: int, c: int)
    ensures a * k + b * k + c * k == k * (a + b + c)
  {
  }

  lemma AbsMul(a: int, k: int)
    ensures Abs(a * k) == Abs(a) * Abs(k)
  {
    if a < 0 && k < 0 {
      assert a * k == (-a) * (-k);
    } else if a < 0 {
      assert a * k == -((-a) * k);
    } else if k < 0 {
      assert a * k == -(a * (-k));
    }
  }

  // ---------------------------------------------------------------------
  // Directions and neighbours

  /** The unit step for a direction index; indices wrap modulo 6. */
  function Direction(d: nat): Coord {
    Neighbours[d % 6]
  }

  /** The adjacent cell in direction d. */
  function Neighbour(c: Coord, d: nat): Coord {
    Add(c, Direction(d))
  }

  /** Every direction is a unit step on the plane. */
  lemma DirectionIsUnit(d: nat)
    ensures OnPlane(Direction(d)) && Length(Direction(d)) == 1
  {
    NeighboursAreUnitCells(Direction(d));
  }

  /** A neighbour of a cell is on the plane and at distance 1 from it. */
  lemma NeighbourIsAdjacent(c: Coord, d: nat)
    requires OnPlane(c)
    ensures OnPlane(Neighbour(c, d)) && Distance(c, Neighbour(c, d)) == 1
  {
    DirectionIsUnit(d);
    DistanceAfterStep(c, Direction(d));
  }

  lemma ModSixShift(d: nat)
    ensures (d + 3) % 6 == if d % 6 < 3 then d % 6 + 3 else d % 6 - 3
  {
    var k, i := d / 6, d % 6;
    if i < 3 {
      assert d + 3 == 6 * k + (i + 3);
    } else {
      assert d + 3 == 6 * (k + 1) + (i - 3);
    }
  }

  /** The direction table lists each direction three places away from its opposite. */
  lemma OppositeEntry(i: nat)
    requires i < 6
    ensures var u, v := Neighbours[i], Neighbours[if i < 3 then i + 3 else i - 3];
            v.x == -u.x && v.y == -u.y && v.z == -u.z
  {
  }

  /** Direction d + 3 is the opposite of direction d. */
  lemma DirectionOpposite(d: nat)
    ensures Direction(d + 3) == Sub(Zero(), Direction(d))
  {
    ModSixShift(d);
    OppositeEntry(d % 6);
  }

  /** Stepping in direction d and then in direction d + 3 returns to the start. */
  lemma NeighbourRoundTrip(c: Coord, d: nat)
    ensures Neighbour(Neighbour(c, d), d + 3) == c
  {
    DirectionOpposite(d);
    AddThenSubtract(c, Direction(d));
  }

  /** The unit test's walk: two steps in direction 0 from the origin. */
  lemma NeighbourExample()
    ensures Neighbour(Neighbour(Zero(), 0), 0) == Coord(2, 0, -2)
  {
  }

  /** The six neighbours are exactly the on-plane cells of length 1. */
  lemma NeighboursAreUnitCells(u: Coord)
    ensures OnPlane(u) && Length(u) == 1 <==> u in Neighbours
  {
    if OnPlane(u) && Length(u) == 1 {
      assert -1 <= u.x <= 1 && -1 <= u.y <= 1 && -1 <= u.z <= 1;
      if u.x == 1 {
        assert u == Neighbours[0] || u == Neighbours[1];
      } else if u.x == -1 {
        assert u == Neighbours[3] || u == Neighbours[4];
      } else {
        assert u == Neighbours[2] || u == Neighbours[5];
      }
    }
  }

  /** The six directions are pairwise different. */
  lemma NeighboursDistinct(i: nat, j: nat)
    requires i < 6 && j < 6 && i != j
    ensures Neighbours[i] != Neighbours[j]
  {
  }

  // ---------------------------------------------------------------------
  // Cube rounding (From<FCoord> for Coord)

  function RAbs(v: real): real {
    if v < 0.0 then -v else v
  }

  /** Rounding to the nearest integer, halves away from zero (f32::round),
      on exact reals. */
  function Round(v: real): (n: int)
    ensures RAbs(n as real - v) <= 0.5
    ensures RAbs(n as real - v) == 0.5 ==> RAbs(n as real) > RAbs(v)
  {
    if v >= 0.0 then (v + 0.5).Floor else -((-v + 0.5).Floor)
  }

  /** The repair step of the conversion: given the rounded components and
      their rounding errors, the component with the largest error is
      recomputed from the other two; on a tie the later component is the
      one recomputed. */
  function Repair(q: int, r: int, s: int, dq: real, dr: real, ds: real): (c: Coord)
    ensures OnPlane(c)
    ensures (c == Coord(-r - s, r, s) && dq > dr && dq > ds) ||
            (c == Coord(q, -q - s, s) && dr >= dq && dr > ds) ||
            (c == Coord(q, r, -q - r) && ds >= dq && ds >= dr)
  {
    if dq > dr && dq > ds then Coord(-r - s, r, s)
    else if dr > ds then Coord(q, -q - s, s)
    else Coord(q, r, -q - r)
  }

  /** Converts a fractional coordinate to a cell: each component is rounded,
      then the one with the largest rounding error (the later one on a tie)
      is recomputed so that the result lies on the plane. */
  function FromFCoord(fc: FCoord): (c: Coord)
    ensures OnPlane(c)
    ensures var q, r, s := Round(fc.x), Round(fc.y), Round(fc.z);
            var dq, dr, ds := RAbs(q as real - fc.x), RAbs(r as real - fc.y), RAbs(s as real - fc.z);
            (c == Coord(-r - s, r, s) && dq > dr && dq > ds) ||
            (c == Coord(q, -q - s, s) && dr >= dq && dr > ds) ||
            (c == Coord(q, r, -q - r) && ds >= dq && ds >= dr)
  {
    var q, r, s := Round(fc.x), Round(fc.y), Round(fc.z);
    Repair(q, r, s, RAbs(q as real - fc.x), RAbs(r as real - fc.y), RAbs(s as real - fc.z))
  }

  /** When the rounded components already lie on the plane, nothing is repaired. */
  lemma FromFCoordKeepsPlaneRounding(fc: FCoord)
    requires Round(fc.x) + Round(fc.y) + Round(fc.z) == 0
    ensures FromFCoord(fc) == Coord(Round(fc.x), Round(fc.y), Round(fc.z))
  {
  }

  function ToFCoord(c: Coord): FCoord {
    FCoord(c.x as real, c.y as real, c.z as real)
  }

  /** A cell converted to fractional form and back is unchanged. */
  lemma FromFCoordRoundTrip(c: Coord)
    requires OnPlane(c)
    ensures FromFCoord(ToFCoord(c)) == c
  {
    var fc := ToFCoord(c);
    assert Round(fc.x) == c.x && Round(fc.y) == c.y && Round(fc.z) == c.z;
    FromFCoordKeepsPlaneRounding(fc);
  }

  /** When every rounded component is within one half of a point on the
      plane, every repaired component is within 1 of it. */
  lemma RepairNear(q: int, r: int, s: int, fc: FCoord)
    requires fc.x + fc.y + fc.z == 0.0
    requires RAbs(q as real - fc.x) <= 0.5 && RAbs(r as real - fc.y) <= 0.5 && RAbs(s as real - fc.z) <= 0.5
    ensures var c := Repair(q, r, s, RAbs(q as real - fc.x), RAbs(r as real - fc.y), RAbs(s as real - fc.z));
            RAbs(c.x as real - fc.x) <= 1.0 && RAbs(c.y as real - fc.y) <= 1.0 && RAbs(c.z as real - fc.z) <= 1.0
  {
    assert (-r - s) as real - fc.x == -((r as real - fc.y) + (s as real - fc.z));
    assert (-q - s) as real - fc.y == -((q as real - fc.x) + (s as real - fc.z));
    assert (-q - r) as real - fc.z == -((q as real - fc.x) + (r as real - fc.y));
  }

  /** A fractional point on the plane lands on a cell whose every component
      is within 1 of the point's. */
  lemma FromFCoordNear(fc: FCoord)
    requires fc.x + fc.y + fc.z == 0.0
    ensures var c := FromFCoord(fc);
            RAbs(c.x as real - fc.x) <= 1.0 && RAbs(c.y as real - fc.y) <= 1.0 && RAbs(c.z as real - fc.z) <= 1.0
  {
    var q, r, s := Round(fc.x), Round(fc.y), Round(fc.z);
    RepairNear(q, r, s, fc);
    assert FromFCoord(fc) == Repair(q, r, s, RAbs(q as real - fc.x), RAbs(r as real - fc.y), RAbs(s as real - fc.z));
  }
}
