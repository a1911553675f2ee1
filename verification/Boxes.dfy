/** Axis-aligned boxes in exact arithmetic: hulls of points and the centre-extents transform. */
module Boxes {
  import opened Matrices

  datatype Box = Box(min: Vec3, max: Vec3) {

    predicate NonEmpty() {
      min.x <= max.x && min.y <= max.y && min.z <= max.z
    }

    predicate Contains(p: Vec3) {
      && min.x <= p.x <= max.x
      && min.y <= p.y <= max.y
      && min.z <= p.z <= max.z
    }

    predicate Within(other: Box) {
      && other.min.x <= min.x && max.x <= other.max.x
      && other.min.y <= min.y && max.y <= other.max.y
      && other.min.z <= min.z && max.z <= other.max.z
    }

    function Encapsulate(p: Vec3): (r: Box) {
      Box(
        Vec3(Lesser(min.x, p.x), Lesser(min.y, p.y), Lesser(min.z, p.z)),
        Vec3(Greater(max.x, p.x), Greater(max.y, p.y), Greater(max.z, p.z)))
    }

    function Center(): (r: Vec3) {
      Vec3((min.x + max.x) * 0.5, (min.y + max.y) * 0.5, (min.z + max.z) * 0.5)
    }

    function Extents(): (r: Vec3) {
      Vec3((max.x - min.x) * 0.5, (max.y - min.y) * 0.5, (max.z - min.z) * 0.5)
    }
  }

  function Lesser(a: real, b: real): (r: real) {
    if b < a then b else a
  }

  function Greater(a: real, b: real): (r: real) {
    if a < b then b else a
  }

  /** `limit` is the largest finite double, the coordinate of the corners of the empty box. */
  function EmptyBox(limit: real): (b: Box) {
    Box(Vec3(limit, limit, limit), Vec3(-limit, -limit, -limit))
  }

  predicate Finite(p: Vec3, limit: real) {
    -limit <= p.x <= limit && -limit <= p.y <= limit && -limit <= p.z <= limit
  }

  /** The least box that contains all the points. */
  ghost predicate IsHull(points: seq<Vec3>, b: Box) {
    && (forall p :: p in points ==> b.Contains(p))
    && forall other: Box :: (forall p :: p in points ==> other.Contains(p)) ==> b.Within(other)
  }

  ghost predicate AllFinite(points: seq<Vec3>, limit: real) {
    forall p :: p in points ==> Finite(p, limit)
  }

  /** Folding `encapsulate` over a list of points gives their hull, and the empty box for no points. */
  method Hull(points: seq<Vec3>, limit: real) returns (b: Box)
    ensures points == [] ==> b == EmptyBox(limit)
    ensures points != [] && AllFinite(points, limit) ==> IsHull(points, b) && b.NonEmpty()
  {
    b := EmptyBox(limit);
    for i := 0 to |points|
      invariant i == 0 ==> b == EmptyBox(limit)
      invariant i > 0 && AllFinite(points, limit) ==> IsHull(points[..i], b) && b.NonEmpty()
    {
      if AllFinite(points, limit) {
        assert points[i] in points;
        HullStep(points[..i], b, points[i], limit);
      }
      assert points[..i + 1] == points[..i] + [points[i]];
      b := b.Encapsulate(points[i]);
    }
    assert points[..|points|] == points;
  }

  lemma HullStep(points: seq<Vec3>, b: Box, p: Vec3, limit: real)
    requires Finite(p, limit)
    requires if points == [] then b == EmptyBox(limit) else IsHull(points, b) && b.NonEmpty()
    ensures IsHull(points + [p], b.Encapsulate(p)) && b.Encapsulate(p).NonEmpty()
  {
    var all, b' := points + [p], b.Encapsulate(p);
    forall q | q in all ensures b'.Contains(q) {
      if q in points {
        assert b.Contains(q);
      }
    }
    forall other: Box | (forall q :: q in all ==> other.Contains(q)) ensures b'.Within(other) {
      assert p in all && forall q :: q in points ==> q in all;
      assert points != [] ==> b.Within(other);
    }
  }

  // ----- transform

  /** The spread of one output coordinate over a box with the given extents. */
  function Spread(r: Row, e: Vec3): (s: real) {
    Abs(r.x) * e.x + Abs(r.y) * e.y + Abs(r.z) * e.z
  }

  /** Transforms the centre by the matrix, which has to pass the check of its last row, and the extents by
      its absolute values. */
  function Transform(m: Matrix, b: Box): (r: Box) {
    var c, e := Apply(m, b.Center()), b.Extents();
    var te := Vec3(Spread(m.a, e), Spread(m.b, e), Spread(m.c, e));
    var low, high := Vec3(c.x - te.x, c.y - te.y, c.z - te.z), Vec3(c.x + te.x, c.y + te.y, c.z + te.z);
    Box(low, low).Encapsulate(high)
  }

  lemma TermBound(f: real, x: real, c: real, e: real)
    requires c - e <= x <= c + e
    ensures -(Abs(f) * e) <= f * x - f * c <= Abs(f) * e
  {
    ProductSign(Abs(f), e - (x - c));
    ProductSign(Abs(f), e + (x - c));
  }

  lemma TermAttained(f: real, c: real, e: real)
    ensures f * (if f < 0.0 then c - e else c + e) - f * c == Abs(f) * e
    ensures f * (if f < 0.0 then c + e else c - e) - f * c == -(Abs(f) * e)
  {
  }

  lemma CoordinateBound(r: Row, b: Box, p: Vec3)
    requires b.Contains(p)
    ensures var c := Dot(r, Lift(b.Center())); var s := Spread(r, b.Extents());
            c - s <= Dot(r, Lift(p)) <= c + s
  {
    var c, e := b.Center(), b.Extents();
    DotLift(r, p.x, p.y, p.z);
    DotLift(r, c.x, c.y, c.z);
    TermBound(r.x, p.x, c.x, e.x);
    TermBound(r.y, p.y, c.y, e.y);
    TermBound(r.z, p.z, c.z, e.z);
  }

  /** The corner of the box where a coordinate of the transform is largest or smallest. */
  function Corner(r: Row, b: Box, largest: bool): (p: Vec3) {
    Vec3(
      if (r.x < 0.0) == largest then b.min.x else b.max.x,
      if (r.y < 0.0) == largest then b.min.y else b.max.y,
      if (r.z < 0.0) == largest then b.min.z else b.max.z)
  }

  lemma CoordinateAttained(r: Row, b: Box)
    ensures var c := Dot(r, Lift(b.Center())); var s := Spread(r, b.Extents());
            && Dot(r, Lift(Corner(r, b, true))) == c + s
            && Dot(r, Lift(Corner(r, b, false))) == c - s
  {
    var c, e := b.Center(), b.Extents();
    var high, low := Corner(r, b, true), Corner(r, b, false);
    DotLift(r, c.x, c.y, c.z);
    DotLift(r, high.x, high.y, high.z);
    DotLift(r, low.x, low.y, low.z);
    TermAttained(r.x, c.x, e.x);
    TermAttained(r.y, c.y, e.y);
    TermAttained(r.z, c.z, e.z);
  }

  lemma SpreadIsPositive(r: Row, b: Box)
    requires b.NonEmpty()
    ensures Spread(r, b.Extents()) >= 0.0
  {
    CoordinateBound(r, b, b.Center());
  }

  /** The transformed box contains the image of every point of the box and lies within every other
      box that does. */
  lemma TransformIsTight(m: Matrix, b: Box)
    requires b.NonEmpty()
    ensures forall p :: b.Contains(p) ==> Transform(m, b).Contains(Apply(m, p))
    ensures forall other: Box ::
              (forall p :: b.Contains(p) ==> other.Contains(Apply(m, p))) ==> Transform(m, b).Within(other)
  {
    SpreadIsPositive(m.a, b);
    SpreadIsPositive(m.b, b);
    SpreadIsPositive(m.c, b);
    forall p | b.Contains(p) ensures Transform(m, b).Contains(Apply(m, p)) {
      CoordinateBound(m.a, b, p);
      CoordinateBound(m.b, b, p);
      CoordinateBound(m.c, b, p);
    }
    forall other: Box | (forall p :: b.Contains(p) ==> other.Contains(Apply(m, p)))
      ensures Transform(m, b).Within(other)
    {
      AttainedWithin(m, b, other, m.a);
      AttainedWithin(m, b, other, m.b);
      AttainedWithin(m, b, other, m.c);
      CoordinateAttained(m.a, b);
      CoordinateAttained(m.b, b);
      CoordinateAttained(m.c, b);
    }
  }

  lemma AttainedWithin(m: Matrix, b: Box, other: Box, r: Row)
    requires b.NonEmpty() && forall p :: b.Contains(p) ==> other.Contains(Apply(m, p))
    ensures other.Contains(Apply(m, Corner(r, b, true))) && other.Contains(Apply(m, Corner(r, b, false)))
  {
  }
}
