/** SeparatingAxis.java: the one-dimensional layer of the separating-axis collision test.
    Shapes are projected onto an axis as intervals `min..max`; two shapes can only collide
    when their intervals overlap on every axis, and the signed overlap is the minimum
    translation along that axis. The axis is taken as given: the source normalises it in
    floating point, which is not modelled. */
module SeparatingAxis {

  import opened Vectors
  import opened Wrappers

  /** A projected range, the source's `Vec2f(min, max)`. */
  datatype Interval = Interval(min: real, max: real)

  /** `isOverlapping`: strict comparisons, so touching intervals do not overlap. For
      intervals of positive length, this says their intersection has positive
      length. */
  predicate IsOverlapping(a: Interval, b: Interval)
    ensures a.min < a.max && b.min < b.max ==>
              (IsOverlapping(a, b) <==>
                 (if a.min < b.min then b.min else a.min) < (if a.max < b.max then a.max else b.max))
  {
    a.min < b.max && b.min < a.max
  }

  /** `intervalMTV(a, b)`: the signed distance to move `a` so that it no longer overlaps
      `b` — to the right by `b.max - a.min`, or to the left by `a.max - b.min`, whichever
      is shorter (the left move on a tie). `None` is the source's `null`, returned when
      the intervals do not overlap and on the guarded negative-overlap branch. */
  function IntervalMTV(a: Interval, b: Interval): (r: Option<real>)
    ensures r.Some? ==> r.value == b.max - a.min || r.value == b.min - a.max
  {
    if IsOverlapping(a, b) then
      var aRight := b.max - a.min;
      var aLeft := a.max - b.min;
      if aLeft < 0.0 || aRight < 0.0 then None
      else if aRight < aLeft then Some(aRight)
      else Some(-aLeft)
    else None
  }

  /** `a` moved along the axis by `t`. */
  function Shift(a: Interval, t: real): (r: Interval)
    ensures r.max - r.min == a.max - a.min
  {
    Interval(a.min + t, a.max + t)
  }

  /** `projectPoint(p)`: the coordinate of `p` along the axis. */
  function ProjectPoint(axis: Vec2, p: Vec2): (c: real)
    ensures axis == Vec2(1.0, 0.0) ==> c == p.x
    ensures axis == Vec2(0.0, 1.0) ==> c == p.y
  {
    Dot(p, axis)
  }

  /** `project(CircleShape)`: the centre's coordinate plus and minus the radius. */
  function ProjectCircle(axis: Vec2, centre: Vec2, radius: real): (r: Interval)
    ensures r.max - r.min == 2.0 * radius
    ensures r.min + radius == ProjectPoint(axis, centre) == r.max - radius
  {
    var proj := Dot(centre, axis);
    Interval(proj - radius, proj + radius)
  }

  /** `project(PolygonShape)`: the least and greatest coordinate of the vertices, kept
      in two running values that the first vertex initialises. A polygon without
      vertices leaves both `null`, and building the result then throws (`None`). */
  method ProjectPolygon(axis: Vec2, vertices: seq<Vec2>) returns (range: Option<Interval>)
    ensures range.Some? <==> |vertices| > 0
    ensures range.Some? ==> range.value.min <= range.value.max
    ensures range.Some? ==> forall k :: 0 <= k < |vertices| ==>
              range.value.min <= ProjectPoint(axis, vertices[k]) <= range.value.max
    ensures range.Some? ==> exists k :: 0 <= k < |vertices| && ProjectPoint(axis, vertices[k]) == range.value.min
    ensures range.Some? ==> exists k :: 0 <= k < |vertices| && ProjectPoint(axis, vertices[k]) == range.value.max
  {
    var min: Option<real> := None;
    var max: Option<real> := None;
    var i := 0;
    while i < |vertices|
      invariant 0 <= i <= |vertices|
      invariant min.None? <==> i == 0
      invariant max.None? <==> i == 0
      invariant i > 0 ==> min.value <= max.value
      invariant i > 0 ==> forall k :: 0 <= k < i ==> min.value <= ProjectPoint(axis, vertices[k]) <= max.value
      invariant i > 0 ==> exists k :: 0 <= k < i && ProjectPoint(axis, vertices[k]) == min.value
      invariant i > 0 ==> exists k :: 0 <= k < i && ProjectPoint(axis, vertices[k]) == max.value
    {
      var proj := Dot(vertices[i], axis);
      if min.None? && max.None? {
        min, max := Some(proj), Some(proj);
      }
      if proj < min.value {
        min := Some(proj);
      }
      if proj > max.value {
        max := Some(proj);
      }
      i := i + 1;
    }
    if min.None? || max.None? {
      return None;
    }
    return Some(Interval(min.value, max.value));
  }

  // ---------------------------------------------------------------------------
  // Properties of the overlap test and the translation

  /** Overlap does not depend on the order of the arguments. */
  lemma OverlapIsSymmetric(a: Interval, b: Interval)
    ensures IsOverlapping(a, b) <==> IsOverlapping(b, a)
  {
  }

  /** Intervals that only share an end point do not overlap. */
  lemma TouchingIsNotOverlapping(a: Interval, b: Interval)
    requires a.max == b.min
    ensures !IsOverlapping(a, b) && !IsOverlapping(b, a)
  {
  }

  /** The guarded error branch cannot be taken: `intervalMTV` gives `null` exactly when
      the intervals do not overlap. */
  lemma MTVExactlyOnOverlap(a: Interval, b: Interval)
    ensures IntervalMTV(a, b).Some? <==> IsOverlapping(a, b)
  {
  }

  /** The translation is the shorter of the two moves, and never zero. */
  lemma MTVIsShorterMove(a: Interval, b: Interval)
    requires IsOverlapping(a, b)
    ensures var d := IntervalMTV(a, b).value;
            var aRight := b.max - a.min;
            var aLeft := a.max - b.min;
            aRight > 0.0 && aLeft > 0.0 &&
            (d > 0.0 <==> aRight < aLeft) &&
            (if d > 0.0 then d else -d) == (if aRight < aLeft then aRight else aLeft)
  {
  }

  /** Moving `a` by `t` still overlaps `b` exactly when `-aLeft < t < aRight`. */
  lemma ShiftOverlapsIff(a: Interval, b: Interval, t: real)
    ensures IsOverlapping(Shift(a, t), b) <==> -(a.max - b.min) < t < b.max - a.min
  {
  }

  /** Moving `a` by the translation separates it from `b` (they touch), and every shorter
      move in either direction leaves them overlapping: the translation is minimal. */
  lemma MTVSeparatesMinimally(a: Interval, b: Interval, t: real)
    requires IsOverlapping(a, b)
    ensures !IsOverlapping(Shift(a, IntervalMTV(a, b).value), b)
    ensures var d := IntervalMTV(a, b).value;
            (if t < 0.0 then -t else t) < (if d < 0.0 then -d else d) ==> IsOverlapping(Shift(a, t), b)
  {
    var d := IntervalMTV(a, b).value;
    ShiftOverlapsIff(a, b, d);
    ShiftOverlapsIff(a, b, t);
  }
}
