/** Corner geometry of a detected code and the proximity test used to
    discard re-detections of a code that was already accepted. */
module Geometry {

  datatype Point = Point(x: real, y: real)

  /** The four corners the detector reports for one code, in the detector's
      own corner order (no canonical winding is imposed). */
  datatype Quad = Quad(p0: Point, p1: Point, p2: Point, p3: Point)

  function Sq(v: real): (r: real)
    ensures r >= 0.0
  {
    v * v
  }

  function PointSqDist(a: Point, b: Point): real
  {
    Sq(a.x - b.x) + Sq(a.y - b.y)
  }

  /** Squared Euclidean norm of `a - b`, each quad read as an 8-vector. */
  function SqDist(a: Quad, b: Quad): (r: real)
    ensures r >= 0.0
  {
    PointSqDist(a.p0, b.p0) + PointSqDist(a.p1, b.p1) + PointSqDist(a.p2, b.p2) + PointSqDist(a.p3, b.p3)
  }

  /** `norm(a - b) < threshold`, stated without a square root. */
  predicate Near(a: Quad, b: Quad, threshold: real)
  {
    0.0 < threshold && SqDist(a, b) < threshold * threshold
  }

  /** Near is exactly "the Euclidean distance is strictly below the
      threshold": for the non-negative root d of the squared distance,
      Near holds iff d < threshold. In particular a distance equal to the
      threshold is not near. */
  lemma NearMatchesNorm(a: Quad, b: Quad, threshold: real, d: real)
    requires 0.0 <= d && d * d == SqDist(a, b)
    ensures Near(a, b, threshold) <==> d < threshold
  {
    var dd, dt, tt := d * d, d * threshold, threshold * threshold;
    if 0.0 < threshold {
      if d < threshold {
        assert dd <= dt;
        assert dt < tt;
        assert SqDist(a, b) < tt;
      } else {
        assert dd >= dt;
        assert dt >= tt;
        assert SqDist(a, b) >= tt;
      }
    }
  }

  lemma SqSymmetric(u: real, v: real)
    ensures Sq(u - v) == Sq(v - u)
  {
    assert (v - u) == -(u - v);
  }

  /** The proximity test does not depend on which quad is the new one. */
  lemma NearSymmetric(a: Quad, b: Quad, threshold: real)
    ensures Near(a, b, threshold) <==> Near(b, a, threshold)
  {
    SqSymmetric(a.p0.x, b.p0.x); SqSymmetric(a.p0.y, b.p0.y);
    SqSymmetric(a.p1.x, b.p1.x); SqSymmetric(a.p1.y, b.p1.y);
    SqSymmetric(a.p2.x, b.p2.x); SqSymmetric(a.p2.y, b.p2.y);
    SqSymmetric(a.p3.x, b.p3.x); SqSymmetric(a.p3.y, b.p3.y);
  }

  /** With a positive threshold every quad is near itself. */
  lemma NearSelf(a: Quad, threshold: real)
    requires 0.0 < threshold
    ensures Near(a, a, threshold)
  {
    assert 0.0 * 0.0 == SqDist(a, a);
    NearMatchesNorm(a, a, threshold, 0.0);
  }

  /** Walks the accepted quads in order and answers true as soon as one of
      them is near the new quad; false on an empty list. */
  function IsDuplicate(accepted: seq<Quad>, q: Quad, threshold: real): (r: bool)
    ensures r <==> exists i :: 0 <= i < |accepted| && Near(q, accepted[i], threshold)
  {
    if |accepted| == 0 then false
    else if Near(q, accepted[0], threshold) then true
    else
      var rest := IsDuplicate(accepted[1..], q, threshold);
      assert forall i :: 1 <= i < |accepted| ==> accepted[i] == accepted[1..][i - 1];
      rest
  }

  /** No two distinct positions of `ps` hold quads that are near each other. */
  ghost predicate Separated(ps: seq<Quad>, threshold: real)
  {
    forall i, j :: 0 <= i < |ps| && 0 <= j < |ps| && i != j ==> !Near(ps[i], ps[j], threshold)
  }

  /** Appending a quad that is not a duplicate keeps the list separated. */
  lemma AppendKeepsSeparated(ps: seq<Quad>, q: Quad, threshold: real)
    requires Separated(ps, threshold)
    requires !IsDuplicate(ps, q, threshold)
    ensures Separated(ps + [q], threshold)
  {
    var qs := ps + [q];
    forall i, j | 0 <= i < |qs| && 0 <= j < |qs| && i != j
      ensures !Near(qs[i], qs[j], threshold)
    {
      if i == |ps| {
        assert !Near(q, ps[j], threshold);
      } else if j == |ps| {
        assert !Near(q, ps[i], threshold);
        NearSymmetric(q, ps[i], threshold);
      } else {
        assert qs[i] == ps[i] && qs[j] == ps[j];
      }
    }
  }
}
