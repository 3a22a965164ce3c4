/**
 * Vertex positions, triangles and meshes, as stored in the Eigen matrices of main.cpp
 * (one row of `MatrixXd` per vertex, one row of `MatrixXi` per triangle), together with
 * the two geometric notions the repository computes itself: the coincidence test used by
 * the weld and the centroid of the boundary loop.
 */
module Geometry {

  /** One vertex position: a row (x, y, z) of a vertex matrix, over the reals. */
  datatype Point = Point(x: real, y: real, z: real)

  /** One triangle: a row of a face matrix, its three vertex indices in winding order. */
  datatype Face = Face(a: int, b: int, c: int)

  /** A mesh as a pair of matrices: vertex rows `V` and face rows `F`. */
  datatype Mesh = Mesh(V: seq<Point>, F: seq<Face>)

  /** The coincidence tolerance of the weld: two positions closer than this are one vertex. */
  const Tolerance: real := 0.00001

  function SquaredDistance(u: Point, v: Point): (d: real)
  {
    (u.x - v.x) * (u.x - v.x) + (u.y - v.y) * (u.y - v.y) + (u.z - v.z) * (u.z - v.z)
  }

  /**
   * The weld's test `(u - v).norm() < 0.00001`, stated without a square root:
   * over the reals, a norm is below the tolerance exactly when its square is below
   * the square of the tolerance.
   */
  predicate Near(u: Point, v: Point)
  {
    SquaredDistance(u, v) < Tolerance * Tolerance
  }

  /** Every position coincides with itself, and coincidence does not depend on the order. */
  lemma NearReflexiveSymmetric(u: Point, v: Point)
    ensures Near(u, u)
    ensures Near(u, v) == Near(v, u)
  {
  }

  /** The three corner indices of a triangle, in winding order. */
  function Corners(f: Face): (cs: seq<int>)
    ensures |cs| == 3 && cs[0] == f.a && cs[1] == f.b && cs[2] == f.c
  {
    [f.a, f.b, f.c]
  }

  /** Every corner of `f` indexes one of `n` vertices. */
  predicate FaceIn(f: Face, n: int)
  {
    0 <= f.a < n && 0 <= f.b < n && 0 <= f.c < n
  }

  /** Every face of the mesh indexes one of its own vertices. */
  predicate ValidMesh(m: Mesh)
  {
    forall t :: 0 <= t < |m.F| ==> FaceIn(m.F[t], |m.V|)
  }

  /** The corner indices of all faces, face after face, in the order the weld visits them. */
  function AllCorners(faces: seq<Face>): (cs: seq<int>)
    ensures |cs| == 3 * |faces|
  {
    if faces == [] then [] else AllCorners(faces[..|faces| - 1]) + Corners(faces[|faces| - 1])
  }

  /** Coordinate `axis` (0, 1 or 2) of a position: a column of the vertex matrix. */
  function Coord(p: Point, axis: nat): real
    requires axis < 3
  {
    if axis == 0 then p.x else if axis == 1 then p.y else p.z
  }

  function Add(p: Point, q: Point): Point
  {
    Point(p.x + q.x, p.y + q.y, p.z + q.z)
  }

  function Scale(s: real, p: Point): Point
  {
    Point(s * p.x, s * p.y, s * p.z)
  }

  lemma CoordScale(k: real, p: Point, axis: nat)
    requires axis < 3
    ensures Coord(Scale(k, p), axis) == k * Coord(p, axis)
  {
  }

  /** The column-wise sum of a block of vertex rows (`colwise().sum()`). */
  function SumPoints(ps: seq<Point>): Point
  {
    if ps == [] then Point(0.0, 0.0, 0.0) else Add(SumPoints(ps[..|ps| - 1]), ps[|ps| - 1])
  }

  /** The arithmetic mean of a non-empty block of vertex rows. */
  function Centroid(ps: seq<Point>): Point
    requires |ps| > 0
  {
    Scale(1.0 / (|ps| as real), SumPoints(ps))
  }

  /** The centroid is the mean: |ps| copies of it add up to the sum of the rows. */
  lemma CentroidIsMean(ps: seq<Point>)
    requires |ps| > 0
    ensures Scale(|ps| as real, Centroid(ps)) == SumPoints(ps)
  {
    var n := |ps| as real;
    var s := SumPoints(ps);
    assert n * ((1.0 / n) * s.x) == s.x;
    assert n * ((1.0 / n) * s.y) == s.y;
    assert n * ((1.0 / n) * s.z) == s.z;
  }

  /** `n` copies of `c` added up: repeated addition, which keeps the sums below linear. */
  function Times(n: nat, c: real): real
  {
    if n == 0 then 0.0 else Times(n - 1, c) + c
  }

  lemma {:induction false} TimesIsProduct(n: nat, c: real)
    ensures Times(n, c) == (n as real) * c
  {
    if n > 0 {
      TimesIsProduct(n - 1, c);
      Distribute((n - 1) as real, c);
    }
  }

  lemma Distribute(k: real, c: real)
    ensures (k + 1.0) * c == k * c + c
  {
  }

  /** Summing rows whose coordinate lies in [lo, hi] gives a sum in [n * lo, n * hi]. */
  lemma {:induction false} SumBounds(ps: seq<Point>, axis: nat, lo: real, hi: real)
    requires axis < 3
    requires forall i :: 0 <= i < |ps| ==> lo <= Coord(ps[i], axis) <= hi
    ensures Times(|ps|, lo) <= Coord(SumPoints(ps), axis) <= Times(|ps|, hi)
  {
    if ps != [] {
      var prefix, last := ps[..|ps| - 1], ps[|ps| - 1];
      assert forall i :: 0 <= i < |prefix| ==> prefix[i] == ps[i];
      SumBounds(prefix, axis, lo, hi);
      assert Coord(SumPoints(ps), axis) == Coord(SumPoints(prefix), axis) + Coord(last, axis);
    }
  }

  /** Dividing by a positive count keeps a sum's bounds: n * lo <= s implies lo <= s / n. */
  lemma ScaleDownBounds(n: real, s: real, lo: real, hi: real)
    requires n > 0.0 && n * lo <= s <= n * hi
    ensures lo <= (1.0 / n) * s <= hi
  {
    var k := 1.0 / n;
    assert k > 0.0;
    assert k * (s - n * lo) >= 0.0;
    assert k * (n * hi - s) >= 0.0;
    assert k * n == 1.0;
  }

  /**
   * The centroid lies within the axis-aligned bounds of the rows it averages, on every
   * axis: a non-degenerate loop gives a fan centre inside the loop's bounding box.
   */
  lemma CentroidWithinBounds(ps: seq<Point>, axis: nat, lo: real, hi: real)
    requires |ps| > 0 && axis < 3
    requires forall i :: 0 <= i < |ps| ==> lo <= Coord(ps[i], axis) <= hi
    ensures lo <= Coord(Centroid(ps), axis) <= hi
  {
    SumBounds(ps, axis, lo, hi);
    TimesIsProduct(|ps|, lo);
    TimesIsProduct(|ps|, hi);
    ScaledBounds(|ps| as real, SumPoints(ps), axis, lo, hi);
  }

  lemma ScaledBounds(n: real, sum: Point, axis: nat, lo: real, hi: real)
    requires n > 0.0 && axis < 3
    requires n * lo <= Coord(sum, axis) <= n * hi
    ensures lo <= Coord(Scale(1.0 / n, sum), axis) <= hi
  {
    ScaleDownBounds(n, Coord(sum, axis), lo, hi);
    CoordScale(1.0 / n, sum, axis);
  }

  /** Averaging copies of one position gives that position back. */
  lemma CentroidOfCopies(ps: seq<Point>, p: Point)
    requires |ps| > 0
    requires forall i :: 0 <= i < |ps| ==> ps[i] == p
    ensures Centroid(ps) == p
  {
    CentroidWithinBounds(ps, 0, p.x, p.x);
    CentroidWithinBounds(ps, 1, p.y, p.y);
    CentroidWithinBounds(ps, 2, p.z, p.z);
  }
}
