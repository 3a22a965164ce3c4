/**
 * The fan patch of main.cpp (lines 123-152): the loop's vertex rows in loop order followed
 * by their centroid, and one triangle per loop edge joining that edge to the centroid.
 * The upsampling of the patch that follows (line 155) is library code, not part of this model.
 */
module PatchBuilder {
  import opened Geometry

  /** Fan triangle `i` of a loop of `m` vertices: ((i + 1) mod m, i, m), `m` being the centroid row. */
  function FanFace(i: nat, m: nat): Face
    requires i < m
  {
    Face((i + 1) % m, i, m)
  }

  /** The triangle `f` traverses the edge from vertex `u` to vertex `v`. */
  predicate HasDirectedEdge(f: Face, u: int, v: int)
  {
    (f.a == u && f.b == v) || (f.b == u && f.c == v) || (f.c == u && f.a == v)
  }

  /** Every fan triangle indexes only the m + 1 patch rows, and each contains the centroid row. */
  lemma FanFaceInPatch(i: nat, m: nat)
    requires i < m
    ensures FaceIn(FanFace(i, m), m + 1)
    ensures m in Corners(FanFace(i, m))
  {
  }

  /**
   * Loop edge i (from loop vertex i to loop vertex i + 1) is covered by fan triangle i, run
   * backwards, and by no other fan triangle: the patch closes every edge of the hole exactly
   * once, with the winding opposite to the loop's direction.
   */
  lemma FanCoversLoopEdgeOnce(i: nat, j: nat, m: nat)
    requires i < m && j < m
    ensures HasDirectedEdge(FanFace(i, m), (i + 1) % m, i)
    ensures HasDirectedEdge(FanFace(j, m), (i + 1) % m, i) ==> j == i
  {
  }

  /**
   * Neighbouring fan triangles i - 1 and i share the spoke between loop vertex i and the
   * centroid and traverse it in opposite directions, so the fan is consistently oriented.
   */
  lemma FanSpokesOpposite(i: nat, m: nat)
    requires i < m
    ensures HasDirectedEdge(FanFace(i, m), i, m)
    ensures HasDirectedEdge(FanFace((i + m - 1) % m, m), m, i)
  {
    var j := (i + m - 1) % m;
    if i == 0 {
      ModBelow(m - 1, m);
      ModSelf(m);
    } else {
      ModWrap(i - 1, m);
      ModBelow(i - 1, m);
      ModBelow(i, m);
    }
  }

  lemma ModBelow(x: int, m: int)
    requires 0 <= x < m
    ensures x % m == x
  {
  }

  lemma ModSelf(m: int)
    requires m > 0
    ensures m % m == 0
  {
  }

  lemma ModWrap(x: int, m: int)
    requires 0 <= x < m
    ensures (x + m) % m == x
  {
    assert (x + m) / m == 1;
  }

  /** The rows of `vertices` that the loop names, in loop order (`igl::slice`, lines 137-141). */
  function LoopRows(vertices: seq<Point>, loop: seq<int>): seq<Point>
    requires forall i :: 0 <= i < |loop| ==> 0 <= loop[i] < |vertices|
  {
    seq(|loop|, i requires 0 <= i < |loop| => vertices[loop[i]])
  }

  /**
   * The patch for a boundary loop of the mesh `vertices`, as a value: the loop's vertices in
   * loop order, then their centroid, and the fan face `i` for every loop edge `i`.
   */
  function FanPatch(vertices: seq<Point>, loop: seq<int>): Mesh
    requires |loop| > 0
    requires forall i :: 0 <= i < |loop| ==> 0 <= loop[i] < |vertices|
  {
    var m := |loop|;
    var rows := LoopRows(vertices, loop);
    Mesh(rows + [Centroid(rows)], seq(m, i requires 0 <= i < m => FanFace(i, m)))
  }

  /**
   * Builds the patch for a boundary loop of the mesh `vertices`: rows `0 .. m - 1` are the
   * loop's vertices in loop order (`igl::slice`), row `m` is their mean (`bcenter`, joined on
   * with `igl::cat`), and the face matrix is filled row by row with the fan triangles.
   */
  method BuildPatch(vertices: seq<Point>, loop: seq<int>) returns (patchV: seq<Point>, patchF: seq<Face>)
    requires |loop| > 0
    requires forall i :: 0 <= i < |loop| ==> 0 <= loop[i] < |vertices|
    ensures |patchV| == |loop| + 1 && |patchF| == |loop|
    ensures forall i :: 0 <= i < |loop| ==> patchV[i] == vertices[loop[i]]
    ensures patchV[|loop|] == Centroid(patchV[..|loop|])
    ensures forall i :: 0 <= i < |loop| ==> patchF[i] == FanFace(i, |loop|)
    ensures ValidMesh(Mesh(patchV, patchF))
    ensures Mesh(patchV, patchF) == FanPatch(vertices, loop)
  {
    var m := |loop|;
    var rows := LoopRows(vertices, loop);
    var bcenter := Centroid(rows);
    patchV := rows + [bcenter];
    assert patchV[..m] == rows;
    var faces := new Face[m];
    for i := 0 to m
      invariant forall k :: 0 <= k < i ==> faces[k] == FanFace(k, m)
    {
      faces[i] := Face((1 + i) % m, i, m);
    }
    patchF := faces[..];
    forall t | 0 <= t < |patchF|
      ensures FaceIn(patchF[t], |patchV|)
    {
      FanFaceInPatch(t, m);
    }
  }
}
