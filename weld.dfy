/**
 * The vertex weld of main.cpp (lines 158-224): the upsampled patch and the upsampled
 * original mesh are fused into one vertex list and one face list. Original vertices that
 * coincide with a patch vertex are replaced by it; the others are appended in the order in
 * which the faces first use them. The weld map `originalToFusedMap` remembers each
 * original index's fused index once it has been decided.
 */
module MeshWelder {
  import opened Geometry

  /** Every index in `cs` names one of `n` vertices. */
  predicate IndicesIn(cs: seq<int>, n: int)
  {
    forall i :: 0 <= i < |cs| ==> 0 <= cs[i] < n
  }

  /** Some patch vertex coincides with `p`. */
  predicate HasNear(patchV: seq<Point>, p: Point)
  {
    exists j :: 0 <= j < |patchV| && Near(patchV[j], p)
  }

  /**
   * `r` is what the weld's scan reports for `p`: the lowest patch row that coincides with
   * `p`, or -1 when there is none.
   */
  predicate IsFirstMatch(patchV: seq<Point>, p: Point, r: int)
  {
    if HasNear(patchV, p) then
      0 <= r < |patchV| && Near(patchV[r], p) && forall j :: 0 <= j < r ==> !Near(patchV[j], p)
    else
      r == -1
  }

  /**
   * The scan of lines 188-197: looks for `p` among the first `patchCount` fused vertices
   * only (the patch's own rows), never among vertices the weld appended.
   */
  method FindMatch(fusedV: seq<Point>, patchCount: nat, p: Point) returns (foundMatch: int)
    requires patchCount <= |fusedV|
    ensures IsFirstMatch(fusedV[..patchCount], p, foundMatch)
  {
    foundMatch := -1;
    var jj := 0;
    while jj < patchCount
      invariant 0 <= jj <= patchCount
      invariant forall j :: 0 <= j < jj ==> !Near(fusedV[j], p)
    {
      if Near(fusedV[jj], p) {
        foundMatch := jj;
        break;
      }
      jj := jj + 1;
    }
  }

  /**
   * The original indices, among the first `n` corners of `cs`, that became new fused
   * vertices, in the order they were appended: an index is appended on its first visit
   * when no patch vertex coincides with it.
   */
  function NewOrigins(patchV: seq<Point>, vertices: seq<Point>, cs: seq<int>, n: nat): seq<int>
    requires n <= |cs| && IndicesIn(cs, |vertices|)
  {
    if n == 0 then []
    else
      var k := cs[n - 1];
      if k in cs[..n - 1] || HasNear(patchV, vertices[k]) then NewOrigins(patchV, vertices, cs, n - 1)
      else NewOrigins(patchV, vertices, cs, n - 1) + [k]
  }

  /** Every appended index was visited, has no coinciding patch vertex, and is appended once. */
  lemma {:induction false} NewOriginsSound(patchV: seq<Point>, vertices: seq<Point>, cs: seq<int>, n: nat)
    requires n <= |cs| && IndicesIn(cs, |vertices|)
    ensures forall j :: 0 <= j < |NewOrigins(patchV, vertices, cs, n)| ==>
              NewOrigins(patchV, vertices, cs, n)[j] in cs[..n] &&
              !HasNear(patchV, vertices[NewOrigins(patchV, vertices, cs, n)[j]])
    ensures forall i, j :: 0 <= i < j < |NewOrigins(patchV, vertices, cs, n)| ==>
              NewOrigins(patchV, vertices, cs, n)[i] != NewOrigins(patchV, vertices, cs, n)[j]
  {
    if n > 0 {
      NewOriginsSound(patchV, vertices, cs, n - 1);
      assert cs[..n] == cs[..n - 1] + [cs[n - 1]];
    }
  }

  /** Every visited index with no coinciding patch vertex is appended. */
  lemma {:induction false} NewOriginsComplete(patchV: seq<Point>, vertices: seq<Point>, cs: seq<int>, n: nat)
    requires n <= |cs| && IndicesIn(cs, |vertices|)
    ensures forall i :: 0 <= i < n && !HasNear(patchV, vertices[cs[i]]) ==>
              cs[i] in NewOrigins(patchV, vertices, cs, n)
  {
    if n > 0 {
      NewOriginsComplete(patchV, vertices, cs, n - 1);
      forall i | 0 <= i < n && !HasNear(patchV, vertices[cs[i]])
        ensures cs[i] in NewOrigins(patchV, vertices, cs, n)
      {
        if i < n - 1 {
        } else if cs[i] in cs[..n - 1] {
          var u :| 0 <= u < n - 1 && cs[..n - 1][u] == cs[i];
          assert cs[u] == cs[i];
        }
      }
    }
  }

  /** When every visited vertex coincides with some patch vertex, nothing is appended. */
  lemma {:induction false} NewOriginsAllMatched(patchV: seq<Point>, vertices: seq<Point>, cs: seq<int>, n: nat)
    requires n <= |cs| && IndicesIn(cs, |vertices|)
    requires forall i :: 0 <= i < n ==> HasNear(patchV, vertices[cs[i]])
    ensures NewOrigins(patchV, vertices, cs, n) == []
  {
    if n > 0 {
      NewOriginsAllMatched(patchV, vertices, cs, n - 1);
    }
  }

  /**
   * Welding a mesh against itself (the patch rows are the original rows) appends no vertex:
   * every original vertex finds itself among the patch rows.
   */
  lemma WeldAgainstItselfAppendsNothing(vertices: seq<Point>, cs: seq<int>)
    requires IndicesIn(cs, |vertices|)
    ensures NewOrigins(vertices, vertices, cs, |cs|) == []
  {
    forall i | 0 <= i < |cs|
      ensures HasNear(vertices, vertices[cs[i]])
    {
      NearReflexiveSymmetric(vertices[cs[i]], vertices[cs[i]]);
    }
    NewOriginsAllMatched(vertices, vertices, cs, |cs|);
  }

  /**
   * The weld state after welding a mesh against itself: the fused vertex list is the
   * patch's own, with nothing appended.
   */
  lemma WeldedAgainstItself(vertices: seq<Point>, cs: seq<int>, fusedV: seq<Point>, weldMap: map<int, int>)
    requires WeldInv(vertices, vertices, cs, |cs|, fusedV, weldMap)
    ensures fusedV == vertices
  {
    WeldAgainstItselfAppendsNothing(vertices, cs);
  }

  /** A sequence without repetitions whose elements lie in [0, n) has at most n elements. */
  lemma {:induction false} DistinctBound(s: seq<int>, n: nat)
    requires forall i :: 0 <= i < |s| ==> 0 <= s[i] < n
    requires forall i, j :: 0 <= i < j < |s| ==> s[i] != s[j]
    ensures |s| <= n
  {
    if s == [] {
      return;
    }
    assert 0 <= s[0] < n;
    if i :| 0 <= i < |s| && s[i] == n - 1 {
      var rest := s[..i] + s[i + 1..];
      forall u | 0 <= u < |rest|
        ensures 0 <= rest[u] < n - 1
      {
        var w := if u < i then u else u + 1;
        assert rest[u] == s[w] && w != i;
      }
      forall u, v | 0 <= u < v < |rest|
        ensures rest[u] != rest[v]
      {
        var wu, wv := if u < i then u else u + 1, if v < i then v else v + 1;
        assert rest[u] == s[wu] && rest[v] == s[wv] && wu < wv;
      }
      DistinctBound(rest, n - 1);
    } else {
      DistinctBound(s, n - 1);
    }
  }

  /** The weld appends at most one fused vertex per original vertex. */
  lemma NewOriginsBound(patchV: seq<Point>, vertices: seq<Point>, cs: seq<int>, n: nat)
    requires n <= |cs| && IndicesIn(cs, |vertices|)
    ensures |NewOrigins(patchV, vertices, cs, n)| <= |vertices|
  {
    var o := NewOrigins(patchV, vertices, cs, n);
    NewOriginsSound(patchV, vertices, cs, n);
    forall j | 0 <= j < |o|
      ensures 0 <= o[j] < |vertices|
    {
      var u :| 0 <= u < n && cs[..n][u] == o[j];
      assert cs[u] == o[j];
    }
    DistinctBound(o, |vertices|);
  }

  /**
   * What the weld map says about original index `k`: a coinciding patch vertex, the lowest
   * one, or else an appended fused vertex holding `k`'s position.
   */
  predicate Resolved(patchV: seq<Point>, vertices: seq<Point>, fusedV: seq<Point>, k: int, v: int)
  {
    0 <= k < |vertices| && 0 <= v < |fusedV| &&
    if HasNear(patchV, vertices[k]) then IsFirstMatch(patchV, vertices[k], v)
    else |patchV| <= v && fusedV[v] == vertices[k]
  }

  /**
   * The state of the weld after visiting the first `n` corners of `cs`: the fused list
   * starts with the patch rows; the map holds exactly the visited indices, each resolved as
   * the scan decides; and the rows after the patch are the appended originals, in order.
   */
  ghost predicate WeldInv(patchV: seq<Point>, vertices: seq<Point>, cs: seq<int>, n: nat,
                          fusedV: seq<Point>, weldMap: map<int, int>)
  {
    n <= |cs| && IndicesIn(cs, |vertices|) &&
    |patchV| <= |fusedV| && fusedV[..|patchV|] == patchV &&
    (forall k :: k in weldMap <==> k in cs[..n]) &&
    (forall k :: k in weldMap ==> Resolved(patchV, vertices, fusedV, k, weldMap[k])) &&
    var o := NewOrigins(patchV, vertices, cs, n);
    |fusedV| == |patchV| + |o| &&
    forall j :: 0 <= j < |o| ==>
      o[j] in weldMap && weldMap[o[j]] == |patchV| + j && fusedV[|patchV| + j] == vertices[o[j]]
  }

  /**
   * Lines 183-214 for corner `n` of `cs`: reuse the map entry if there is one; otherwise
   * scan the patch rows, and record either the match or a newly appended vertex whose
   * index is the counter `index`, then advance the counter.
   */
  method ResolveCorner(patchV: seq<Point>, vertices: seq<Point>, ghost cs: seq<int>, ghost n: nat,
                       fusedV: seq<Point>, weldMap: map<int, int>, index: int, k: int)
    returns (fusedV': seq<Point>, weldMap': map<int, int>, index': int, ret: int)
    requires WeldInv(patchV, vertices, cs, n, fusedV, weldMap) && index == |fusedV|
    requires n < |cs| && k == cs[n]
    ensures WeldInv(patchV, vertices, cs, n + 1, fusedV', weldMap') && index' == |fusedV'|
    ensures k in weldMap' && ret == weldMap'[k]
    ensures forall key :: key in weldMap ==> key in weldMap' && weldMap'[key] == weldMap[key]
    ensures |fusedV| <= |fusedV'| && fusedV'[..|fusedV|] == fusedV
    ensures k in weldMap ==> fusedV' == fusedV && weldMap' == weldMap
  {
    assert cs[..n + 1] == cs[..n] + [k];
    if k in weldMap {
      fusedV', weldMap', index', ret := fusedV, weldMap, index, weldMap[k];
      return;
    }
    var foundMatch := FindMatch(fusedV, |patchV|, vertices[k]);
    if foundMatch != -1 {
      fusedV', weldMap', index', ret := fusedV, weldMap[k := foundMatch], index, foundMatch;
    } else {
      fusedV' := fusedV + [vertices[k]];
      weldMap' := weldMap[k := index];
      ret := index;
      index' := index + 1;
      assert fusedV'[..|patchV|] == patchV by {
        assert fusedV'[..|fusedV|] == fusedV;
      }
    }
  }

  /** The fused triangle `g` is the original triangle `f` with each corner mapped through the weld map. */
  predicate Remapped(weldMap: map<int, int>, f: Face, g: Face)
  {
    f.a in weldMap && f.b in weldMap && f.c in weldMap &&
    g == Face(weldMap[f.a], weldMap[f.b], weldMap[f.c])
  }

  /** `m'` keeps every entry of `m`: weld-map entries are never overwritten. */
  ghost predicate Extends(m: map<int, int>, m': map<int, int>)
  {
    forall key :: key in m ==> key in m' && m'[key] == m[key]
  }

  lemma RemappedStable(m: map<int, int>, m': map<int, int>, f: Face, g: Face)
    requires Extends(m, m') && Remapped(m, f, g)
    ensures Remapped(m', f, g)
  {
  }

  /**
   * The fused face list is the patch faces followed by the first `count` original faces,
   * each remapped through the weld map.
   */
  ghost predicate FacesRemapped(weldMap: map<int, int>, patchF: seq<Face>, faces: seq<Face>,
                                fusedF: seq<Face>, count: nat)
  {
    count <= |faces| && |fusedF| == |patchF| + count && fusedF[..|patchF|] == patchF &&
    forall t :: 0 <= t < count ==> Remapped(weldMap, faces[t], fusedF[|patchF| + t])
  }

  lemma FacesRemappedStep(m: map<int, int>, m': map<int, int>, patchF: seq<Face>, faces: seq<Face>,
                          fusedF: seq<Face>, count: nat, g: Face)
    requires FacesRemapped(m, patchF, faces, fusedF, count) && count < |faces|
    requires Extends(m, m') && Remapped(m', faces[count], g)
    ensures FacesRemapped(m', patchF, faces, fusedF + [g], count + 1)
  {
    var fusedF' := fusedF + [g];
    assert fusedF'[..|patchF|] == fusedF[..|patchF|];
    forall t | 0 <= t < count + 1
      ensures Remapped(m', faces[t], fusedF'[|patchF| + t])
    {
      if t < count {
        RemappedStable(m, m', faces[t], fusedF[|patchF| + t]);
      }
    }
  }

  lemma {:induction false} AllCornersIn(faces: seq<Face>, n: int)
    requires forall t :: 0 <= t < |faces| ==> FaceIn(faces[t], n)
    ensures IndicesIn(AllCorners(faces), n)
  {
    if faces != [] {
      AllCornersIn(faces[..|faces| - 1], n);
    }
  }

  /** Corner `i` of face `t` sits at position 3 * t + i of the corner sequence. */
  lemma {:induction false} AllCornersAt(faces: seq<Face>, t: nat, i: nat)
    requires t < |faces| && i < 3
    ensures AllCorners(faces)[3 * t + i] == Corners(faces[t])[i]
  {
    var prefix := faces[..|faces| - 1];
    if t < |faces| - 1 {
      AllCornersAt(prefix, t, i);
    }
  }

  /**
   * Lines 180-220 for one original triangle `f`, whose corners are corners `n` to `n + 2`
   * of `cs`: each corner in turn is resolved into `triIndices`, and the remapped triangle
   * is the face to append.
   */
  method WeldFace(patchV: seq<Point>, vertices: seq<Point>, ghost cs: seq<int>, ghost n: nat,
                  fusedV: seq<Point>, weldMap: map<int, int>, index: int, f: Face)
    returns (fusedV': seq<Point>, weldMap': map<int, int>, index': int, g: Face)
    requires WeldInv(patchV, vertices, cs, n, fusedV, weldMap) && index == |fusedV|
    requires n + 3 <= |cs| && cs[n..n + 3] == Corners(f)
    ensures WeldInv(patchV, vertices, cs, n + 3, fusedV', weldMap') && index' == |fusedV'|
    ensures Remapped(weldMap', f, g)
    ensures Extends(weldMap, weldMap')
  {
    fusedV', weldMap', index' := fusedV, weldMap, index;
    var triIndices := new int[3];
    ghost var done := n;
    for iv := 0 to 3
      invariant done == n + iv
      invariant WeldInv(patchV, vertices, cs, done, fusedV', weldMap') && index' == |fusedV'|
      invariant Extends(weldMap, weldMap')
      invariant forall u :: 0 <= u < iv ==> Corners(f)[u] in weldMap' && triIndices[u] == weldMap'[Corners(f)[u]]
    {
      var triIndex := Corners(f)[iv];
      assert triIndex == cs[n..n + 3][iv];
      var ret;
      fusedV', weldMap', index', ret := ResolveCorner(patchV, vertices, cs, done, fusedV', weldMap', index', triIndex);
      done := done + 1;
      triIndices[iv] := ret;
    }
    g := Face(triIndices[0], triIndices[1], triIndices[2]);
  }

  /** A fused triangle whose corners the weld map resolves indexes the fused vertices. */
  lemma RemappedIn(patchV: seq<Point>, vertices: seq<Point>, cs: seq<int>, n: nat,
                   fusedV: seq<Point>, weldMap: map<int, int>, f: Face, g: Face)
    requires WeldInv(patchV, vertices, cs, n, fusedV, weldMap) && Remapped(weldMap, f, g)
    ensures FaceIn(g, |fusedV|)
  {
    assert Resolved(patchV, vertices, fusedV, f.a, weldMap[f.a]);
    assert Resolved(patchV, vertices, fusedV, f.b, weldMap[f.b]);
    assert Resolved(patchV, vertices, fusedV, f.c, weldMap[f.c]);
  }

  /** A fused mesh whose appended faces are remapped original faces indexes only fused vertices. */
  lemma FusedFacesIn(patchV: seq<Point>, patchF: seq<Face>, vertices: seq<Point>, faces: seq<Face>,
                     cs: seq<int>, n: nat, fusedV: seq<Point>, fusedF: seq<Face>, weldMap: map<int, int>)
    requires WeldInv(patchV, vertices, cs, n, fusedV, weldMap)
    requires FacesRemapped(weldMap, patchF, faces, fusedF, |faces|)
    ensures forall t :: |patchF| <= t < |fusedF| ==> FaceIn(fusedF[t], |fusedV|)
    ensures ValidMesh(Mesh(patchV, patchF)) ==> ValidMesh(Mesh(fusedV, fusedF))
  {
    forall t | |patchF| <= t < |fusedF|
      ensures FaceIn(fusedF[t], |fusedV|)
    {
      RemappedIn(patchV, vertices, cs, n, fusedV, weldMap, faces[t - |patchF|], fusedF[t]);
    }
    if ValidMesh(Mesh(patchV, patchF)) {
      forall t | 0 <= t < |patchF|
        ensures FaceIn(fusedF[t], |fusedV|)
      {
        assert fusedF[t] == fusedF[..|patchF|][t];
      }
    }
  }

  /** Lines 161-172: the fused vertex and face lists start as copies of the patch, row by row. */
  method SeedFused(patchV: seq<Point>, patchF: seq<Face>) returns (fusedV: seq<Point>, fusedF: seq<Face>, index: int)
    ensures fusedV == patchV && fusedF == patchF && index == |fusedV|
  {
    fusedV, fusedF := [], [];
    index := 0;
    while index < |patchV|
      invariant 0 <= index <= |patchV| && fusedV == patchV[..index]
    {
      fusedV := fusedV + [patchV[index]];
      index := index + 1;
    }
    var findex := 0;
    while findex < |patchF|
      invariant 0 <= findex <= |patchF| && fusedF == patchF[..findex]
    {
      fusedF := fusedF + [patchF[findex]];
      findex := findex + 1;
    }
  }

  /**
   * The weld of lines 158-224. The fused lists are seeded with the patch; then every
   * original triangle, with its corners remapped, is appended to the fused faces.
   */
  method Weld(patchV: seq<Point>, patchF: seq<Face>, vertices: seq<Point>, faces: seq<Face>)
    returns (fusedV: seq<Point>, fusedF: seq<Face>, weldMap: map<int, int>)
    requires ValidMesh(Mesh(vertices, faces))
    ensures WeldInv(patchV, vertices, AllCorners(faces), 3 * |faces|, fusedV, weldMap)
    ensures FacesRemapped(weldMap, patchF, faces, fusedF, |faces|)
    ensures forall t :: |patchF| <= t < |fusedF| ==> FaceIn(fusedF[t], |fusedV|)
    ensures ValidMesh(Mesh(patchV, patchF)) ==> ValidMesh(Mesh(fusedV, fusedF))
  {
    var index;
    fusedV, fusedF, index := SeedFused(patchV, patchF);
    ghost var cs := AllCorners(faces);
    AllCornersIn(faces, |vertices|);
    weldMap := map[];
    assert fusedV[..|patchV|] == patchV;
    ghost var done := 0;
    for itri := 0 to |faces|
      invariant done == 3 * itri
      invariant WeldInv(patchV, vertices, cs, done, fusedV, weldMap)
      invariant index == |fusedV|
      invariant FacesRemapped(weldMap, patchF, faces, fusedF, itri)
    {
      AllCornersAt(faces, itri, 0);
      AllCornersAt(faces, itri, 1);
      AllCornersAt(faces, itri, 2);
      assert cs[done..done + 3] == Corners(faces[itri]);
      var g;
      ghost var prevMap := weldMap;
      fusedV, weldMap, index, g := WeldFace(patchV, vertices, cs, done, fusedV, weldMap, index, faces[itri]);
      FacesRemappedStep(prevMap, weldMap, patchF, faces, fusedF, itri, g);
      done := done + 3;
      fusedF := fusedF + [g];
    }
    FusedFacesIn(patchV, patchF, vertices, faces, cs, done, fusedV, fusedF, weldMap);
  }
}
