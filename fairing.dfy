/**
 * The set-up for the fairing solve, main.cpp lines 226-257: the fused lists are copied
 * into the matrices handed to `igl::harmonic`, and every fused vertex after the patch's
 * own rows becomes a fixed constraint, `b` holding its index and `bc` its position.
 * The solve itself (line 261) is library code, not part of this model.
 */
module FairingSetup {
  import opened Geometry

  /**
   * Fills `fairedV`, `fairedF`, `b` and `bc` element by element. The fixed vertices are
   * exactly the rows `patchCount .. |fusedV| - 1`, in increasing order, each constrained to
   * its own current position; every patch row is left free.
   */
  method FairingConstraints(fusedV: seq<Point>, fusedF: seq<Face>, patchCount: nat)
    returns (fairedV: seq<Point>, fairedF: seq<Face>, b: seq<int>, bc: seq<Point>)
    requires patchCount <= |fusedV|
    ensures fairedV == fusedV && fairedF == fusedF
    ensures |b| == |fusedV| - patchCount && |bc| == |b|
    ensures forall j :: 0 <= j < |b| ==> b[j] == patchCount + j && bc[j] == fairedV[b[j]]
    ensures forall i :: i in b <==> patchCount <= i < |fusedV|
    ensures forall j, k :: 0 <= j < k < |b| ==> b[j] < b[k]
  {
    var V := new Point[|fusedV|];
    for vindex := 0 to |fusedV|
      invariant forall i :: 0 <= i < vindex ==> V[i] == fusedV[i]
    {
      V[vindex] := fusedV[vindex];
    }
    assert V[..] == fusedV;
    var F := new Face[|fusedF|];
    for findex := 0 to |fusedF|
      invariant V[..] == fusedV
      invariant forall i :: 0 <= i < findex ==> F[i] == fusedF[i]
    {
      F[findex] := fusedF[findex];
    }
    assert F[..] == fusedF;
    var B := new int[V.Length - patchCount];
    var BC := new Point[V.Length - patchCount];
    for i := patchCount to V.Length
      invariant V[..] == fusedV && F[..] == fusedF
      invariant forall j :: 0 <= j < i - patchCount ==> B[j] == patchCount + j && BC[j] == V[patchCount + j]
    {
      var jj := i - patchCount;
      B[jj] := i;
      BC[jj] := V[i];
    }
    fairedV, fairedF, b, bc := V[..], F[..], B[..], BC[..];
    forall i | patchCount <= i < |fusedV|
      ensures i in b
    {
      assert b[i - patchCount] == i;
    }
  }
}
