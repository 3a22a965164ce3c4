/**
 * The body of `main` in main.cpp, as far as the repository's own code goes: option
 * parsing, reading the mesh, boundary-loop extraction, upsampling, the fan patch, the weld
 * and the fairing set-up, aborting at the first stage that fails. The library stages are
 * parameters: `readObj` (igl::readOBJ), `boundaryLoop` (igl::boundary_loop) and
 * `upsample` (igl::upsample). What follows the set-up (igl::harmonic, igl::decimate,
 * igl::writeOBJ) is not part of this model.
 */
module Inpaint {
  import opened Wrappers
  import opened Geometry
  import opened CommandLine
  import opened PatchBuilder
  import opened MeshWelder
  import opened FairingSetup

  /** Why `main` stops: the usage message with code 1-5, the no-hole message, or an index the source would read out of bounds. */
  datatype Failure = BadArgument(arg: ArgumentError) | ReadFailed | NoHole | IndexOutOfRange

  /**
   * What `main` holds when it calls `igl::harmonic` and then `igl::decimate`: the fused
   * mesh, the fixed indices and positions, the upsampled patch (`patchV`, `patchF`), and
   * the target face count and output path.
   */
  datatype FairingProblem = FairingProblem(
    V: seq<Point>, F: seq<Face>, b: seq<int>, bc: seq<Point>,
    patch: Mesh, outFaces: U32, outFile: string)

  /** Every loop entry names a vertex of a mesh with `n` vertices. */
  predicate LoopIn(loop: seq<int>, n: int)
  {
    forall i :: 0 <= i < |loop| ==> 0 <= loop[i] < n
  }

  /**
   * The constraints of lines 247-257 fix, in order, the original vertices the weld
   * appended: the positions in `bc` are those of the weld's new origins.
   */
  lemma FixedAreNewOrigins(patchV: seq<Point>, vertices: seq<Point>, cs: seq<int>, n: nat,
                           fusedV: seq<Point>, weldMap: map<int, int>, b: seq<int>, bc: seq<Point>)
    requires WeldInv(patchV, vertices, cs, n, fusedV, weldMap)
    requires |b| == |fusedV| - |patchV| && |bc| == |b|
    requires forall j :: 0 <= j < |b| ==> b[j] == |patchV| + j && bc[j] == fusedV[b[j]]
    ensures |b| == |NewOrigins(patchV, vertices, cs, n)|
    ensures forall j :: 0 <= j < |b| ==>
              0 <= NewOrigins(patchV, vertices, cs, n)[j] < |vertices| &&
              bc[j] == vertices[NewOrigins(patchV, vertices, cs, n)[j]]
  {
  }

  /**
   * Lines 70-257 of `main`. The arguments are checked before any file is read, so a
   * missing or unreadable flag ends the run whatever the input file holds; a mesh without
   * a hole ends it before any upsampling.
   */
  method Inpaint(argv: seq<string>, parse: string -> Option<U32>, readObj: string -> Option<Mesh>,
                 boundaryLoop: seq<Face> -> seq<int>, upsample: (Mesh, nat) -> Mesh)
    returns (r: Result<FairingProblem, Failure>)
    ensures OptionsOf(argv, parse).Failure? ==> r == Failure(BadArgument(OptionsOf(argv, parse).error))
    ensures OptionsOf(argv, parse).Success? && readObj(OptionsOf(argv, parse).value.inFile).None? ==>
              r == Failure(ReadFailed)
    ensures OptionsOf(argv, parse).Success? && readObj(OptionsOf(argv, parse).value.inFile).Some? &&
            boundaryLoop(readObj(OptionsOf(argv, parse).value.inFile).value.F) == [] ==>
              r == Failure(NoHole)
    ensures r.Success? ==>
              OptionsOf(argv, parse).Success? &&
              r.value.outFaces == OptionsOf(argv, parse).value.outFaces &&
              r.value.outFile == OptionsOf(argv, parse).value.outFile
    ensures r.Success? ==>
              var p := r.value;
              |p.patch.V| <= |p.V| && p.V[..|p.patch.V|] == p.patch.V &&
              |p.patch.F| <= |p.F| && p.F[..|p.patch.F|] == p.patch.F &&
              (forall t :: |p.patch.F| <= t < |p.F| ==> FaceIn(p.F[t], |p.V|)) &&
              (ValidMesh(p.patch) ==> ValidMesh(Mesh(p.V, p.F)))
    ensures r.Success? ==>
              var p := r.value;
              |p.patch.V| <= |p.V| && |p.b| == |p.V| - |p.patch.V| && |p.bc| == |p.b| &&
              forall j :: 0 <= j < |p.b| ==> p.b[j] == |p.patch.V| + j && p.bc[j] == p.V[p.b[j]]
    ensures r.Success? ==>
              var opts := OptionsOf(argv, parse);
              opts.Success? && readObj(opts.value.inFile).Some? &&
              var mesh := readObj(opts.value.inFile).value;
              var loop := boundaryLoop(mesh.F);
              var up := upsample(mesh, opts.value.upsample);
              |loop| > 0 && LoopIn(loop, |up.V|) && ValidMesh(up) &&
              r.value.patch == upsample(FanPatch(up.V, loop), opts.value.upsample) &&
              IndicesIn(AllCorners(up.F), |up.V|) &&
              var o := NewOrigins(r.value.patch.V, up.V, AllCorners(up.F), 3 * |up.F|);
              |r.value.b| == |o| && (forall j :: 0 <= j < |o| ==> 0 <= o[j] < |up.V| && r.value.bc[j] == up.V[o[j]]) &&
              |r.value.F| == |r.value.patch.F| + |up.F| &&
              exists weldMap :: WeldInv(r.value.patch.V, up.V, AllCorners(up.F), 3 * |up.F|, r.value.V, weldMap) &&
                                FacesRemapped(weldMap, r.value.patch.F, up.F, r.value.F, |up.F|)
    ensures OptionsOf(argv, parse).Success? && readObj(OptionsOf(argv, parse).value.inFile).Some? ==>
              var opts := OptionsOf(argv, parse).value;
              var mesh := readObj(opts.inFile).value;
              var loop := boundaryLoop(mesh.F);
              var up := upsample(mesh, opts.upsample);
              (r.Success? <==> |loop| > 0 && LoopIn(loop, |up.V|) && ValidMesh(up)) &&
              (|loop| > 0 && !(LoopIn(loop, |up.V|) && ValidMesh(up)) ==> r == Failure(IndexOutOfRange))
  {
    var opts := ParseOptions(argv, parse);
    if opts.Failure? {
      return Failure(BadArgument(opts.error));
    }
    var o := opts.value;
    var input := readObj(o.inFile);
    if input.None? {
      return Failure(ReadFailed);
    }
    var mesh := input.value;
    var originalLoop := boundaryLoop(mesh.F);
    if |originalLoop| == 0 {
      return Failure(NoHole);
    }
    var up := upsample(mesh, o.upsample);
    if !LoopIn(originalLoop, |up.V|) || !ValidMesh(up) {
      return Failure(IndexOutOfRange);
    }
    var patchV0, patchF0 := BuildPatch(up.V, originalLoop);
    var patch := upsample(Mesh(patchV0, patchF0), o.upsample);
    var fusedV, fusedF, weldMap := Weld(patch.V, patch.F, up.V, up.F);
    var fairedV, fairedF, b, bc := FairingConstraints(fusedV, fusedF, |patch.V|);
    AllCornersIn(up.F, |up.V|);
    FixedAreNewOrigins(patch.V, up.V, AllCorners(up.F), 3 * |up.F|, fusedV, weldMap, b, bc);
    r := Success(FairingProblem(fairedV, fairedF, b, bc, patch, o.outFaces, o.outFile));
  }
}
