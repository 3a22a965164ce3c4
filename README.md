# Hole inpainting: a Dafny model

This program fills a hole in a triangle mesh. It reads an OBJ mesh and
finds the loop of boundary vertices around the hole. It upsamples the mesh.
It then covers the hole with a fan patch: one triangle per loop edge, all
meeting at the loop's centroid. The patch is upsampled too. The program
welds the patch onto the mesh: every original vertex within 0.00001 of a
patch vertex is merged into that patch vertex, and every other used vertex
is appended once. Finally it sets up a harmonic fairing problem. The
appended original vertices are fixed to their positions. Every patch row
is free to move, the seam rows included.

The model covers these parts:

- command-line handling (`CommandLine`, file `command_line.dfy`):
  `FindCommandLineParam`, `parseIntParam` and the four argument checks at
  the start of `main`;
- the fan patch (`PatchBuilder`, file `patch.dfy`) and the centroid it uses
  (`Geometry`, file `geometry.dfy`);
- the weld loop (`MeshWelder`, file `weld.dfy`);
- the construction of the fairing constraints (`FairingSetup`, file
  `fairing.dfy`);
- the whole pipeline from `argv` up to the solve (`Inpaint`, file
  `inpaint.dfy`).

The loops of the C++ become Dafny methods with loop invariants. Each
method is proved against a specification function or a state predicate:

- `FlagValue` is the token after the first occurrence of a flag.
- `OptionsOf` is the outcome of the four argument checks.
- `NewOrigins` lists, in order, the original vertices that the weld must
  append.
- `WeldInv` states how the vertices and the map relate part-way through
  the weld.

Lemmas then prove the properties the program relies on. Examples: a
missing flag stops the program; the patch is a consistently oriented fan;
welding a mesh against itself appends nothing; the fairing constraints
fix exactly the appended vertices.

Two behaviours of the code are worth noting:

- **Which vertices the weld compares against.** The weld compares an
  original vertex only with the patch rows `0 .. patchV.rows()-1`
  (`main.cpp:189`). It never compares with the vertices it has appended.
  So two original vertices at the same position are merged only when both
  lie within 0.00001 of a patch row; otherwise each one is appended
  separately.
  `MeshWelder.FindMatch` is called with exactly that prefix.
- **How many faces a triangular hole gets.** A three-vertex hole gets a
  fan of three faces around the added centroid vertex, like any other
  loop. `PatchBuilder.BuildPatch` models that.

## Model

| member | source | states |
|---|---|---|
| CommandLine.FindCommandLineParam | main.cpp:32-49 | the result is the token after the first `argv[i] == param` that has a successor, and "not found" when no such `i` exists |
| CommandLine.FlagValueNone | main.cpp:34-46 | the lookup reports "not found" if and only if no position holds the flag followed by another token |
| CommandLine.FlagValueFirst | main.cpp:34-41 | when `i` is the first position holding the flag with a successor, the token found is `argv[i+1]`, and later occurrences do not matter |
| CommandLine.ParseIntParam | main.cpp:56-68 | success if and only if the flag is found and its token parses; on success `out` is the parsed value; on failure `out` keeps its old value |
| CommandLine.OptionsNeedEveryFlag | main.cpp:76-93 | a missing `-in`, `-out`, `-outfaces` or `-upsample` always ends in a failure; a success carries exactly the tokens that follow `-in` and `-out`, and the parsed values of the tokens that follow `-outfaces` and `-upsample` |
| CommandLine.ParseOptions | main.cpp:76-93 | performs the four checks in the code's order and returns the first failing one (the codes `1`-`4`) or the four values |
| Geometry.CentroidIsMean | main.cpp:123-131 | the centroid times the number of loop points equals the sum of the loop points |
| Geometry.CentroidWithinBounds | main.cpp:123-131 | if every loop point lies between `lo` and `hi` on an axis, so does the centroid (it lies in the loop's bounding box) |
| Geometry.CentroidOfCopies | main.cpp:123-131 | the centroid of a loop whose points all coincide is that point |
| PatchBuilder.BuildPatch | main.cpp:133-152 | the patch has `m+1` rows: rows `0..m-1` are the loop's vertices in loop order and row `m` is their centroid; face `i` is `((i+1) mod m, i, m)`; every face index lies in the patch; the result is the value `FanPatch` |
| PatchBuilder.FanFaceInPatch | main.cpp:148-152 | every fan face indexes the `m+1` patch rows and uses the centre vertex `m` |
| PatchBuilder.FanCoversLoopEdgeOnce | main.cpp:148-152 | the fan face `i` holds the loop edge `(i+1) mod m -> i`, and no other fan face holds that directed edge |
| PatchBuilder.FanSpokesOpposite | main.cpp:148-152 | the spoke between loop vertex `i` and the centre is used in opposite directions by fan faces `i` and `(i-1) mod m`, so the fan is consistently oriented |
| MeshWelder.FindMatch | main.cpp:188-197 | returns the lowest patch row within the tolerance of the vertex, or `-1` if and only if no patch row is that close |
| MeshWelder.NewOriginsSound | main.cpp:199-208 | every appended original vertex is used by some face, is near no patch row, and is appended only once |
| MeshWelder.NewOriginsComplete | main.cpp:199-208 | every used original vertex that is near no patch row is appended |
| MeshWelder.NewOriginsAllMatched | main.cpp:187-208 | if every used original vertex is near some patch row, nothing is appended |
| MeshWelder.WeldAgainstItselfAppendsNothing | main.cpp:158-224 | welding a mesh onto a patch with the same vertices leaves the list of appended original vertices empty |
| MeshWelder.WeldedAgainstItself | main.cpp:158-224 | after welding a mesh onto a patch with the same vertices, the fused vertex list is exactly the patch's vertex list |
| MeshWelder.NewOriginsBound | main.cpp:199-208 | the weld appends at most as many vertices as the original mesh has |
| MeshWelder.ResolveCorner | main.cpp:183-214 | a corner already in the map gets its recorded index and nothing changes; otherwise it maps to its first near patch row, or it is appended at `index` and `index` advances; the weld invariant is kept |
| MeshWelder.WeldFace | main.cpp:178-221 | resolves the three corners of one original face in order; the appended face is that face with every corner replaced through the map; the map only grows |
| MeshWelder.SeedFused | main.cpp:161-172 | the fused lists start as copies of the patch and `index` is the patch's vertex count |
| MeshWelder.Weld | main.cpp:158-224 | fused vertices are the patch rows followed by the unmatched used original vertices in order of first use; every used original index is mapped to its first near patch row or its appended copy; fused faces are the patch faces followed by each original face remapped; every fused face indexes a fused vertex when both inputs are valid meshes |
| FairingSetup.FairingConstraints | main.cpp:226-257 | the faired matrices equal the fused lists; `b` is `patchCount, patchCount+1, ...`, up to the last fused vertex, strictly increasing; a vertex index is in `b` if and only if it is a fused row after the patch rows; `bc[j]` is the position of vertex `b[j]` |
| Inpaint.FixedAreNewOrigins | main.cpp:247-257 | after the weld, the constrained positions `bc` are, in order, the positions of the original vertices the weld appended |
| Inpaint.Inpaint | main.cpp:70-257 | a missing or malformed argument gives that argument's error before any file is read; an unreadable file and a mesh with no boundary loop give their own errors; a run succeeds if and only if the arguments parse, the file reads, the boundary loop is non-empty and both the loop and the upsampled mesh index existing rows, and otherwise the index failure is `IndexOutOfRange`; on success the fairing problem has the patch as the prefix of the fused mesh, the fused faces are the patch faces followed by every upsampled original face remapped through a weld map satisfying the weld invariant, fixes exactly the appended vertices, and carries `-outfaces` and `-out` unchanged; the welded patch is the upsampled fan patch of the boundary loop over the upsampled mesh, and the fixed positions are those of the upsampled mesh's vertices that no patch row matched, in order of first use |

## Left out

- Reading and writing OBJ files (`igl::readOBJ`, `igl::writeOBJ`): the reader is a function parameter that returns a mesh or nothing. Texture coordinates and normals are dropped.
- `igl::boundary_loop` and `igl::upsample` are function parameters. `Inpaint` checks that the loop and the upsampled mesh index existing rows and otherwise returns `IndexOutOfRange`. In the code an out-of-range index is undefined behaviour.
- `igl::slice` and `igl::cat` are written directly as operations on sequences of rows.
- The harmonic solve (`igl::harmonic`), `igl::decimate` to `-outfaces` faces and the final write are not part of this model. `Inpaint` ends with the inputs of the solve: vertices, faces, `b`, `bc`, the face target and the output file name.
- `sscanf(token, "%u,")` is a parsing function parameter that returns a 32-bit unsigned value or nothing. Its handling of signs and of wrap-around on large numbers is not modelled.
- The codes `1`-`5` that `main` prints and its "Mesh has no hole!" message become the `Failure` variants. The usage text of `printHelpExit` and its `exit(1)` are not modelled.
- CommandLine.FindCommandLineParam: the message "Could not find command-line parameter" that the code prints when a flag is missing is not modelled. Only the "not found" result is.
- Floating point: coordinates are reals. The test `(u - v).norm() < 0.00001` becomes squared distance `< 0.00001²`, which is equivalent over reals. The centroid's single-precision factor `1.0f / size` and all rounding are not modelled.
- C `int` counters and indices are unbounded integers. Overflow on meshes with more than 2³¹ rows is not modelled.
- MeshWelder.Weld: requires every original face to index an existing vertex. The code reads `vertices(triIndex, …)` without a check, so out-of-range indices are undefined behaviour there.
- Eigen matrices and `std::vector<std::vector<…>>` become sequences of `Point` and `Face` values. The weld's `std::map` becomes a Dafny `map`. Matrix storage and aliasing are not modelled.
