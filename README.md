# VisualMesh: compaction kernel, Circle shape and vector algebra in Dafny

VisualMesh lays a mesh of sample points over a camera image. It places the
points on rings of constant elevation around the camera, spacing them so that
an object of a given shape is hit a fixed number of times. A TensorFlow kernel
(`VisualMeshOp::Compute`) projects that mesh into the image. It keeps only the
points that land strictly inside the image and emits two tensors:

- the surviving pixel coordinates, one (y, x) row each;
- a neighbour table, one row per survivor plus one extra off-screen node.
  Each row holds the point's own index and its six neighbours. Every neighbour
  that was dropped points at the off-screen node.

This project models three parts of that program and proves their properties.

- **Compaction** (modules `Compaction` and `CompactionKernel`):
  - the off-screen filter, the reverse lookup from original to dense indices,
    and the neighbour-table construction;
  - the set-up that feeds them (module `VisualMeshOp`): the (rows, columns) to
    (width, height) swap of the image dimensions with its 32-bit conversion,
    the camera matrix `Hoc`, and the dispatch on lens and geometry names.

  `Compaction` states the result as functions on sequences. **`Compact`** is
  the whole output. The lemmas prove:
  - which points survive;
  - that survivors keep their order;
  - that the reverse lookup inverts the survivor list;
  - that every table entry is in range and the last row is the off-screen
    node pointing at itself;
  - that a full on-screen mesh is passed through unrenumbered;
  - that an empty mesh gives a single row of zeros.

  `CompactionKernel` holds the kernel's loops, which append to sequences and
  write to fresh `array`/`array2` buffers. Each loop is proved to compute
  exactly those functions.
- **The Circle shape** (module `Geometry`): `phi`, the elevation of the next
  ring, and `theta`, the angular spacing of points on a ring.
  - Each takes a max-distance gate, a below-horizon branch, an above-horizon
    branch or a NaN fallback.
  - NaN is `None`. `tan`, `atan` and `asin` are uninterpreted functions,
    passed in as a `Trig` value.
  - The lemmas prove:
    - the NaN cases;
    - the branch values;
    - that `theta` shares `phi`'s guards;
    - the mirror symmetry between a camera above and below the plane;
    - the outward step of `phi` and the ring spacing it produces. This part
      assumes facts about `atan`, stated as preconditions.
- **Vector algebra** (module `VecMath`): `dot`, `cross`, `transpose` and
  `normalise` over fixed-length sequences of reals. `normalise` is modelled as
  written, with an abstract square root (see Findings).

For a camera above the plane (`h > 0`), a ring just above the horizon has no
next ring: `phi` returns NaN, because the below-horizon branch needs
`phi_n < π/2` and the above-horizon branch needs `h < 0`.
`Geometry.PhiNaNCases` states that case.

Pixel coordinates enter the model as integers (already rounded). The
neighbourhood enters as sequences of six integers. A `Pixel` is the pair
(component 0, component 1) of a `std::array<int, 2>`.

## Model

| member | source | states |
|---|---|---|
| Compaction.Swap | src/tf_op.cpp:129 | no contract of its own: the (x, y) to (y, x) swap; CompactCoordinates states where it is applied |
| Compaction.OnScreen | src/tf_op.cpp:132 | no contract of its own: the strict bounds test; SurvivorIff states both directions of it |
| Compaction.Survivors | src/tf_op.cpp:127-136 | the kept original indices are in range, each names an on-screen point, and they are strictly increasing |
| Compaction.Coordinates | src/tf_op.cpp:129-135 | one kept coordinate per kept index |
| Compaction.RevIndex | src/tf_op.cpp:153-157 | the reverse lookup has one entry per neighbourhood row, each between 0 and the survivor count |
| Compaction.Row | src/tf_op.cpp:168-177 | a survivor row of the neighbour table has seven entries |
| Compaction.Table | src/tf_op.cpp:168-182 | the neighbour table has one row per survivor plus the off-screen row |
| Compaction.Compact | src/tf_op.cpp:118-183 | the output has M coordinate rows and M + 1 neighbour rows of 7, M being the survivor count |
| Compaction.SurvivorIff | src/tf_op.cpp:129-135 | point i is kept exactly when its y lies strictly between 0 and dims[1] and its x strictly between 0 and dims[0]; a coordinate of exactly 0 is dropped |
| Compaction.SurvivorsAllOnScreen | src/tf_op.cpp:127-136 | when every point is on screen, the kept indices are 0, 1, ..., n-1 |
| Compaction.FilterIdempotent | src/tf_op.cpp:127-136 | filtering the kept points again keeps all of them |
| Compaction.RevIndexInverts | src/tf_op.cpp:153-157 | rev_idx[idx[k]] == k for every survivor k, and rev_idx[j] == M for every other j |
| Compaction.RevIndexIdentity | src/tf_op.cpp:153-157 | when every index survives the reverse lookup is the identity |
| Compaction.CompactCoordinates | src/tf_op.cpp:127-151 | survivors keep their relative order, and coordinate row i is the swapped coordinate of original point idx[i] |
| Compaction.CompactRows | src/tf_op.cpp:168-178 | column 0 of survivor row i is i, and columns 1..6 are rev_idx of the original neighbour slots 0..5 of idx[i] |
| Compaction.CompactNeighbourRenumbering | src/tf_op.cpp:153-178 | a surviving neighbour becomes its dense index, which names the same original point; a dropped neighbour becomes M |
| Compaction.CompactBounds | src/tf_op.cpp:168-182 | every neighbour-table entry lies in [0, M], and the last row is seven copies of M |
| Compaction.CompactAllOnScreen | src/tf_op.cpp:127-178 | with every point on screen and one neighbour row per point, rev_idx is the identity, row i is [i] followed by the original neighbours of i, and the coordinates are all swapped points in order |
| Compaction.CompactEmpty | src/tf_op.cpp:153-182 | an empty projected mesh gives no coordinates and the single row [0,0,0,0,0,0,0] |
| CompactionKernel.FilterOnScreen | src/tf_op.cpp:127-136 | the filter loop pushes exactly the survivors' indices and swapped coordinates, in order |
| CompactionKernel.CopyCoordinates | src/tf_op.cpp:139-151 | the coordinate tensor has shape [M, 2] and row i holds both components of kept coordinate i |
| CompactionKernel.ReverseIndex | src/tf_op.cpp:153-157 | the array filled with M and then overwritten at each survivor equals the reverse lookup |
| CompactionKernel.BuildNeighbours | src/tf_op.cpp:160-182 | the neighbour tensor has shape [M + 1, 7] and equals the neighbour table cell by cell |
| CompactionKernel.WriteRow | src/tf_op.cpp:170-177 | the seven cells of row i receive the given values and every other row is unchanged |
| CompactionKernel.Compute | src/tf_op.cpp:118-182 | the two output tensors hold exactly the compacted mesh, cell by cell |
| VisualMeshOp.Int32 | src/tf_op.cpp:59 | the int32_t conversion lands in the 32-bit range and agrees with its argument modulo 2^32 |
| VisualMeshOp.Int32Identity | src/tf_op.cpp:59 | a value already in range is unchanged by the conversion |
| VisualMeshOp.Dimensions | src/tf_op.cpp:59 | the lens dimensions are 32-bit values congruent to the image dimensions taken in reverse order |
| VisualMeshOp.DimensionsSwap | src/tf_op.cpp:59 | image dimensions that fit in 32 bits are exactly swapped |
| VisualMeshOp.SurvivesInsideImage | src/tf_op.cpp:129-132 | with the swapped dimensions, a pixel (x, y) is kept exactly when 0 < y < rows and 0 < x < columns |
| VisualMeshOp.Hoc | src/tf_op.cpp:71-76 | the top-left 3x3 block of Hoc is tRoc's, and the last row is [0, 0, 0, 1] |
| VisualMeshOp.HocAffineTransform | src/tf_op.cpp:71-76 | Hoc maps a camera-space point p to R p + (0, 0, height), R being the 3x3 block of tRoc, and keeps the homogeneous coordinate 1 |
| VisualMeshOp.HocDirection | src/tf_op.cpp:71-76 | Hoc maps a direction d to R d, ignoring the height |
| VisualMeshOp.LensProjection | src/tf_op.cpp:83-94 | a projection is selected exactly for the three known names, and its name is the input |
| VisualMeshOp.LensProjectionRoundTrip | src/tf_op.cpp:83-94 | every projection is selected by its own name |
| VisualMeshOp.ShapeKind | src/tf_op.cpp:99-116 | a shape is selected exactly for SPHERE, CIRCLE and CYLINDER, and its name is the input |
| VisualMeshOp.ShapeKindRoundTrip | src/tf_op.cpp:99-116 | every shape is selected by its own name |
| VisualMeshOp.Projected | src/tf_op.cpp:97-116 | a known geometry is projected by the engine; an unknown one leaves the projected mesh empty |
| VisualMeshOp.Output | src/tf_op.cpp:97-183 | the kernel output for a call has one more neighbour row than coordinate rows |
| VisualMeshOp.UnknownGeometryIsDegenerate | src/tf_op.cpp:114-116 | an unknown geometry name yields no coordinates and one row of seven zeros |
| Geometry.Circle | src/geometry/Circle.hpp:37-38 | no contract of its own: the three fields r, k and d, set once by the constructor and never changed |
| Geometry.Circle.BeyondMaxDistance | src/geometry/Circle.hpp:51 | no contract of its own: the gate abs(h)·tan(eff) > d shared by Phi and Theta (line 78); PhiNaNCases and ThetaSharesPhiGuards state its use |
| Geometry.Circle.TanNextBelow | src/geometry/Circle.hpp:56 | no contract of its own: the atan argument (2r/k + h·tan(phi_n))/h; PhiRingSpacing states what it measures |
| Geometry.Circle.TanNextAbove | src/geometry/Circle.hpp:59 | no contract of its own: the atan argument (2r/k − h·tan(π−phi_n))/−h; PhiRingSpacing states what it measures |
| Geometry.Circle.DenominatorBelow | src/geometry/Circle.hpp:81 | no contract of its own: h·tan(phi) + r, the distance to the circle's centre; ThetaSharesPhiGuards and ThetaDefinedWherePhiIs state its use |
| Geometry.Circle.DenominatorAbove | src/geometry/Circle.hpp:84 | no contract of its own: −h·tan(π−phi) + r, the mirror of DenominatorBelow; ThetaMirror states the symmetry |
| Geometry.Circle.Phi | src/geometry/Circle.hpp:48-65 | phi is NaN exactly when the max-distance gate fires or neither side condition holds |
| Geometry.Circle.Theta | src/geometry/Circle.hpp:75-90 | theta is NaN at least whenever the gate fires or neither side condition holds |
| Geometry.Circle.AngularWidth | src/geometry/Circle.hpp:81-85 | 2·asin(r/den)/k is defined exactly when den is nonzero and r/den lies in [-1, 1] |
| Geometry.PhiNaNCases | src/geometry/Circle.hpp:51-64 | phi is NaN when abs(h)·tan(eff) > d, when h == 0, when h > 0 and phi_n ≥ π/2, and when h < 0 and phi_n ≤ π/2 |
| Geometry.PhiBranchValues | src/geometry/Circle.hpp:56-60 | past the gate, phi is atan((2r/k + h·tan(phi_n))/h) below the horizon and π − atan((2r/k − h·tan(π−phi_n))/−h) above it |
| Geometry.ThetaSharesPhiGuards | src/geometry/Circle.hpp:48-90 | wherever phi is NaN theta is NaN, and wherever phi is defined theta takes the same branch, with denominator h·tan(phi)+r below and −h·tan(π−phi)+r above |
| Geometry.ThetaDefinedWherePhiIs | src/geometry/Circle.hpp:75-90 | for a circle of positive radius, theta is finite wherever phi is, given tan is positive on (0, π/2) |
| Geometry.PhiMirror | src/geometry/Circle.hpp:48-65 | phi(π−x, −h) is NaN exactly when phi(x, h) is, and otherwise equals π − phi(x, h) |
| Geometry.ThetaMirror | src/geometry/Circle.hpp:75-90 | theta(π−x, −h) == theta(x, h), NaN included |
| Geometry.PhiOutwardBelow | src/geometry/Circle.hpp:56 | with r, k, h > 0, 0 < phi_n < π/2 and the gate passed, the next phi is defined and strictly greater than phi_n |
| Geometry.PhiOutwardAbove | src/geometry/Circle.hpp:58-60 | with h < 0, π/2 < phi_n < π and the gate passed, the next phi is defined and strictly less than phi_n |
| Geometry.PhiRingSpacing | src/geometry/Circle.hpp:56-60 | consecutive rings meet the plane 2r/k apart: h·tan(next) == h·tan(phi_n) + 2r/k below the horizon, mirrored above it |
| VecMath.Dot3 | src/util/math.hpp:41-43 | the 3-vector inner product a0·b0 + a1·b1 + a2·b2; a vector's product with itself is never negative (Dot3Symmetric states its symmetry) |
| VecMath.Dot4 | src/util/math.hpp:45-47 | the 4-vector inner product; a vector's product with itself is never negative, and with a zero fourth component on either side it equals Dot3 of the first three components |
| VecMath.Cross | src/util/math.hpp:50-56 | cross(a, b) is orthogonal to both a and b (CrossAntiCommutative and CrossSelfZero state the rest) |
| VecMath.SquaredLengthAsWritten | src/util/math.hpp:68 | no contract of its own: the radicand a0·a0 + a1·a1 + a2 + a2 as written; NormaliseAsWritten and NormaliseAsWrittenCounterexample state its consequences |
| VecMath.Transpose | src/util/math.hpp:59-64 | entry (i, j) of the transpose is entry (j, i) of the matrix |
| VecMath.TransposeInvolution | src/util/math.hpp:59-64 | transposing twice gives the matrix back |
| VecMath.Dot3Symmetric | src/util/math.hpp:41-43 | dot(a, b) == dot(b, a) on 3-vectors |
| VecMath.Dot4Symmetric | src/util/math.hpp:45-47 | dot(a, b) == dot(b, a) on 4-vectors |
| VecMath.Dot4ExtendsDot3 | src/util/math.hpp:41-47 | with a zero fourth component the 4-vector dot is the 3-vector dot of the first three entries |
| VecMath.CrossAntiCommutative | src/util/math.hpp:50-56 | cross(a, b) == −cross(b, a) componentwise |
| VecMath.CrossSelfZero | src/util/math.hpp:50-56 | cross(a, a) is the zero vector |
| VecMath.CrossOrthogonal | src/util/math.hpp:41-56 | cross(a, b) is orthogonal to both a and b |
| VecMath.ScaleByInverseRoot | src/util/math.hpp:68-69 | scaling by 1/sqrt(s) is non-finite exactly when s ≤ 0, and otherwise multiplies every component by the one positive factor 1/sqrt(s) |
| VecMath.NormaliseAsWritten | src/util/math.hpp:67-70 | normalise as written multiplies all three components by 1/sqrt(a0·a0 + a1·a1 + a2 + a2), and is non-finite exactly when that sum is not positive |
| VecMath.NormaliseAsWrittenCounterexample | src/util/math.hpp:68 | as written, (0, 0, 1) normalises to a vector of squared length 1/2 and (0, 0, −1) to a non-finite value, while the Euclidean normalisation returns both unchanged |
| VecMath.Normalise | src/util/math.hpp:67-70 | the corrected normalise divides by the Euclidean length, non-finite exactly when the squared length is not positive |
| VecMath.NormaliseUnitLength | src/util/math.hpp:67-70 | the corrected normalise of a vector of positive length is a positive multiple of it with unit length |

## Left out

- Rounding: `std::round` of the engine's floating pixel coordinates is not modelled. Coordinates enter as already-rounded integers.
- Engine and meshes: building the mesh (`Mesh`, `mesh.lookup`) and projecting it (`engine.project`) become the parameter `project` of `VisualMeshOp.Projected`. The Sphere and Cylinder shapes and the lens projection mathematics are not part of this model.
- Framework plumbing: op and kernel registration, the shape function, tensor allocation and `OP_REQUIRES_OK` are left out. The output tensors are fresh arrays.
- Loop widths: the loop counters (`int`, `size_t`) and the tensor element types T and U are unbounded integers here. The coordinate tensor holds integers rather than T.
- Lens fields: `focal_length`, `fov` and the lens record itself are left out, since only `dimensions` reaches the compaction. An unknown lens name is `None`, because the source leaves the projection unset.
- Circle parameters: the conversion of `geometry_params` to the Circle fields is left out, in particular the float-to-unsigned conversion of `k`. The Circle is built directly from r, k and d.
- Floating point: Circle and VecMath use exact reals. NaN inputs, infinities and rounding of tan/atan/asin/sqrt are not modelled.
- Theta: it is also `None` where the IEEE result would be NaN (a zero denominator or an asin argument outside [−1, 1]), so division by zero never yields an infinity here.
- Phi, Theta: both require `k > 0`, because the source divides by `k`.
- Geometry.ThetaDefinedWherePhiIs: requires tan to be positive on (0, π/2), and 0 < phi < π.
- Geometry.PhiOutwardBelow: requires that atan is strictly increasing and inverts tan on (0, π/2).
- Geometry.PhiOutwardAbove: same assumption as PhiOutwardBelow.
- Geometry.PhiRingSpacing: requires tan(atan(y)) == y.
- VecMath.Normalise: the exact-zero vector is characterised only through its squared length. The model states "non-finite exactly when Dot3(a, a) ≤ 0" rather than "exactly when a is zero".
- VecMath.NormaliseUnitLength: requires a positive squared length, for the same reason.
- A second compaction of the kernel's output is not modelled. Its coordinates come out as (y, x), so a second pass would test them against swapped bounds, and its rows have 7 columns rather than 6. `Compaction.FilterIdempotent` states the filter half on the original pixels.
- Not part of the core: the iteration of `phi` over many rings, and the training pipeline, network and OpenCL wrapper files.
- Concurrency: the core has none, and the parallel engine backends are not part of this model.

## Findings

| source | as written | input that shows it | evidently intended | confidence | as-written member | corrected member |
|---|---|---|---|---|---|---|
| src/util/math.hpp:68 | the radicand is `a[0]*a[0] + a[1]*a[1] + a[2] + a[2]` | a = (0, 0, 1): the result has squared length 1/2, not 1. a = (0, 0, −1): the radicand is −2 and the result is NaN | `a[0]*a[0] + a[1]*a[1] + a[2]*a[2]`, so that a nonzero vector normalises to unit length | high, not executed | VecMath.NormaliseAsWrittenCounterexample | VecMath.NormaliseUnitLength |
