/** The straight-line set-up of `VisualMeshOp::Compute` (src/tf_op.cpp):
    the image dimensions swapped into the lens's (width, height) order, the
    camera-to-observation-plane matrix `Hoc`, and the dispatch on the lens
    and geometry names, ending in the compaction of the projected mesh. */
module VisualMeshOp {
  import opened Wrappers
  import opened VecMath
  import opened Compaction

  const Int32Modulus: int := 0x1_0000_0000

  predicate IsInt32(x: int) {
    -0x8000_0000 <= x < 0x8000_0000
  }

  /** A conversion to `int32_t`: the value modulo 2^32, read as two's complement. */
  function Int32(x: int): (r: int)
    ensures IsInt32(r)
    ensures (r - x) % Int32Modulus == 0
  {
    var m := x % Int32Modulus;
    if m >= 0x8000_0000 then m - Int32Modulus else m
  }

  /** A value that already fits is unchanged by the conversion. */
  lemma Int32Identity(x: int)
    requires IsInt32(x)
    ensures Int32(x) == x
  {
    if x < 0 {
      assert x % Int32Modulus == x + Int32Modulus;
    }
  }

  /** The image dimensions arrive as (rows, columns); the lens stores them as
      (columns, rows), each converted to 32 bits. */
  function Dimensions(image: (int, int)): (dims: Pixel)
    ensures IsInt32(dims.0) && IsInt32(dims.1)
    ensures (dims.0 - image.1) % Int32Modulus == 0 && (dims.1 - image.0) % Int32Modulus == 0
  {
    (Int32(image.1), Int32(image.0))
  }

  /** Dimensions that fit in 32 bits are exactly swapped. */
  lemma DimensionsSwap(image: (int, int))
    requires IsInt32(image.0) && IsInt32(image.1)
    ensures Dimensions(image) == Swap(image)
  {
    Int32Identity(image.0);
    Int32Identity(image.1);
  }

  /** Together with the coordinate swap of the filter, the dimension swap
      makes a projected pixel (x, y) survive exactly when y lies strictly
      between 0 and the number of rows and x strictly between 0 and the
      number of columns. */
  lemma SurvivesInsideImage(image: (int, int), pixel: Pixel)
    requires IsInt32(image.0) && IsInt32(image.1)
    ensures OnScreen(Swap(pixel), Dimensions(image)) <==> 0 < pixel.1 < image.0 && 0 < pixel.0 < image.1
  {
    DimensionsSwap(image);
  }

  /** The homogeneous camera-to-observation-plane transform: the top-left
      3x3 block R of `tRoc` and the translation (0, 0, height). */
  function Hoc(tRoc: seq<seq<real>>, height: real): (m: Mat4)
    requires |tRoc| >= 3 && forall i | 0 <= i < 3 :: |tRoc[i]| >= 3
    ensures forall i, j | 0 <= i < 3 && 0 <= j < 3 :: m[i][j] == tRoc[i][j]
    ensures m[3] == [0.0, 0.0, 0.0, 1.0]
  {
    [ [tRoc[0][0], tRoc[0][1], tRoc[0][2], 0.0],
      [tRoc[1][0], tRoc[1][1], tRoc[1][2], 0.0],
      [tRoc[2][0], tRoc[2][1], tRoc[2][2], height],
      [0.0, 0.0, 0.0, 1.0] ]
  }

  /** A 4x4 matrix applied to a homogeneous 4-vector. */
  function Apply(m: Mat4, v: Vec4): (r: Vec4)
    ensures forall i | 0 <= i < 4 :: r[i] == Dot4(m[i], v)
  {
    [Dot4(m[0], v), Dot4(m[1], v), Dot4(m[2], v), Dot4(m[3], v)]
  }

  /** `Hoc` maps a point p of camera space to R p + (0, 0, height), R being
      the 3x3 block of `tRoc`, and keeps the homogeneous coordinate 1. */
  lemma HocAffineTransform(tRoc: seq<seq<real>>, height: real, p: Vec3)
    requires |tRoc| >= 3 && forall i | 0 <= i < 3 :: |tRoc[i]| >= 3
    ensures
      var r := Apply(Hoc(tRoc, height), [p[0], p[1], p[2], 1.0]);
      && r[0] == Dot3(tRoc[0][..3], p)
      && r[1] == Dot3(tRoc[1][..3], p)
      && r[2] == Dot3(tRoc[2][..3], p) + height
      && r[3] == 1.0
  {
    var m := Hoc(tRoc, height);
    var v: Vec4 := [p[0], p[1], p[2], 1.0];
    assert v[..3] == p;
    forall i | 0 <= i < 2 ensures Dot4(m[i], v) == Dot3(tRoc[i][..3], p) {
      assert m[i][..3] == tRoc[i][..3];
    }
    assert Dot4(m[2], v) == Dot3(tRoc[2][..3], p) + height;
  }

  /** `Hoc` maps a direction (homogeneous coordinate 0) to R d: the height
      does not enter. */
  lemma HocDirection(tRoc: seq<seq<real>>, height: real, d: Vec3)
    requires |tRoc| >= 3 && forall i | 0 <= i < 3 :: |tRoc[i]| >= 3
    ensures
      var r := Apply(Hoc(tRoc, height), [d[0], d[1], d[2], 0.0]);
      && r[0] == Dot3(tRoc[0][..3], d)
      && r[1] == Dot3(tRoc[1][..3], d)
      && r[2] == Dot3(tRoc[2][..3], d)
      && r[3] == 0.0
  {
    var m := Hoc(tRoc, height);
    var v: Vec4 := [d[0], d[1], d[2], 0.0];
    assert v[..3] == d;
    forall i | 0 <= i < 3 ensures Dot4(m[i], v) == Dot3(tRoc[i][..3], d) {
      assert m[i][..3] == tRoc[i][..3];
    }
  }

  // ---------------------------------------------------------------------
  // Dispatch on names

  datatype Projection = Equisolid | Equidistant | Rectilinear

  function ProjectionName(p: Projection): string {
    match p
    case Equisolid => "EQUISOLID"
    case Equidistant => "EQUIDISTANT"
    case Rectilinear => "RECTILINEAR"
  }

  /** The lens projection named by the `lens_type` input; `None` for an
      unknown name, which leaves the lens projection unset. */
  function LensProjection(name: string): (p: Option<Projection>)
    ensures p.Some? <==> name == "EQUISOLID" || name == "EQUIDISTANT" || name == "RECTILINEAR"
    ensures p.Some? ==> ProjectionName(p.value) == name
  {
    if name == "EQUISOLID" then Some(Equisolid)
    else if name == "EQUIDISTANT" then Some(Equidistant)
    else if name == "RECTILINEAR" then Some(Rectilinear)
    else None
  }

  /** Every projection is recognised by its own name. */
  lemma LensProjectionRoundTrip(p: Projection)
    ensures LensProjection(ProjectionName(p)) == Some(p)
  {
  }

  datatype Shape = Sphere | CircleShape | Cylinder

  function ShapeName(s: Shape): string {
    match s
    case Sphere => "SPHERE"
    case CircleShape => "CIRCLE"
    case Cylinder => "CYLINDER"
  }

  /** The shape named by the `geometry` input; `None` for an unknown name. */
  function ShapeKind(name: string): (s: Option<Shape>)
    ensures s.Some? <==> name == "SPHERE" || name == "CIRCLE" || name == "CYLINDER"
    ensures s.Some? ==> ShapeName(s.value) == name
  {
    if name == "SPHERE" then Some(Sphere)
    else if name == "CIRCLE" then Some(CircleShape)
    else if name == "CYLINDER" then Some(Cylinder)
    else None
  }

  /** Every shape is recognised by its own name. */
  lemma ShapeKindRoundTrip(s: Shape)
    ensures ShapeKind(ShapeName(s)) == Some(s)
  {
  }

  /** What the engine hands to the kernel: pixel coordinates and the six
      neighbours of every mesh point. */
  datatype ProjectedMesh = ProjectedMesh(pixels: seq<Pixel>, neighbourhood: seq<Neighbours>)

  /** The projected mesh for the `geometry` name. Building the mesh and
      projecting it are the parameter `project`; an unknown name leaves the
      projected mesh default-constructed, that is empty. */
  function Projected(geometry: string, project: Shape -> ProjectedMesh): (m: ProjectedMesh)
    ensures ShapeKind(geometry).Some? ==> m == project(ShapeKind(geometry).value)
    ensures ShapeKind(geometry).None? ==> m.pixels == [] && m.neighbourhood == []
  {
    match ShapeKind(geometry)
    case Some(s) => project(s)
    case None => ProjectedMesh([], [])
  }

  /** The kernel's output for one call: the projected mesh for `geometry`,
      compacted against the swapped image dimensions. */
  function Output(image: (int, int), geometry: string, project: Shape -> ProjectedMesh): (c: Compacted)
    requires
      var m := Projected(geometry, project);
      ValidInput(m.pixels, m.neighbourhood, Dimensions(image))
    ensures |c.neighbours| == |c.coordinates| + 1
  {
    var m := Projected(geometry, project);
    Compact(m.pixels, m.neighbourhood, Dimensions(image))
  }

  /** An unknown geometry name yields no coordinates and a neighbour table
      holding only the off-screen row of seven zeros. */
  lemma UnknownGeometryIsDegenerate(image: (int, int), geometry: string, project: Shape -> ProjectedMesh)
    requires ShapeKind(geometry).None?
    ensures
      var m := Projected(geometry, project);
      ValidInput(m.pixels, m.neighbourhood, Dimensions(image))
    ensures Output(image, geometry, project) == Compacted([], [[0, 0, 0, 0, 0, 0, 0]])
  {
    CompactEmpty(Dimensions(image));
  }
}
