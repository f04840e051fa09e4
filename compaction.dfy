/** Compaction of a projected visual mesh (src/tf_op.cpp, `VisualMeshOp::Compute`).

    The engine returns, for every point of the mesh, its pixel coordinate
    (x, y) and its six neighbours as indices into the same list. The kernel
    keeps only the points strictly inside the image, swaps each coordinate to
    (y, x), renumbers the survivors densely in their original order, and
    rebuilds the neighbour graph over the survivors plus one extra
    "off-screen" node whose index is the number of survivors `M`: every
    neighbour that did not survive becomes `M`, and row `M` points at itself.

    This module states the result as functions on values and proves what
    the kernel promises about it; CompactionKernel computes it with the
    kernel's loops and arrays. */
module Compaction {

  /** A `std::array<int, 2>`: components 0 and 1. */
  type Pixel = (int, int)

  /** The six neighbour slots of one mesh point. */
  type Neighbours = s: seq<int> | |s| == 6 witness [0, 0, 0, 0, 0, 0]

  /** The kernel's coordinate order is the engine's order reversed. */
  function Swap(p: Pixel): Pixel {
    (p.1, p.0)
  }

  /** The on-screen test on a swapped coordinate `p` against the lens
      dimensions `dims` (width, height). A coordinate of exactly 0 is off
      screen. */
  predicate OnScreen(p: Pixel, dims: Pixel) {
    0 < p.0 < dims.1 && 0 < p.1 < dims.0
  }

  predicate StrictlyIncreasing(s: seq<nat>) {
    forall a, b | 0 <= a < b < |s| :: s[a] < s[b]
  }

  /** 0, 1, ..., n - 1. */
  function Iota(n: nat): (s: seq<nat>)
    ensures |s| == n && forall i | 0 <= i < n :: s[i] == i
  {
    seq(n, i => i)
  }

  /** Every slot of `m` is the index of a row of a table with `n` rows. */
  predicate InRange(m: Neighbours, n: nat) {
    forall j | 0 <= j < 6 :: 0 <= m[j] < n
  }

  /** What the kernel relies on without checking it: every point that
      survives has a neighbour row, and that row names only existing rows. */
  predicate ValidInput(pixels: seq<Pixel>, nbr: seq<Neighbours>, dims: Pixel) {
    forall i | 0 <= i < |pixels| && OnScreen(Swap(pixels[i]), dims) :: i < |nbr| && InRange(nbr[i], |nbr|)
  }

  /** The original indices of the on-screen points, in their original order
      (the kernel's `idx`). */
  function Survivors(pixels: seq<Pixel>, dims: Pixel): (idx: seq<nat>)
    ensures |idx| <= |pixels|
    ensures forall k | 0 <= k < |idx| :: idx[k] < |pixels| && OnScreen(Swap(pixels[idx[k]]), dims)
    ensures StrictlyIncreasing(idx)
    decreases |pixels|
  {
    if pixels == [] then []
    else
      var n := |pixels| - 1;
      Survivors(pixels[..n], dims) + (if OnScreen(Swap(pixels[n]), dims) then [n] else [])
  }

  /** The swapped coordinates of the points `idx` names (the kernel's `px`). */
  function Coordinates(pixels: seq<Pixel>, idx: seq<nat>): (px: seq<Pixel>)
    requires forall k | 0 <= k < |idx| :: idx[k] < |pixels|
    ensures |px| == |idx|
  {
    seq(|idx|, k requires 0 <= k < |idx| => Swap(pixels[idx[k]]))
  }

  /** The position of the first `x` in `s`, or `|s|` when `s` holds no `x`. */
  function Position(s: seq<nat>, x: int): (p: nat)
    ensures p <= |s|
    ensures p < |s| ==> s[p] == x
    ensures p == |s| <==> x !in s
    ensures forall j | 0 <= j < p :: s[j] != x
  {
    if s == [] then 0
    else if s[0] == x then 0
    else 1 + Position(s[1..], x)
  }

  /** The reverse lookup from original to dense indices (the kernel's
      `rev_idx`): each of the `n` original indices maps to its position among
      the survivors, or to the off-screen index `|idx|`. */
  function RevIndex(n: nat, idx: seq<nat>): (rev: seq<int>)
    ensures |rev| == n
    ensures forall j | 0 <= j < n :: 0 <= rev[j] <= |idx|
  {
    seq(n, j requires 0 <= j < n => Position(idx, j))
  }

  /** One row of the output neighbour table: the point's own dense index,
      then its six neighbours renumbered through `rev`. */
  function Row(i: nat, m: Neighbours, rev: seq<int>): (row: seq<int>)
    requires InRange(m, |rev|)
    ensures |row| == 7
  {
    [i] + seq(6, j requires 0 <= j < 6 => rev[m[j]])
  }

  /** The output neighbour table: a row per survivor and the off-screen row,
      seven copies of `|idx|`. */
  function Table(nbr: seq<Neighbours>, idx: seq<nat>, rev: seq<int>): (t: seq<seq<int>>)
    requires forall k | 0 <= k < |idx| :: idx[k] < |nbr| && InRange(nbr[idx[k]], |rev|)
    ensures |t| == |idx| + 1
  {
    seq(|idx|, i requires 0 <= i < |idx| => Row(i, nbr[idx[i]], rev)) + [seq(7, _ => |idx|)]
  }

  /** The two output tensors of the kernel. */
  datatype Compacted = Compacted(coordinates: seq<Pixel>, neighbours: seq<seq<int>>)

  /** The kernel's whole result for one projected mesh. */
  function Compact(pixels: seq<Pixel>, nbr: seq<Neighbours>, dims: Pixel): (c: Compacted)
    requires ValidInput(pixels, nbr, dims)
    ensures |c.coordinates| == |Survivors(pixels, dims)|
    ensures |c.neighbours| == |c.coordinates| + 1
    ensures forall i | 0 <= i < |c.neighbours| :: |c.neighbours[i]| == 7
  {
    var idx := Survivors(pixels, dims);
    Compacted(Coordinates(pixels, idx), Table(nbr, idx, RevIndex(|nbr|, idx)))
  }

  // ---------------------------------------------------------------------
  // Which points survive

  /** A point survives exactly when its swapped coordinate lies strictly
      inside the image: its y strictly between 0 and the height, its x
      strictly between 0 and the width. */
  lemma {:induction false} SurvivorIff(pixels: seq<Pixel>, dims: Pixel, i: nat)
    requires i < |pixels|
    ensures i in Survivors(pixels, dims) <==> 0 < pixels[i].1 < dims.1 && 0 < pixels[i].0 < dims.0
  {
    var n := |pixels| - 1;
    var prefix := pixels[..n];
    if i < n {
      assert prefix[i] == pixels[i];
      SurvivorIff(prefix, dims, i);
    } else {
      assert forall k | 0 <= k < |Survivors(prefix, dims)| :: Survivors(prefix, dims)[k] < n;
    }
  }

  /** When every point is on screen, every point survives, in order. */
  lemma {:induction false} SurvivorsAllOnScreen(pixels: seq<Pixel>, dims: Pixel)
    requires forall i | 0 <= i < |pixels| :: OnScreen(Swap(pixels[i]), dims)
    ensures Survivors(pixels, dims) == Iota(|pixels|)
  {
    if pixels != [] {
      var n := |pixels| - 1;
      SurvivorsAllOnScreen(pixels[..n], dims);
      assert Iota(n) + [n] == Iota(|pixels|);
    }
  }

  /** Filtering the surviving points a second time keeps all of them:
      the filter is idempotent. */
  lemma FilterIdempotent(pixels: seq<Pixel>, dims: Pixel)
    ensures
      var idx := Survivors(pixels, dims);
      Survivors(seq(|idx|, k requires 0 <= k < |idx| => pixels[idx[k]]), dims) == Iota(|idx|)
  {
    var idx := Survivors(pixels, dims);
    SurvivorsAllOnScreen(seq(|idx|, k requires 0 <= k < |idx| => pixels[idx[k]]), dims);
  }

  // ---------------------------------------------------------------------
  // The reverse lookup

  lemma PositionOfElement(s: seq<nat>, k: nat)
    requires StrictlyIncreasing(s)
    requires k < |s|
    ensures Position(s, s[k]) == k
  {
    assert s[k] in s;
  }

  /** `rev_idx` inverts `idx`: each survivor's original index maps to its
      dense index, and every other original index to the off-screen index. */
  lemma RevIndexInverts(n: nat, idx: seq<nat>)
    requires StrictlyIncreasing(idx)
    requires forall k | 0 <= k < |idx| :: idx[k] < n
    ensures |RevIndex(n, idx)| == n
    ensures forall k | 0 <= k < |idx| :: RevIndex(n, idx)[idx[k]] == k
    ensures forall j | 0 <= j < n && j !in idx :: RevIndex(n, idx)[j] == |idx|
  {
    forall k | 0 <= k < |idx| ensures RevIndex(n, idx)[idx[k]] == k {
      PositionOfElement(idx, k);
    }
  }

  /** When every original index survives, the reverse lookup is the identity. */
  lemma RevIndexIdentity(n: nat)
    ensures RevIndex(n, Iota(n)) == Iota(n)
  {
    forall j | 0 <= j < n ensures RevIndex(n, Iota(n))[j] == j {
      PositionOfElement(Iota(n), j);
    }
  }

  // ---------------------------------------------------------------------
  // The compacted mesh

  /** Survivors keep their original relative order, and output row `i` holds
      the swapped coordinate of original point `idx[i]`. */
  lemma CompactCoordinates(pixels: seq<Pixel>, nbr: seq<Neighbours>, dims: Pixel)
    requires ValidInput(pixels, nbr, dims)
    ensures
      var idx := Survivors(pixels, dims);
      && StrictlyIncreasing(idx)
      && forall i | 0 <= i < |idx| ::
           idx[i] < |pixels| && Compact(pixels, nbr, dims).coordinates[i] == Swap(pixels[idx[i]])
  {
  }

  /** Survivor row `i` of the neighbour table is `i` followed by the reverse
      lookup of the six original neighbours of `idx[i]`. */
  lemma CompactRows(pixels: seq<Pixel>, nbr: seq<Neighbours>, dims: Pixel, i: nat)
    requires ValidInput(pixels, nbr, dims)
    requires i < |Survivors(pixels, dims)|
    ensures
      var idx := Survivors(pixels, dims);
      var row := Compact(pixels, nbr, dims).neighbours[i];
      && idx[i] < |nbr|
      && row[0] == i
      && forall j | 0 <= j < 6 :: row[j + 1] == RevIndex(|nbr|, idx)[nbr[idx[i]][j]]
  {
    var idx := Survivors(pixels, dims);
    TableRow(nbr, idx, RevIndex(|nbr|, idx), i);
  }

  lemma TableRow(nbr: seq<Neighbours>, idx: seq<nat>, rev: seq<int>, i: nat)
    requires forall k | 0 <= k < |idx| :: idx[k] < |nbr| && InRange(nbr[idx[k]], |rev|)
    requires i < |idx|
    ensures Table(nbr, idx, rev)[i][0] == i
    ensures forall j | 0 <= j < 6 :: Table(nbr, idx, rev)[i][j + 1] == rev[nbr[idx[i]][j]]
  {
    assert Table(nbr, idx, rev)[i] == Row(i, nbr[idx[i]], rev);
  }

  /** Each remapped neighbour names the same point the original neighbour
      did: a neighbour that survived becomes its dense index, and one that
      was dropped becomes the off-screen index `M`. */
  lemma CompactNeighbourRenumbering(pixels: seq<Pixel>, nbr: seq<Neighbours>, dims: Pixel, i: nat, j: nat)
    requires ValidInput(pixels, nbr, dims)
    requires i < |Survivors(pixels, dims)| && j < 6
    ensures
      var idx := Survivors(pixels, dims);
      var q := nbr[idx[i]][j];
      var e := Compact(pixels, nbr, dims).neighbours[i][j + 1];
      && (q in idx ==> e < |idx| && idx[e] == q)
      && (q !in idx ==> e == |idx|)
  {
    var idx := Survivors(pixels, dims);
    RevIndexInverts(|nbr|, idx);
    CompactRows(pixels, nbr, dims, i);
    var q := nbr[idx[i]][j];
    if q in idx {
      var k :| 0 <= k < |idx| && idx[k] == q;
      assert RevIndex(|nbr|, idx)[q] == k;
    }
  }

  /** Every entry of the neighbour table is an index of the table, and the
      last row is the off-screen node pointing at itself seven times. */
  lemma CompactBounds(pixels: seq<Pixel>, nbr: seq<Neighbours>, dims: Pixel)
    requires ValidInput(pixels, nbr, dims)
    ensures
      var t := Compact(pixels, nbr, dims).neighbours;
      var m := |Survivors(pixels, dims)|;
      && (forall i, j | 0 <= i < |t| && 0 <= j < 7 :: 0 <= t[i][j] <= m)
      && t[m] == [m, m, m, m, m, m, m]
  {
    var t := Compact(pixels, nbr, dims).neighbours;
    var m := |Survivors(pixels, dims)|;
    forall i, j | 0 <= i < |t| && 0 <= j < 7 ensures 0 <= t[i][j] <= m {
      if i < m {
        CompactRows(pixels, nbr, dims, i);
      }
    }
  }

  /** Round trip: when every point is on screen and there is one neighbour
      row per point, nothing is renumbered: the reverse lookup is the
      identity and row `i` is `i` followed by the original neighbours of `i`. */
  lemma CompactAllOnScreen(pixels: seq<Pixel>, nbr: seq<Neighbours>, dims: Pixel)
    requires ValidInput(pixels, nbr, dims)
    requires |pixels| == |nbr|
    requires forall i | 0 <= i < |pixels| :: OnScreen(Swap(pixels[i]), dims)
    ensures Survivors(pixels, dims) == Iota(|pixels|)
    ensures RevIndex(|nbr|, Survivors(pixels, dims)) == Iota(|nbr|)
    ensures
      var c := Compact(pixels, nbr, dims);
      && |c.coordinates| == |pixels|
      && (forall i | 0 <= i < |pixels| :: c.coordinates[i] == Swap(pixels[i]))
      && (forall i | 0 <= i < |pixels| :: c.neighbours[i] == [i] + nbr[i])
  {
    SurvivorsAllOnScreen(pixels, dims);
    RevIndexIdentity(|nbr|);
    var c := Compact(pixels, nbr, dims);
    forall i | 0 <= i < |pixels| ensures c.neighbours[i] == [i] + nbr[i] {
      CompactRows(pixels, nbr, dims, i);
      assert InRange(nbr[i], |nbr|);
      assert forall j | 0 <= j < 6 :: c.neighbours[i][j + 1] == nbr[i][j];
    }
  }

  /** Degenerate input: an empty projected mesh compacts to no coordinates
      and a neighbour table holding only the off-screen row, seven zeros. */
  lemma CompactEmpty(dims: Pixel)
    ensures Compact([], [], dims) == Compacted([], [[0, 0, 0, 0, 0, 0, 0]])
  {
    assert Survivors([], dims) == [];
    assert RevIndex(0, []) == [];
    assert seq(7, _ => 0) == [0, 0, 0, 0, 0, 0, 0];
  }
}
