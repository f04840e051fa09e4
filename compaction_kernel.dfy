/** The compaction loops of `VisualMeshOp::Compute` (src/tf_op.cpp), over
    fresh arrays, each proved to compute the corresponding function of
    Compaction. The output tensors are `array2`s: `coordinates` of shape
    [M, 2] and `neighbours` of shape [M + 1, 7]. */
module CompactionKernel {
  import opened Compaction

  /** The filter loop: walks the projected pixels once and keeps, in order,
      the swapped coordinate and the original index of every on-screen point. */
  method FilterOnScreen(pixels: seq<Pixel>, dims: Pixel) returns (px: seq<Pixel>, idx: seq<nat>)
    ensures idx == Survivors(pixels, dims)
    ensures px == Coordinates(pixels, idx)
  {
    px, idx := [], [];
    var i := 0;
    while i < |pixels|
      invariant 0 <= i <= |pixels|
      invariant idx == Survivors(pixels[..i], dims)
      invariant forall k | 0 <= k < |idx| :: idx[k] < i
      invariant px == Coordinates(pixels, idx)
    {
      var p := (pixels[i].1, pixels[i].0);
      if 0 < p.0 < dims.1 && 0 < p.1 < dims.0 {
        px := px + [p];
        idx := idx + [i];
      }
      assert pixels[..i + 1][..i] == pixels[..i];
      i := i + 1;
    }
    assert pixels[..|pixels|] == pixels;
  }

  /** Copies the kept coordinates into the [M, 2] output tensor. */
  method CopyCoordinates(px: seq<Pixel>) returns (c: array2<int>)
    ensures fresh(c)
    ensures c.Length0 == |px| && c.Length1 == 2
    ensures forall i | 0 <= i < |px| :: c[i, 0] == px[i].0 && c[i, 1] == px[i].1
  {
    c := new int[|px|, 2];
    var i := 0;
    while i < |px|
      invariant 0 <= i <= |px|
      invariant forall r | 0 <= r < i :: c[r, 0] == px[r].0 && c[r, 1] == px[r].1
    {
      c[i, 0] := px[i].0;
      c[i, 1] := px[i].1;
      i := i + 1;
    }
  }

  /** Builds the reverse lookup: an array of `n` entries, all the off-screen
      index `|idx|` at first, then `idx[i]` set to `i` for every survivor. */
  method ReverseIndex(n: nat, idx: seq<nat>) returns (rev: array<int>)
    requires StrictlyIncreasing(idx)
    requires forall k | 0 <= k < |idx| :: idx[k] < n
    ensures fresh(rev)
    ensures rev[..] == RevIndex(n, idx)
  {
    rev := new int[n](_ => |idx|);
    var i := 0;
    while i < |idx|
      invariant 0 <= i <= |idx|
      invariant forall k | 0 <= k < i :: rev[idx[k]] == k
      invariant forall j | 0 <= j < n && j !in idx[..i] :: rev[j] == |idx|
    {
      assert idx[..i + 1] == idx[..i] + [idx[i]];
      rev[idx[i]] := i;
      i := i + 1;
    }
    assert idx[..|idx|] == idx;
    RevIndexInverts(n, idx);
    forall j | 0 <= j < n ensures rev[j] == RevIndex(n, idx)[j] {
      if j in idx {
        var k :| 0 <= k < |idx| && idx[k] == j;
      }
    }
  }

  /** Builds the [M + 1, 7] neighbour tensor: row `i` is `i` and the six
      neighbours of `idx[i]` looked up in `rev`; the last row is seven copies
      of the off-screen index `M`. */
  method BuildNeighbours(nbr: seq<Neighbours>, idx: seq<nat>, rev: array<int>) returns (t: array2<int>)
    requires forall k | 0 <= k < |idx| :: idx[k] < |nbr| && InRange(nbr[idx[k]], rev.Length)
    ensures fresh(t)
    ensures t.Length0 == |idx| + 1 && t.Length1 == 7
    ensures forall i, j | 0 <= i < |idx| + 1 && 0 <= j < 7 :: t[i, j] == Table(nbr, idx, rev[..])[i][j]
  {
    t := new int[|idx| + 1, 7];
    ghost var table := Table(nbr, idx, rev[..]);
    var i := 0;
    while i < |idx|
      invariant 0 <= i <= |idx|
      invariant forall r, j | 0 <= r < i && 0 <= j < 7 :: t[r, j] == table[r][j]
    {
      var m := nbr[idx[i]];
      TableRow(nbr, idx, rev[..], i);
      WriteRow(t, i, [i, rev[m[0]], rev[m[1]], rev[m[2]], rev[m[3]], rev[m[4]], rev[m[5]]]);
      i := i + 1;
    }
    assert table[|idx|] == seq(7, _ => |idx|);
    for j := 0 to 7
      invariant forall r, c | 0 <= r < |idx| && 0 <= c < 7 :: t[r, c] == table[r][c]
      invariant forall c | 0 <= c < j :: t[|idx|, c] == table[|idx|][c]
    {
      t[|idx|, j] := |idx|;
    }
  }

  /** Writes the seven cells of row `i` of a neighbour tensor, one by one. */
  method WriteRow(t: array2<int>, i: nat, row: seq<int>)
    requires i < t.Length0 && t.Length1 == 7 && |row| == 7
    modifies t
    ensures forall c | 0 <= c < 7 :: t[i, c] == row[c]
    ensures forall r, c | 0 <= r < t.Length0 && 0 <= c < 7 && r != i :: t[r, c] == old(t[r, c])
  {
    t[i, 0] := row[0];
    t[i, 1] := row[1];
    t[i, 2] := row[2];
    t[i, 3] := row[3];
    t[i, 4] := row[4];
    t[i, 5] := row[5];
    t[i, 6] := row[6];
  }

  /** The whole compaction: the two output tensors hold exactly the
      compacted mesh `Compact(pixels, nbr, dims)`. */
  method Compute(pixels: seq<Pixel>, nbr: seq<Neighbours>, dims: Pixel)
    returns (coordinates: array2<int>, neighbours: array2<int>)
    requires ValidInput(pixels, nbr, dims)
    ensures fresh(coordinates) && fresh(neighbours)
    ensures coordinates.Length0 == |Compact(pixels, nbr, dims).coordinates| && coordinates.Length1 == 2
    ensures forall i | 0 <= i < coordinates.Length0 ::
      && coordinates[i, 0] == Compact(pixels, nbr, dims).coordinates[i].0
      && coordinates[i, 1] == Compact(pixels, nbr, dims).coordinates[i].1
    ensures neighbours.Length0 == |Compact(pixels, nbr, dims).neighbours| && neighbours.Length1 == 7
    ensures forall i, j | 0 <= i < neighbours.Length0 && 0 <= j < 7 ::
      neighbours[i, j] == Compact(pixels, nbr, dims).neighbours[i][j]
  {
    var px, idx := FilterOnScreen(pixels, dims);
    coordinates := CopyCoordinates(px);
    var rev := ReverseIndex(|nbr|, idx);
    neighbours := BuildNeighbours(nbr, idx, rev);
  }
}
