/** The triangle list that a Terrain builds from its heightmap, stated as pure
    functions of the decoded red channel.

    The image is an `array2<byte>` indexed `[x, y]` like `Bitmap.GetPixel(x, y)`:
    `Length0` is the bitmap's Width and `Length1` its Height. Both loops of the
    constructor are bounded by the Width, so the mesh has Side(Width) quads on
    each side, and the numbers a quad writes are grid coordinates and heights. */
module TerrainMesh {

  /** One red-channel sample of the decoded image. */
  newtype byte = b: int | 0 <= b < 256

  /** One mesh vertex as the buffer stores it: x = column, y = height, z = row. */
  datatype Vertex = Vertex(x: int, y: int, z: int)

  /** The number of quads along each side: both loops run while the index is
      below Width - 1. */
  function Side(width: nat): nat
  {
    if width == 0 then 0 else width - 1
  }

  /** Whether every pixel the loops read lies inside the image. The inner loop is
      bounded by the Width but reads row j + 1, so the rows must reach the Width. */
  predicate ReadsInBounds(width: nat, height: nat)
  {
    width <= 1 || width <= height
  }

  /** The height of a sample: the red byte divided by 4 with the integer division
      of C#, which truncates (the operand is never negative, so Dafny's division
      agrees). */
  function HeightOf(r: byte): (h: int)
    ensures 0 <= h <= 63
    ensures 4 * h <= r as int < 4 * h + 4
  {
    r as int / 4
  }

  function Height(img: array2<byte>, x: int, y: int): int
    reads img
    requires 0 <= x < img.Length0 && 0 <= y < img.Length1
  {
    HeightOf(img[x, y])
  }

  /** The six corners of quad (i, j) in emission order, as offsets (di, dj) from
      (i, j): the triangle (i, j), (i+1, j), (i, j+1), then the triangle
      (i+1, j+1), (i+1, j), (i, j+1). */
  const CornerOffsets: seq<(nat, nat)> := [(0, 0), (1, 0), (0, 1), (1, 1), (1, 0), (0, 1)]

  /** The pixel coordinate of the c-th read in the body for quad (i, j). */
  function Read(i: nat, j: nat, c: nat): (nat, nat)
    requires c < 6
  {
    (i + CornerOffsets[c].0, j + CornerOffsets[c].1)
  }

  predicate InImage(width: nat, height: nat, p: (nat, nat))
  {
    p.0 < width && p.1 < height
  }

  /** Every read of every iteration of the two loops lies inside the image. */
  predicate LoopReadsInImage(width: nat, height: nat)
  {
    forall i: nat, j: nat, c: nat | i < Side(width) && j < Side(width) && c < 6 ::
      InImage(width, height, Read(i, j, c))
  }

  /** Corner c of quad (i, j) as the vertex the reference order places there. */
  function Corner(img: array2<byte>, i: nat, j: nat, c: nat): Vertex
    reads img
    requires i + 1 < img.Length0 && j + 1 < img.Length1 && c < 6
  {
    var (di, dj) := CornerOffsets[c];
    Vertex(i + di, Height(img, i + di, j + dj), j + dj)
  }

  /** The 18 numbers the loop body writes for quad (i, j), in the order it writes
      them. */
  function Quad(img: array2<byte>, i: nat, j: nat): seq<int>
    reads img
    requires i + 1 < img.Length0 && j + 1 < img.Length1
  {
    [i,     Height(img, i, j),         j,
     i + 1, Height(img, i + 1, j),     j,
     i,     Height(img, i, j + 1),     j + 1,
     i + 1, Height(img, i + 1, j + 1), j + 1,
     i + 1, Height(img, i + 1, j),     j,
     i,     Height(img, i, j + 1),     j + 1]
  }

  /** Quads (i, 0) .. (i, m - 1): what the inner loop has written for row i after
      m steps. */
  function Row(img: array2<byte>, i: nat, m: nat): seq<int>
    reads img
    requires i + 1 < img.Length0 && m < img.Length1
  {
    if m == 0 then [] else Row(img, i, m - 1) + Quad(img, i, m - 1)
  }

  /** Rows 0 .. n - 1: what the outer loop has written after n steps. */
  function Rows(img: array2<byte>, n: nat): seq<int>
    reads img
    requires ReadsInBounds(img.Length0, img.Length1) && n <= Side(img.Length0)
  {
    if n == 0 then [] else Rows(img, n - 1) + Row(img, n - 1, Side(img.Length0))
  }

  /** The whole triangle list. */
  function Mesh(img: array2<byte>): seq<int>
    reads img
    requires ReadsInBounds(img.Length0, img.Length1)
  {
    Rows(img, Side(img.Length0))
  }

  /** Vertex number v of a flat buffer of x, y, z triples. */
  function VertexAt(s: seq<int>, v: nat): Vertex
    requires 3 * v + 3 <= |s|
  {
    Vertex(s[3 * v], s[3 * v + 1], s[3 * v + 2])
  }

  /** A vertex lies on the grid the loops walk, and its height is the sample there. */
  predicate OnGrid(img: array2<byte>, p: Vertex)
    reads img
  {
    0 <= p.x <= Side(img.Length0) && 0 <= p.z <= Side(img.Length0) &&
    p.x < img.Length0 && p.z < img.Length1 &&
    p.y == Height(img, p.x, p.z) && 0 <= p.y <= 63
  }

  // ---------------------------------------------------------------------------
  // The pixel reads

  /** The loops read only pixels inside the image exactly when the Height is at
      least the Width (or the image is at most one column wide, so the loops do
      not run). */
  lemma ReadsInBoundsExactly(width: nat, height: nat)
    ensures LoopReadsInImage(width, height) <==> ReadsInBounds(width, height)
  {
    if !ReadsInBounds(width, height) {
      // quad (0, Width - 2) reads (0, Width - 1) third, which is below no row
      assert !InImage(width, height, Read(0, width - 2, 2));
    }
  }

  /** The 18 numbers of quad (i, j) fit the buffer of Width * Height * 18 numbers,
      both when every read is in bounds and, otherwise, for every quad the loops
      reach before a read fails (row 0, below the Height). */
  lemma QuadFits(width: nat, height: nat, i: nat, j: nat)
    requires (ReadsInBounds(width, height) && i < Side(width) && j < Side(width)) ||
             (i == 0 && j < height && 1 <= width)
    ensures 18 * (i * Side(width) + j) + 18 <= width * height * 18
  {
    var n := Side(width);
    if ReadsInBounds(width, height) && i < n && j < n {
      // The chain below spells the bound out step by step for the reader.
      calc {
        i * n + j + 1;
      <= { MulLeft(i, n - 1, n); }
        (n - 1) * n + j + 1;
      <= (n - 1) * n + n;
      == n * n;
      <= { MulLeft(n, width, n); }
        width * n;
      <= { MulRight(width, n, height); }
        width * height;
      }
    } else {
      assert j + 1 <= height;
      MulLeft(1, width, height);
    }
  }

  lemma MulLeft(a: nat, b: nat, c: nat)
    requires a <= b
    ensures a * c <= b * c
  {
  }

  lemma MulRight(a: nat, b: nat, c: nat)
    requires b <= c
    ensures a * b <= a * c
  {
  }

  // ---------------------------------------------------------------------------
  // Layout of the buffer

  /** The 18 numbers of a quad are the six corners of the reference order, each
      as x, y, z. */
  lemma QuadCorners(img: array2<byte>, i: nat, j: nat, c: nat)
    requires i + 1 < img.Length0 && j + 1 < img.Length1 && c < 6
    ensures |Quad(img, i, j)| == 18
    ensures VertexAt(Quad(img, i, j), c) == Corner(img, i, j, c)
  {
  }

  lemma {:induction false} RowLength(img: array2<byte>, i: nat, m: nat)
    requires i + 1 < img.Length0 && m < img.Length1
    ensures |Row(img, i, m)| == 18 * m
  {
    if m > 0 {
      RowLength(img, i, m - 1);
      assert |Quad(img, i, m - 1)| == 18;
    }
  }

  lemma {:induction false} RowsLength(img: array2<byte>, n: nat)
    requires ReadsInBounds(img.Length0, img.Length1) && n <= Side(img.Length0)
    ensures |Rows(img, n)| == n * (18 * Side(img.Length0))
  {
    var side := Side(img.Length0);
    if n > 0 {
      RowsLength(img, n - 1);
      RowLength(img, n - 1, side);
      assert (n - 1) * (18 * side) + 18 * side == n * (18 * side);
    }
  }

  /** What the inner loop has written after k steps is a prefix of what it has
      written after m >= k steps. */
  lemma {:induction false} RowPrefix(img: array2<byte>, i: nat, k: nat, m: nat)
    requires i + 1 < img.Length0 && k <= m < img.Length1
    ensures Row(img, i, k) <= Row(img, i, m)
  {
    if k < m {
      RowPrefix(img, i, k, m - 1);
      PrefixExtend(Row(img, i, k), Row(img, i, m - 1), Quad(img, i, m - 1));
    }
  }

  /** What the outer loop has written after k steps is a prefix of what it has
      written after n >= k steps. */
  lemma {:induction false} RowsPrefix(img: array2<byte>, k: nat, n: nat)
    requires ReadsInBounds(img.Length0, img.Length1) && k <= n <= Side(img.Length0)
    ensures Rows(img, k) <= Rows(img, n)
  {
    if k < n {
      RowsPrefix(img, k, n - 1);
      PrefixExtend(Rows(img, k), Rows(img, n - 1), Row(img, n - 1, Side(img.Length0)));
    }
  }

  lemma PrefixExtend(a: seq<int>, b: seq<int>, c: seq<int>)
    requires a <= b
    ensures a <= b + c
  {
  }

  lemma PrefixAppend(a: seq<int>, b: seq<int>, c: seq<int>)
    requires b <= c
    ensures a + b <= a + c
  {
    assert (a + b) == (a + c)[..|a + b|];
  }

  lemma PrefixTrans(a: seq<int>, b: seq<int>, c: seq<int>)
    requires a <= b && b <= c
    ensures a <= c
  {
  }

  /** If a + b + c is a prefix of s, then c sits in s right after a and b. */
  lemma PrefixSlice(a: seq<int>, b: seq<int>, c: seq<int>, s: seq<int>)
    requires a + b + c <= s
    ensures |a| + |b| + |c| <= |s| && s[|a| + |b| .. |a| + |b| + |c|] == c
  {
    assert s[|a| + |b| .. |a| + |b| + |c|] == (a + b + c)[|a| + |b| ..];
  }

  /** The buffer holds 18 numbers, six vertices, per quad, and Side(Width)^2 quads. */
  lemma MeshSize(img: array2<byte>)
    requires ReadsInBounds(img.Length0, img.Length1)
    ensures |Mesh(img)| == 18 * Side(img.Length0) * Side(img.Length0)
    ensures |Mesh(img)| / 3 == 6 * Side(img.Length0) * Side(img.Length0)
  {
    var side := Side(img.Length0);
    RowsLength(img, side);
    ghost var sq := side * side;
    assert side * (18 * side) == 18 * sq;
  }

  /** The mesh fits the Width * Height * 18 numbers the constructor allocates. */
  lemma MeshFits(img: array2<byte>)
    requires ReadsInBounds(img.Length0, img.Length1)
    ensures |Mesh(img)| <= img.Length0 * img.Length1 * 18
  {
    var side := Side(img.Length0);
    MeshSize(img);
    if side > 0 {
      QuadFits(img.Length0, img.Length1, side - 1, side - 1);
      assert 18 * ((side - 1) * side + side - 1) + 18 == 18 * side * side;
    }
  }

  /** Quad (i, j) follows the rows before row i and the quads before it in row i. */
  lemma QuadAfterRows(img: array2<byte>, i: nat, j: nat)
    requires ReadsInBounds(img.Length0, img.Length1)
    requires i < Side(img.Length0) && j < Side(img.Length0)
    ensures |Rows(img, i)| + 18 * j + 18 <= |Mesh(img)|
    ensures Mesh(img)[|Rows(img, i)| + 18 * j .. |Rows(img, i)| + 18 * j + 18] == Quad(img, i, j)
  {
    var side := Side(img.Length0);
    var rows, row, quad := Rows(img, i), Row(img, i, j), Quad(img, i, j);
    RowsPrefix(img, i + 1, side);
    RowPrefix(img, i, j + 1, side);
    PrefixAppend(rows, row + quad, Row(img, i, side));
    assert rows + row + quad == rows + (row + quad);
    PrefixTrans(rows + row + quad, Rows(img, i + 1), Mesh(img));
    RowLength(img, i, j);
    PrefixSlice(rows, row, quad, Mesh(img));
  }

  /** The 18 numbers for quad (i, j) start at offset 18 * (i * Side + j). */
  lemma MeshQuad(img: array2<byte>, i: nat, j: nat)
    requires ReadsInBounds(img.Length0, img.Length1)
    requires i < Side(img.Length0) && j < Side(img.Length0)
    ensures 18 * (i * Side(img.Length0) + j) + 18 <= |Mesh(img)|
    ensures Mesh(img)[18 * (i * Side(img.Length0) + j) .. 18 * (i * Side(img.Length0) + j) + 18]
         == Quad(img, i, j)
  {
    QuadAfterRows(img, i, j);
    RowsLength(img, i);
    OffsetSplit(i, Side(img.Length0), j);
  }

  lemma OffsetSplit(i: nat, side: nat, j: nat)
    ensures 18 * (i * side + j) == i * (18 * side) + 18 * j
  {
  }

  /** Vertex number v of a buffer of 6 * side * side vertices is corner c of
      quad (i, j) for the i, j, c that v encodes. */
  lemma Decompose(v: nat, side: nat) returns (i: nat, j: nat, c: nat)
    requires v < 6 * side * side
    ensures i < side && j < side && c < 6 && v == 6 * (i * side + j) + c
  {
    var q := v / 6;
    c := v % 6;
    assert q < side * side;
    i, j := q / side, q % side;
    assert q == i * side + j;
    if i >= side {
      MulLeft(side, i, side);
      assert false;
    }
  }

  /** Vertex c of quad (i, j) is vertex number 6 * (i * Side + j) + c of the buffer,
      and it is corner c of the reference order. */
  lemma MeshVertex(img: array2<byte>, i: nat, j: nat, c: nat)
    requires ReadsInBounds(img.Length0, img.Length1)
    requires i < Side(img.Length0) && j < Side(img.Length0) && c < 6
    ensures 3 * (6 * (i * Side(img.Length0) + j) + c) + 3 <= |Mesh(img)|
    ensures VertexAt(Mesh(img), 6 * (i * Side(img.Length0) + j) + c) == Corner(img, i, j, c)
  {
    var start := 18 * (i * Side(img.Length0) + j);
    MeshQuad(img, i, j);
    QuadCorners(img, i, j, c);
    var quad := Mesh(img)[start .. start + 18];
    assert VertexAt(Mesh(img), 6 * (i * Side(img.Length0) + j) + c) == VertexAt(quad, c);
  }

  /** Within each quad, vertex 5 repeats vertex 2, the corner (i+1, j), and vertex 6
      repeats vertex 3, the corner (i, j+1): the shared edge is written twice. */
  lemma SharedEdgeDuplicated(img: array2<byte>, i: nat, j: nat)
    requires ReadsInBounds(img.Length0, img.Length1)
    requires i < Side(img.Length0) && j < Side(img.Length0)
    ensures 18 * (i * Side(img.Length0) + j) + 18 <= |Mesh(img)|
    ensures var q := 6 * (i * Side(img.Length0) + j);
      VertexAt(Mesh(img), q + 4) == VertexAt(Mesh(img), q + 1)
        == Vertex(i + 1, Height(img, i + 1, j), j) &&
      VertexAt(Mesh(img), q + 5) == VertexAt(Mesh(img), q + 2)
        == Vertex(i, Height(img, i, j + 1), j + 1)
  {
    MeshVertex(img, i, j, 1);
    MeshVertex(img, i, j, 2);
    MeshVertex(img, i, j, 4);
    MeshVertex(img, i, j, 5);
  }

  lemma CornerOnGrid(img: array2<byte>, i: nat, j: nat, c: nat)
    requires ReadsInBounds(img.Length0, img.Length1)
    requires i < Side(img.Length0) && j < Side(img.Length0) && c < 6
    ensures OnGrid(img, Corner(img, i, j, c))
  {
  }

  /** Every vertex of the buffer has x and z in 0 .. Width - 1 and, as y, the height
      of the sample at (x, z), which lies in 0 .. 63. */
  lemma MeshOnGrid(img: array2<byte>)
    requires ReadsInBounds(img.Length0, img.Length1)
    ensures forall v: nat | v < |Mesh(img)| / 3 :: OnGrid(img, VertexAt(Mesh(img), v))
  {
    var side := Side(img.Length0);
    MeshSize(img);
    forall v: nat | v < |Mesh(img)| / 3
      ensures OnGrid(img, VertexAt(Mesh(img), v))
    {
      var i, j, c := Decompose(v, side);
      MeshVertex(img, i, j, c);
      CornerOnGrid(img, i, j, c);
    }
  }

  /** An image whose red bytes are all below 4, an all-black one say, gives a flat
      mesh: every vertex has height 0. */
  lemma DarkImageIsFlat(img: array2<byte>)
    requires ReadsInBounds(img.Length0, img.Length1)
    requires forall x, y | 0 <= x < img.Length0 && 0 <= y < img.Length1 :: img[x, y] < 4
    ensures forall v: nat | v < |Mesh(img)| / 3 :: VertexAt(Mesh(img), v).y == 0
  {
    MeshOnGrid(img);
  }
}
