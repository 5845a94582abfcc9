# Heightmap terrain mesh

A Dafny model of the terrain component of an OpenTK heightmap viewer. The
`Terrain` constructor turns a decoded heightmap image into a flat vertex buffer.
It walks the (W−1)×(W−1) quads its two Width-bounded loops reach and writes two
triangles per quad, six vertices of x, height, z, through a running write index. `getHeightAtPosition` answers the
height at a grid position.

The model has two modules:

- `TerrainMesh` (`terrain_mesh.dfy`) is the pure description of the buffer. It
  defines the 18 numbers of one quad (`Quad`), a row of quads (`Row`), the rows
  written so far (`Rows`) and the whole triangle list (`Mesh`). It also defines a
  reference order of the six corners (`CornerOffsets`, `Corner`). Lemmas prove
  the buffer's size, where each quad lands, the vertex order, the value bounds,
  and which pixel reads stay inside the image.
- `Heightmap` (`terrain.dfy`) is the imperative part. `FillVertices`,
  `FillRow`, `WriteQuad` and `PutVertex` are the constructor's outer loop, inner
  loop, loop body and `_vertices[a++] = …` triples. They fill a zeroed
  `array<int>` in place and are proved against `Mesh`. The class `Terrain` holds
  the image and the buffer, and has the constructor and `GetHeightAtPosition`.

The image is an `array2<byte>` of red-channel bytes indexed `[x, y]`, as
`Bitmap.GetPixel(x, y)` is. `Length0` is the bitmap's Width and `Length1` its
Height. Every number the constructor stores is a small integer: a grid
coordinate, or a byte divided by 4 with C#'s integer division. So the buffer is
modelled as `int`s and not `float`s. The division never has a negative operand,
so Dafny's `/` agrees with C#'s.

Both loops are bounded by the Width (heightmap/Terrain.cs:29 and :31). The mesh
therefore covers (W−1)×(W−1) quads. The inner loop reads row `j + 1`, so every
read is in bounds exactly when Height ≥ Width (or Width ≤ 1). Otherwise
`GetPixel` throws at pixel (0, Height). `FillVertices` returns that error. The
constructor requires the condition under which no exception is raised.

The inner loop is bounded by the Width, not the Height (heightmap/Terrain.cs:31).
For a non-square image that looks unintended, but the model follows the code.
The buffer is still allocated with W·H·18 numbers (heightmap/Terrain.cs:26).
Every number past 18·(W−1)² stays 0, so the vertices after the mesh are
(0, 0, 0) padding. The lemmas about vertices speak of the mesh only.

The constructor copies the image it is given into a fresh array, which the
object keeps, as the source keeps its own decoded `Bitmap` in a private field
(heightmap/Terrain.cs:21, :25). So a later write to the caller's array changes
neither the buffer nor the height query.

## Model

| member | source | states |
|---|---|---|
| `TerrainMesh.HeightOf` | heightmap/Terrain.cs:35 | the height of a red byte R is truncated R/4: it lies in 0..63 and 4h ≤ R < 4h + 4 |
| `TerrainMesh.ReadsInBoundsExactly` | heightmap/Terrain.cs:29-61 | every pixel read by every iteration of the two loops lies inside the image if and only if Width ≤ 1 or Height ≥ Width |
| `TerrainMesh.QuadFits` | heightmap/Terrain.cs:26-61 | the 18 writes for a quad reached by the loops stay inside the W·H·18 buffer, both when all reads are in bounds and for the quads written before a read fails |
| `TerrainMesh.QuadCorners` | heightmap/Terrain.cs:33-61 | the 18 numbers written for quad (i, j) are its corners (i,j), (i+1,j), (i,j+1), (i+1,j+1), (i+1,j), (i,j+1) in that order, each as x, height, z |
| `TerrainMesh.RowLength` | heightmap/Terrain.cs:31-62 | m steps of the inner loop write 18·m numbers |
| `TerrainMesh.RowsLength` | heightmap/Terrain.cs:29-63 | n steps of the outer loop write n·18·(W−1) numbers |
| `TerrainMesh.RowPrefix` | heightmap/Terrain.cs:31-62 | the inner loop only appends: what it wrote after k steps is a prefix of what it wrote after m ≥ k steps |
| `TerrainMesh.RowsPrefix` | heightmap/Terrain.cs:29-63 | the outer loop only appends: what it wrote after k steps is a prefix of what it wrote after n ≥ k steps |
| `TerrainMesh.MeshSize` | heightmap/Terrain.cs:28-63 | the triangle list holds 18·(W−1)² numbers, that is 6·(W−1)² vertices |
| `TerrainMesh.MeshFits` | heightmap/Terrain.cs:26 | the triangle list fits the W·H·18 numbers allocated |
| `TerrainMesh.QuadAfterRows` | heightmap/Terrain.cs:28-63 | quad (i, j) is written right after rows 0..i−1 and quads (i, 0)..(i, j−1) |
| `TerrainMesh.MeshQuad` | heightmap/Terrain.cs:28-63 | the 18 numbers of quad (i, j) start at offset 18·(i·(W−1) + j) |
| `TerrainMesh.MeshVertex` | heightmap/Terrain.cs:33-61 | vertex 6·(i·(W−1) + j) + c of the mesh is corner c of quad (i, j) in the reference order |
| `TerrainMesh.SharedEdgeDuplicated` | heightmap/Terrain.cs:38-61 | in each quad, vertex 5 is an exact copy of vertex 2, (i+1, h, j), and vertex 6 of vertex 3, (i, h, j+1) |
| `TerrainMesh.CornerOnGrid` | heightmap/Terrain.cs:33-61 | each corner of each quad has x and z in 0..W−1, z below the Height, and the sample height there as y |
| `TerrainMesh.MeshOnGrid` | heightmap/Terrain.cs:33-61 | every vertex of the mesh, the first 6·(W−1)² vertices of the buffer, has x in 0..W−1, z in 0..W−1, and as y the height of the pixel at (x, z), in 0..63 |
| `TerrainMesh.DarkImageIsFlat` | heightmap/Terrain.cs:35-60 | an image whose red bytes are all below 4 (all zero, say) gives a mesh whose every height is 0 |
| `Heightmap.ExtendWritten` | heightmap/Terrain.cs:33-61 | writing one quad at the write index keeps the buffer equal to a prefix of the mesh followed by zeros, 18 numbers further on |
| `Heightmap.FillVertices` | heightmap/Terrain.cs:28-63 | succeeds exactly when Height ≥ Width or Width ≤ 1, and otherwise fails at pixel (0, Height); on success the write index ends at 18·(W−1)², the buffer up to it is the mesh and every number after it is still 0 |
| `Heightmap.FillRow` | heightmap/Terrain.cs:31-62 | one pass of the inner loop extends the written prefix of the mesh by row i and keeps the zeros after it, or fails at pixel (0, Height) |
| `Heightmap.WriteQuad` | heightmap/Terrain.cs:33-61 | the loop body succeeds exactly when row j + 1 exists; it then writes the 18 numbers of quad (i, j) at the write index, changes nothing else and advances the index by 18; otherwise it names the first pixel outside the image |
| `Heightmap.PutVertex` | heightmap/Terrain.cs:34-36 | three `a++` writes put x, y, z at the write index, change nothing else and advance it by 3 |
| `Heightmap.Terrain.constructor` | heightmap/Terrain.cs:23-63 | the image is a fresh private copy of the decoded one, with the same size and pixels; the buffer has exactly W·H·18 numbers, starts with the mesh of that image, and is 0 after it |
| `Heightmap.Terrain.GetHeightAtPosition` | heightmap/Terrain.cs:70-73 | answers exactly for positions inside the image, with the truncated red byte / 4 in 0..63; outside it fails with that position |
| `Heightmap.QueryAgreesWithMesh` | heightmap/Terrain.cs:33-73 | for every vertex (x, y, z) of the mesh, the first 6·(W−1)² vertices of the buffer, the height query at (x, z) answers y |
| `Heightmap.QuadInBuffer` | heightmap/Terrain.cs:33-73 | vertex c of quad (i, j) in the buffer is corner c of the reference order, and the height query at its (x, z) answers its y |

## Left out

- heightmap/Program.cs entirely: window lifecycle, input polling, cursor recentering, GL clear and viewport calls, and the floating-point camera movement. The `Camera` class is not part of this model.
- `Terrain.load`, `render` and `destroy` (heightmap/Terrain.cs:75-104): GL buffer upload, shader binding, uniform upload and handle deletion are foreign calls. The draw count at heightmap/Terrain.cs:97 passes the number of floats, three times the number of vertices, and that only matters inside GL.
- Image decoding (`new Bitmap(...)`, heightmap/Terrain.cs:25), `GL.GenBuffer` and the `Shader` (heightmap/Terrain.cs:65-67): the decoded red channel is the constructor's input.
- Floating point: the buffer and the query result are integers, which is exact for the values stored.
- 32-bit overflow of `Width * Height * 3 * 3 * 2` is not modelled; dimensions are unbounded.
- The inner loop, the loop body and each vertex's three writes are separate methods (`FillRow`, `WriteQuad`, `PutVertex`). The source has them inline in one constructor. The order of reads and writes is the same.
- Heightmap.FillVertices: on the exception path it states only the failing pixel, not the partly written buffer, because the exception leaves the constructor and the object is never reachable.
- Heightmap.Terrain.constructor: requires that no pixel read fails. The exception it would otherwise raise is the error result of `FillVertices`.
