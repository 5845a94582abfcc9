/** The Terrain class: its constructor fills a vertex buffer from the heightmap
    in two nested loops through a running write index, and it answers height
    queries at grid positions. The buffer's contents are stated against the
    pure description in module TerrainMesh. */
module Heightmap {
  import opened TerrainMesh

  /** `Bitmap.GetPixel` throws an ArgumentOutOfRangeException for a coordinate
      outside the image. */
  datatype Error = PixelOutOfRange(x: int, y: int)

  datatype Result<T> = Ok(value: T) | Err(error: Error)

  /** What the loops have left in the buffer once the write index is a: the
      first a numbers of the mesh (when every read is in bounds) and, from a on,
      the zeros of the fresh buffer. */
  ghost predicate Written(img: array2<byte>, buf: seq<int>, a: nat)
    reads img
  {
    a <= |buf| &&
    (ReadsInBounds(img.Length0, img.Length1) ==> a <= |Mesh(img)| && buf[..a] == Mesh(img)[..a]) &&
    forall n | a <= n < |buf| :: buf[n] == 0
  }

  /** Writing the 18 numbers of quad (i, j) at the write index keeps Written, 18
      numbers further on. */
  lemma ExtendWritten(img: array2<byte>, buf: seq<int>, a: nat, i: nat, j: nat)
    requires i < Side(img.Length0) && j < Side(img.Length0) && j + 1 < img.Length1
    requires Written(img, buf, a) && a + 18 <= |buf|
    requires ReadsInBounds(img.Length0, img.Length1) ==> a == |Rows(img, i)| + 18 * j
    ensures Written(img, buf[..a] + Quad(img, i, j) + buf[a + 18..], a + 18)
  {
    var quad := Quad(img, i, j);
    var after := buf[..a] + quad + buf[a + 18..];
    assert |quad| == 18;
    assert after[..a + 18] == buf[..a] + quad;
    if ReadsInBounds(img.Length0, img.Length1) {
      var mesh := Mesh(img);
      QuadAfterRows(img, i, j);
      assert mesh[..a + 18] == mesh[..a] + mesh[a .. a + 18];
    }
    forall n | a + 18 <= n < |after|
      ensures after[n] == 0
    {
      assert after[n] == buf[n];
    }
  }

  /** The constructor's loops (the inner loop is FillRow): for every quad (i, j),
      with both i and j below Width - 1, read the corners' red bytes and write six
      vertices, x, y, z each, through the write index a. A read below the last
      row throws, which happens exactly when the Height is below the Width; the
      result then names the first pixel that is out of range. On success the
      result is the final write index. */
  method FillVertices(img: array2<byte>, vertices: array<int>) returns (r: Result<nat>)
    requires vertices.Length == img.Length0 * img.Length1 * 18
    requires forall n | 0 <= n < vertices.Length :: vertices[n] == 0
    modifies vertices
    ensures r.Ok? <==> ReadsInBounds(img.Length0, img.Length1)
    ensures r.Err? ==> r.error == PixelOutOfRange(0, img.Length1)
    ensures r.Ok? ==> r.value == 18 * Side(img.Length0) * Side(img.Length0) == |Mesh(img)|
    ensures r.Ok? ==> r.value <= vertices.Length && vertices[..r.value] == Mesh(img)
    ensures r.Ok? ==> forall n | r.value <= n < vertices.Length :: vertices[n] == 0
  {
    ghost var side := Side(img.Length0);
    var a := 0;
    var i := 0;
    while i < img.Length0 - 1
      invariant i <= side
      invariant !ReadsInBounds(img.Length0, img.Length1) ==> i == 0 && a == 0
      invariant ReadsInBounds(img.Length0, img.Length1) ==> a == |Rows(img, i)|
      invariant Written(img, vertices[..], a)
    {
      var row := FillRow(img, vertices, a, i);
      if row.Err? {
        return Err(row.error);
      }
      a := row.value;
      i := i + 1;
    }
    MeshSize(img);
    RowsLength(img, i);
    assert vertices[..a] == vertices[..][..a];
    return Ok(a);
  }

  /** The inner loop for row i: quads (i, 0) .. (i, Width - 2), from write index a
      on. On success the result is the write index after the row. */
  method FillRow(img: array2<byte>, vertices: array<int>, a: nat, i: nat) returns (r: Result<nat>)
    requires i < Side(img.Length0)
    requires vertices.Length == img.Length0 * img.Length1 * 18
    requires !ReadsInBounds(img.Length0, img.Length1) ==> i == 0 && a == 0
    requires ReadsInBounds(img.Length0, img.Length1) ==> a == |Rows(img, i)|
    requires Written(img, vertices[..], a)
    modifies vertices
    ensures r.Ok? <==> ReadsInBounds(img.Length0, img.Length1)
    ensures r.Err? ==> r.error == PixelOutOfRange(0, img.Length1)
    ensures r.Ok? ==> r.value == |Rows(img, i + 1)| && Written(img, vertices[..], r.value)
  {
    var width, height := img.Length0, img.Length1;
    if ReadsInBounds(width, height) {
      MeshFits(img);
    }
    var next := a;
    var j := 0;
    while j < width - 1
      invariant j <= Side(width)
      invariant !ReadsInBounds(width, height) ==> next == 18 * j && (j < height || j == 0)
      invariant ReadsInBounds(width, height) ==> next == |Rows(img, i)| + 18 * j
      invariant Written(img, vertices[..], next)
    {
      if ReadsInBounds(width, height) {
        QuadAfterRows(img, i, j);
      } else if j < height {
        QuadFits(width, height, i, j);
      }
      ghost var before := vertices[..];
      var written := WriteQuad(img, vertices, next, i, j);
      if written.Err? {
        return Err(written.error);
      }
      ExtendWritten(img, before, next, i, j);
      next := written.value;
      j := j + 1;
    }
    RowLength(img, i, j);
    return Ok(next);
  }

  /** The body of the inner loop for quad (i, j): six pixel reads, each followed
      by one vertex written at the write index. `GetPixel` throws for a row below
      the image: row j on the first read, row j + 1 on the third. On success the
      result is the advanced write index. */
  method WriteQuad(img: array2<byte>, vertices: array<int>, a: nat, i: nat, j: nat)
      returns (r: Result<nat>)
    requires i + 1 < img.Length0
    requires j < img.Length1 ==> a + 18 <= vertices.Length
    modifies vertices
    ensures r.Ok? <==> j + 1 < img.Length1
    ensures r.Err? ==> r.error == PixelOutOfRange(i, if j < img.Length1 then j + 1 else j)
    ensures r.Ok? ==> r.value == a + 18
    ensures r.Ok? ==> vertices[..] == old(vertices[..a]) + Quad(img, i, j) + old(vertices[a + 18..])
  {
    if img.Length1 <= j {
      return Err(PixelOutOfRange(i, j));
    }
    ghost var orig := vertices[..];
    ghost var done: seq<int> := [];
    ghost var prev := orig;
    var next := a;
    var c := img[i, j];
    next := PutVertex(vertices, next, i, HeightOf(c), j);
    Splice(prev, orig, a, done, [i, HeightOf(c), j]);
    done, prev := done + [i, HeightOf(c), j], vertices[..];

    c := img[i + 1, j];
    next := PutVertex(vertices, next, i + 1, HeightOf(c), j);
    Splice(prev, orig, a, done, [i + 1, HeightOf(c), j]);
    done, prev := done + [i + 1, HeightOf(c), j], vertices[..];

    if img.Length1 <= j + 1 {
      return Err(PixelOutOfRange(i, j + 1));
    }
    c := img[i, j + 1];
    next := PutVertex(vertices, next, i, HeightOf(c), j + 1);
    Splice(prev, orig, a, done, [i, HeightOf(c), j + 1]);
    done, prev := done + [i, HeightOf(c), j + 1], vertices[..];

    c := img[i + 1, j + 1];
    next := PutVertex(vertices, next, i + 1, HeightOf(c), j + 1);
    Splice(prev, orig, a, done, [i + 1, HeightOf(c), j + 1]);
    done, prev := done + [i + 1, HeightOf(c), j + 1], vertices[..];

    c := img[i + 1, j];
    next := PutVertex(vertices, next, i + 1, HeightOf(c), j);
    Splice(prev, orig, a, done, [i + 1, HeightOf(c), j]);
    done, prev := done + [i + 1, HeightOf(c), j], vertices[..];

    c := img[i, j + 1];
    next := PutVertex(vertices, next, i, HeightOf(c), j + 1);
    Splice(prev, orig, a, done, [i, HeightOf(c), j + 1]);
    done := done + [i, HeightOf(c), j + 1];

    assert done == Quad(img, i, j);
    return Ok(next);
  }

  /** One more vertex written after `done` at write index a keeps the buffer equal
      to the original with `done` spliced in. */
  lemma Splice(s: seq<int>, orig: seq<int>, a: nat, done: seq<int>, v: seq<int>)
    requires |v| == 3 && a + |done| + 3 <= |orig|
    requires s == orig[..a] + done + orig[a + |done|..]
    ensures s[..a + |done|] + v + s[a + |done| + 3..] == orig[..a] + (done + v) + orig[a + |done| + 3..]
  {
    assert s[..a + |done|] == orig[..a] + done;
    assert s[a + |done| + 3..] == orig[a + |done| + 3..];
  }

  /** Writes one vertex at the write index and returns the advanced index: the
      three `_vertices[a++] = ...` statements that follow each pixel read. */
  method PutVertex(vertices: array<int>, a: nat, x: int, y: int, z: int) returns (next: nat)
    requires a + 3 <= vertices.Length
    modifies vertices
    ensures next == a + 3
    ensures vertices[..] == old(vertices[..a]) + [x, y, z] + old(vertices[a + 3..])
  {
    next := a;
    vertices[next] := x; next := next + 1;
    vertices[next] := y; next := next + 1;
    vertices[next] := z; next := next + 1;
  }

  class Terrain {
    /** The decoded heightmap, red channel only, indexed [x, y]. */
    const heightmap: array2<byte>
    /** The vertex buffer: x, y, z of every emitted vertex, then unused zeros. */
    const vertices: array<int>

    ghost predicate Valid()
      reads this, heightmap, vertices
    {
      ReadsInBounds(heightmap.Length0, heightmap.Length1) &&
      vertices.Length == heightmap.Length0 * heightmap.Length1 * 18 &&
      |Mesh(heightmap)| <= vertices.Length &&
      vertices[..|Mesh(heightmap)|] == Mesh(heightmap) &&
      forall n | |Mesh(heightmap)| <= n < vertices.Length :: vertices[n] == 0
    }

    /** Copies the decoded image into a private array, as the source decodes its
        own `Bitmap`, allocates a zeroed buffer of Width * Height * 3 * 3 * 2
        numbers and fills it. The loops' exception is the Err result of
        FillVertices; this constructor is for the images that do not raise it. */
    constructor (img: array2<byte>)
      requires ReadsInBounds(img.Length0, img.Length1)
      ensures fresh(heightmap) && fresh(vertices)
      ensures heightmap.Length0 == img.Length0 && heightmap.Length1 == img.Length1
      ensures forall x, y | 0 <= x < img.Length0 && 0 <= y < img.Length1 :: heightmap[x, y] == img[x, y]
      ensures vertices.Length == img.Length0 * img.Length1 * 18
      ensures |Mesh(heightmap)| <= vertices.Length && vertices[..|Mesh(heightmap)|] == Mesh(heightmap)
      ensures forall n | |Mesh(heightmap)| <= n < vertices.Length :: vertices[n] == 0
      ensures Valid()
    {
      var copy := new byte[img.Length0, img.Length1]((x, y) reads img requires 0 <= x < img.Length0 && 0 <= y < img.Length1 => img[x, y]);
      var buffer := new int[img.Length0 * img.Length1 * 3 * 3 * 2](_ => 0);
      var written := FillVertices(copy, buffer);
      heightmap := copy;
      vertices := buffer;
    }

    /** The height at grid position (x, y): the red byte there divided by 4,
        truncated. Outside the image `GetPixel` throws. */
    function GetHeightAtPosition(x: int, y: int): (r: Result<int>)
      reads this, heightmap
      ensures r.Ok? <==> 0 <= x < heightmap.Length0 && 0 <= y < heightmap.Length1
      ensures r.Ok? ==> 0 <= r.value <= 63 && 4 * r.value <= heightmap[x, y] as int < 4 * r.value + 4
      ensures r.Err? ==> r.error == PixelOutOfRange(x, y)
    {
      if 0 <= x < heightmap.Length0 && 0 <= y < heightmap.Length1 then
        Ok(Height(heightmap, x, y))
      else
        Err(PixelOutOfRange(x, y))
    }
  }

  /** Every vertex in the buffer carries, as its y, exactly what the height query
      answers at its (x, z). */
  lemma QueryAgreesWithMesh(t: Terrain, v: nat)
    requires t.Valid()
    requires v < |Mesh(t.heightmap)| / 3
    ensures 3 * v + 3 <= t.vertices.Length
    ensures var p := VertexAt(t.vertices[..], v);
      t.GetHeightAtPosition(p.x, p.z) == Ok(p.y)
  {
    MeshOnGrid(t.heightmap);
    assert VertexAt(t.vertices[..], v) == VertexAt(Mesh(t.heightmap), v);
  }

  /** Vertex c of quad (i, j) sits at vertex number 6 * (i * Side + j) + c of the
      buffer, is corner c of the reference order, and its height is what the
      query answers at its (x, z). */
  lemma QuadInBuffer(t: Terrain, i: nat, j: nat, c: nat)
    requires t.Valid()
    requires i < Side(t.heightmap.Length0) && j < Side(t.heightmap.Length0) && c < 6
    ensures 3 * (6 * (i * Side(t.heightmap.Length0) + j) + c) + 3 <= t.vertices.Length
    ensures var p := VertexAt(t.vertices[..], 6 * (i * Side(t.heightmap.Length0) + j) + c);
      p == Corner(t.heightmap, i, j, c) && t.GetHeightAtPosition(p.x, p.z) == Ok(p.y)
  {
    var v := 6 * (i * Side(t.heightmap.Length0) + j) + c;
    MeshVertex(t.heightmap, i, j, c);
    QueryAgreesWithMesh(t, v);
  }
}
