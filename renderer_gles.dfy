/**
  The GL renderer of the terminal view as a class: it holds the emulator it
  draws, the surface size, the font metrics and three float buffers (vertex
  positions, texture coordinates, colours), which generateMesh reallocates
  when too small and refills in place every frame.

  A Java FloatBuffer is modelled as an array (its capacity is the array's
  length) and a write position; `put` stores at the position and advances it,
  `clear` and `position(0)` reset it. GL calls are not modelled: a frame is
  reduced to the mesh it leaves in the buffers and the vertex count it draws.
 */
module RendererGLESClass {
  import opened Terminal
  import opened GlyphAtlas
  import opened Mesh

  /** Math.ceil on a real, as an int. */
  function Ceil(x: real): (n: int)
    ensures n as real - 1.0 < x <= n as real
  {
    -((-x).Floor)
  }

  /** The capacity of a buffer that may not exist yet. */
  function CapacityOf(buffer: array?<real>): Option<nat> {
    if buffer == null then None else Some(buffer.Length)
  }

  /** The buffer holds what was emitted so far up to its position, and beyond
      it still what it held before: before, of the buffer's length. */
  ghost predicate Emits(contents: seq<real>, position: nat, emitted: seq<real>, before: seq<real>) {
    && position == |emitted| <= |contents| == |before|
    && contents[..position] == emitted
    && contents[position..] == before[position..]
  }

  /** Writing cell at the position, and nothing else, extends what was
      emitted by cell. */
  lemma EmitsCell(now: seq<real>, was: seq<real>, before: seq<real>, p: nat, q: nat, emitted: seq<real>, cell: seq<real>)
    requires Emits(was, p, emitted, before) && q == p + |cell| && |now| == |was|
    requires q <= |now| && now[..q] == was[..p] + cell && now[q..] == was[q..]
    ensures Emits(now, q, emitted + cell, before)
  {
    assert was[q..] == was[p..][q - p..];
    assert before[q..] == before[p..][q - p..];
  }

  /** The buffer starts with the whole mesh. */
  ghost predicate HoldsMesh(buffer: array<real>, mesh: seq<real>)
    reads buffer
  {
    |mesh| <= buffer.Length && buffer[..|mesh|] == mesh
  }

  /** Consecutive puts of xs into buffer, starting at position `at`. */
  method Put(buffer: array<real>, at: nat, xs: seq<real>) returns (next: nat)
    requires at + |xs| <= buffer.Length
    modifies buffer
    ensures next == at + |xs|
    ensures buffer[..next] == old(buffer[..at]) + xs
    ensures buffer[next..] == old(buffer[next..])
  {
    next := at;
    for j := 0 to |xs|
      invariant next == at + j
      invariant buffer[..next] == old(buffer[..at]) + xs[..j]
      invariant buffer[next..] == old(buffer[next..])
    {
      buffer[next] := xs[j];
      next := next + 1;
    }
  }

  /** The eighteen position puts of cell (row, col): two triangles over the
      cell's rectangle in normalized device coordinates. */
  method EmitPositions(buffer: array<real>, at: nat, s: Surface, e: Emulator, row: nat, col: nat) returns (next: nat)
    requires MeshReady(s, e) && row < e.rows && col < e.columns
    requires at + CellSize(Position) <= buffer.Length
    modifies buffer
    ensures next == at + CellSize(Position)
    ensures buffer[..next] == old(buffer[..at]) + CellFloats(Position, s, e, row, col)
    ensures buffer[next..] == old(buffer[next..])
  {
    var fontWidth, lineSpacing, width, height := s.fontWidth, s.lineSpacing, s.width, s.height;
    var x1 := (col as real * fontWidth / width as real) * 2.0 - 1.0;
    var y1 := -(((row * lineSpacing) as real / height as real) * 2.0 - 1.0);
    var x2 := x1 + (fontWidth / width as real) * 2.0;
    var y2 := y1 - (lineSpacing as real / height as real) * 2.0;
    assert x1 == CellX1(s, col) && x2 == CellX2(s, col);
    assert y1 == CellY1(s, row) && y2 == CellY2(s, row);
    next := Put(buffer, at,
      [x1, y2, 0.0, x1, y1, 0.0, x2, y1, 0.0,
       x2, y1, 0.0, x2, y2, 0.0, x1, y2, 0.0]);
  }

  /** The twelve texture-coordinate puts of cell (row, col): the cell's glyph
      in the atlas, a NUL drawn as a space. */
  method EmitTexCoords(buffer: array<real>, at: nat, s: Surface, e: Emulator, row: nat, col: nat) returns (next: nat)
    requires MeshReady(s, e) && row < e.rows && col < e.columns
    requires at + CellSize(TexCoord) <= buffer.Length
    modifies buffer
    ensures next == at + CellSize(TexCoord)
    ensures buffer[..next] == old(buffer[..at]) + CellFloats(TexCoord, s, e, row, col)
    ensures buffer[next..] == old(buffer[next..])
  {
    var fontWidth := s.fontWidth;
    var c := e.lines[row][col].code;
    if c == 0 {
      c := 32;
    }
    var u1 := ((c as int - 32) as real * fontWidth) / (fontWidth * 95.0);
    var v1 := 0.0;
    var u2 := u1 + (fontWidth / (fontWidth * 95.0));
    var v2 := 1.0;
    assert c == GlyphCode(e.lines[row][col].code);
    assert u1 == TexU1(c as int, fontWidth) && u2 == TexU2(c as int, fontWidth);
    next := Put(buffer, at,
      [u1, v1, u1, v2, u2, v2,
       u2, v2, u2, v1, u1, v1]);
  }

  /** The colour puts of cell (row, col): the foreground colour's red, green
      and blue levels and an opaque alpha, once per vertex. The background
      colour is decoded by the source and not used, so it is not read here. */
  method EmitColours(buffer: array<real>, at: nat, s: Surface, e: Emulator, row: nat, col: nat) returns (next: nat)
    requires MeshReady(s, e) && row < e.rows && col < e.columns
    requires at + CellSize(Colour) <= buffer.Length
    modifies buffer
    ensures next == at + CellSize(Colour)
    ensures buffer[..next] == old(buffer[..at]) + CellFloats(Colour, s, e, row, col)
    ensures buffer[next..] == old(buffer[next..])
  {
    var color := e.palette[e.lines[row][col].fore];
    var red := ((color / 0x1_0000) % 256) as real / 255.0;
    var green := ((color / 0x100) % 256) as real / 255.0;
    var blue := (color % 256) as real / 255.0;
    next := at;
    for i := 0 to VerticesPerCell
      invariant next == at + 4 * i
      invariant buffer[..next] == old(buffer[..at]) + Repeat(VertexColour(color), i)
      invariant buffer[next..] == old(buffer[next..])
    {
      next := Put(buffer, next, [red, green, blue, 1.0]);
    }
  }

  /** The puts of cell (row, col) into the buffer of attribute a, in a buffer
      that holds the cells before it and can hold the whole mesh. */
  method EmitNext(a: Attribute, buffer: array<real>, at: nat, s: Surface, e: Emulator, row: nat, col: nat,
                  ghost before: seq<real>) returns (next: nat)
    requires MeshReady(s, e) && row < e.rows && col < e.columns
    requires buffer.Length >= VertexCount(e) * Stride(a)
    requires Emits(buffer[..], at, PartialMesh(a, s, e, row, col), before)
    modifies buffer
    ensures Emits(buffer[..], next, PartialMesh(a, s, e, row, col + 1), before)
  {
    ghost var was := buffer[..];
    PartialMeshStep(a, s, e, row, col);
    PartialMeshFits(a, s, e, row, col);
    match a
    case Position => next := EmitPositions(buffer, at, s, e, row, col);
    case TexCoord => next := EmitTexCoords(buffer, at, s, e, row, col);
    case Colour => next := EmitColours(buffer, at, s, e, row, col);
    EmitsCell(buffer[..], was, before, at, next, PartialMesh(a, s, e, row, col), CellFloats(a, s, e, row, col));
  }

  /** One buffer check of generateMesh: keep the buffer if it can hold need
      floats, otherwise allocate a zeroed one of exactly need floats. */
  method Ensure(buffer: array?<real>, need: nat) returns (b: array<real>)
    ensures b.Length == Capacity(CapacityOf(buffer), need)
    ensures b == buffer || fresh(b)
  {
    if buffer == null || buffer.Length < need {
      b := new real[need](_ => 0.0);
    } else {
      b := buffer;
    }
  }

  class RendererGLES {
    const fontWidth: real
    const lineSpacing: int
    const lineSpacingAndAscent: int

    var emulator: Option<Emulator>
    var width: int
    var height: int

    var vertices: array?<real>
    var texCoords: array?<real>
    var colours: array?<real>
    var vertexPosition: nat
    var texCoordPosition: nat
    var colourPosition: nat

    /** The metrics are positive and the three buffers, once they exist, are
        three different arrays. */
    ghost predicate Valid()
      reads this
    {
      && fontWidth > 0.0 && lineSpacing > 0
      && (vertices != null && texCoords != null ==> vertices != texCoords)
      && (vertices != null && colours != null ==> vertices != colours)
      && (texCoords != null && colours != null ==> texCoords != colours)
    }

    function Surface(): Mesh.Surface
      reads this
    {
      Mesh.Surface(fontWidth, lineSpacing, width, height)
    }

    /** The renderer for a font whose advance width, line spacing and (negative)
        ascent the paint reports; no emulator, no buffers, no surface yet. */
    constructor (fontWidth: real, fontSpacing: real, ascent: real)
      requires fontWidth > 0.0 && fontSpacing > 0.0
      ensures Valid()
      ensures this.fontWidth == fontWidth
      ensures this.lineSpacing == Ceil(fontSpacing) && this.lineSpacingAndAscent == Ceil(fontSpacing) + Ceil(ascent)
      // the atlas baseline createFontTexture uses, from these two fields
      ensures this.lineSpacingAndAscent - this.lineSpacing == AtlasBaseline(this.lineSpacing, Ceil(ascent))
      ensures emulator.None? && vertices == null && texCoords == null && colours == null
    {
      this.fontWidth := fontWidth;
      lineSpacing := Ceil(fontSpacing);
      var fontAscent := Ceil(ascent);
      lineSpacingAndAscent := Ceil(fontSpacing) + fontAscent;
      emulator := None;
      width, height := 0, 0;
      vertices, texCoords, colours := null, null, null;
      vertexPosition, texCoordPosition, colourPosition := 0, 0, 0;
    }

    method SetEmulator(e: Option<Emulator>)
      requires Valid()
      modifies this`emulator
      ensures Valid() && emulator == e
    {
      emulator := e;
    }

    method OnSurfaceChanged(w: int, h: int)
      requires Valid()
      modifies this`width, this`height
      ensures Valid() && width == w && height == h
    {
      width := w;
      height := h;
    }

    /** The mesh builder has emitted rows 0 .. row - 1 and the first col cells
        of row into the three buffers, which beyond their positions still hold
        v0, t0 and c0. */
    ghost predicate Emitted(e: Emulator, row: nat, col: nat, v0: seq<real>, t0: seq<real>, c0: seq<real>)
      reads this, vertices, texCoords, colours
      requires MeshReady(Surface(), e) && row <= e.rows
    {
      && vertices != null && texCoords != null && colours != null
      && Emits(vertices[..], vertexPosition, PartialMesh(Position, Surface(), e, row, col), v0)
      && Emits(texCoords[..], texCoordPosition, PartialMesh(TexCoord, Surface(), e, row, col), t0)
      && Emits(colours[..], colourPosition, PartialMesh(Colour, Surface(), e, row, col), c0)
    }

    /** After a frame: the three buffers start with e's mesh and are rewound. */
    ghost predicate Holds(e: Emulator)
      reads this, vertices, texCoords, colours
      requires MeshReady(Surface(), e)
    {
      && vertices != null && texCoords != null && colours != null
      && vertexPosition == 0 && texCoordPosition == 0 && colourPosition == 0
      && HoldsMesh(vertices, MeshFloats(Position, Surface(), e))
      && HoldsMesh(texCoords, MeshFloats(TexCoord, Surface(), e))
      && HoldsMesh(colours, MeshFloats(Colour, Surface(), e))
    }

    /** generateMesh. Without an emulator nothing happens. Otherwise every
        buffer too small for the mesh (or missing) is replaced by one of
        exactly the mesh's size, the others are reused, and each buffer is
        filled from the start with the mesh's floats, beyond which a reused
        buffer keeps what it held; the positions end rewound. */
    method GenerateMesh()
      requires Valid() && (emulator.Some? ==> MeshReady(Surface(), emulator.value))
      modifies this`vertices, this`texCoords, this`colours
      modifies this`vertexPosition, this`texCoordPosition, this`colourPosition
      modifies vertices, texCoords, colours
      ensures Valid() && emulator == old(emulator) && Surface() == old(Surface())
      ensures emulator.None? ==>
        && vertices == old(vertices) && texCoords == old(texCoords) && colours == old(colours)
        && vertexPosition == old(vertexPosition) && texCoordPosition == old(texCoordPosition)
        && colourPosition == old(colourPosition)
        && (vertices != null ==> unchanged(vertices))
        && (texCoords != null ==> unchanged(texCoords))
        && (colours != null ==> unchanged(colours))
      ensures emulator.Some? ==> Holds(emulator.value)
      ensures emulator.Some? ==> var need := VertexCount(emulator.value);
        && vertices != null && texCoords != null && colours != null
        && vertices.Length == Capacity(CapacityOf(old(vertices)), need * Stride(Position))
        && texCoords.Length == Capacity(CapacityOf(old(texCoords)), need * Stride(TexCoord))
        && colours.Length == Capacity(CapacityOf(old(colours)), need * Stride(Colour))
        && (vertices == old(vertices) || fresh(vertices))
        && (texCoords == old(texCoords) || fresh(texCoords))
        && (colours == old(colours) || fresh(colours))
        && (vertices == old(vertices) ==> vertices[need * 3..] == old(vertices[need * 3..]))
        && (texCoords == old(texCoords) ==> texCoords[need * 2..] == old(texCoords[need * 2..]))
        && (colours == old(colours) ==> colours[need * 4..] == old(colours[need * 4..]))
    {
      if emulator.None? {
        return;
      }
      var e := emulator.value;
      Reserve(e);
      Fill(e);
    }

    /** The buffer checks of generateMesh: a buffer that is missing or holds
        fewer than the mesh's floats is replaced by a new one of exactly that
        size; the contents of the others are not touched. */
    method Reserve(e: Emulator)
      requires Valid()
      modifies this`vertices, this`texCoords, this`colours
      ensures Valid() && Sized(e)
      ensures var need := VertexCount(e);
        && vertices.Length == Capacity(CapacityOf(old(vertices)), need * Stride(Position))
        && texCoords.Length == Capacity(CapacityOf(old(texCoords)), need * Stride(TexCoord))
        && colours.Length == Capacity(CapacityOf(old(colours)), need * Stride(Colour))
      ensures vertices == old(vertices) || fresh(vertices)
      ensures texCoords == old(texCoords) || fresh(texCoords)
      ensures colours == old(colours) || fresh(colours)
    {
      var columns := e.columns;
      var rows := e.rows;
      var numCharacters := columns * rows;
      var numVertices := numCharacters * 6;
      vertices := Ensure(vertices, numVertices * 3);
      texCoords := Ensure(texCoords, numVertices * 2);
      colours := Ensure(colours, numVertices * 4);
    }

    /** The rest of generateMesh: clear the buffers, put every cell in
        row-major order, rewind. Beyond the mesh the buffers keep what they
        held. */
    method Fill(e: Emulator)
      requires Valid() && MeshReady(Surface(), e) && Sized(e)
      modifies vertices, texCoords, colours, this`vertexPosition, this`texCoordPosition, this`colourPosition
      ensures Holds(e)
      ensures var need := VertexCount(e);
        && vertices[need * 3..] == old(vertices[need * 3..])
        && texCoords[need * 2..] == old(texCoords[need * 2..])
        && colours[need * 4..] == old(colours[need * 4..])
    {
      ghost var s := Surface();
      vertexPosition, texCoordPosition, colourPosition := 0, 0, 0;  // clear
      ghost var v0, t0, c0 := vertices[..], texCoords[..], colours[..];

      for row := 0 to e.rows
        invariant Emitted(e, row, 0, v0, t0, c0)
      {
        for col := 0 to e.columns
          invariant Emitted(e, row, col, v0, t0, c0)
        {
          EmitCell(e, row, col, v0, t0, c0);
        }
        PartialMeshRowDone(Position, s, e, row);
        PartialMeshRowDone(TexCoord, s, e, row);
        PartialMeshRowDone(Colour, s, e, row);
      }
      MeshHoldsVertexCount(Position, s, e);
      MeshHoldsVertexCount(TexCoord, s, e);
      MeshHoldsVertexCount(Colour, s, e);

      vertexPosition, texCoordPosition, colourPosition := 0, 0, 0;  // position(0)
    }

    /** The body of the inner loop: the puts of cell (row, col) into the three
        buffers. */
    method EmitCell(e: Emulator, row: nat, col: nat, ghost v0: seq<real>, ghost t0: seq<real>, ghost c0: seq<real>)
      requires Valid() && MeshReady(Surface(), e) && row < e.rows && col < e.columns
      requires Emitted(e, row, col, v0, t0, c0) && Sized(e)
      modifies vertices, texCoords, colours, this`vertexPosition, this`texCoordPosition, this`colourPosition
      ensures Emitted(e, row, col + 1, v0, t0, c0)
    {
      var s := Surface();
      vertexPosition := EmitNext(Position, vertices, vertexPosition, s, e, row, col, v0);
      texCoordPosition := EmitNext(TexCoord, texCoords, texCoordPosition, s, e, row, col, t0);
      colourPosition := EmitNext(Colour, colours, colourPosition, s, e, row, col, c0);
    }

    /** Every buffer can hold the whole of e's mesh. */
    ghost predicate Sized(e: Emulator)
      reads this
    {
      && vertices != null && texCoords != null && colours != null
      && vertices.Length >= VertexCount(e) * Stride(Position)
      && texCoords.Length >= VertexCount(e) * Stride(TexCoord)
      && colours.Length >= VertexCount(e) * Stride(Colour)
    }

    /** onDrawFrame: nothing without an emulator; otherwise the mesh is
        regenerated and drawn as columns * rows * 6 vertices, each buffer
        holding that many vertices' floats, exactly the mesh's. */
    method OnDrawFrame() returns (drawn: Option<nat>)
      requires Valid() && (emulator.Some? ==> MeshReady(Surface(), emulator.value))
      modifies this`vertices, this`texCoords, this`colours
      modifies this`vertexPosition, this`texCoordPosition, this`colourPosition
      modifies vertices, texCoords, colours
      ensures Valid() && emulator == old(emulator)
      ensures drawn.None? <==> emulator.None?
      ensures emulator.None? ==>
        && vertices == old(vertices) && texCoords == old(texCoords) && colours == old(colours)
        && (vertices != null ==> unchanged(vertices))
        && (texCoords != null ==> unchanged(texCoords))
        && (colours != null ==> unchanged(colours))
      ensures emulator.Some? ==>
        && drawn == Some(VertexCount(emulator.value))
        && Holds(emulator.value)
        && drawn.value * 3 <= vertices.Length && drawn.value * 2 <= texCoords.Length
        && drawn.value * 4 <= colours.Length
        && vertices[..drawn.value * 3] == MeshFloats(Position, Surface(), emulator.value)
        && texCoords[..drawn.value * 2] == MeshFloats(TexCoord, Surface(), emulator.value)
        && colours[..drawn.value * 4] == MeshFloats(Colour, Surface(), emulator.value)
    {
      if emulator.None? {
        return None;
      }
      GenerateMesh();
      var e := emulator.value;
      MeshHoldsVertexCount(Position, Surface(), e);
      MeshHoldsVertexCount(TexCoord, Surface(), e);
      MeshHoldsVertexCount(Colour, Surface(), e);
      drawn := Some(e.columns * e.rows * 6);
    }
  }
}
