/**
  The mesh the GL renderer builds for one frame, as values: for every screen
  cell, in row-major order, six vertices (two triangles over the cell's
  rectangle), each with a position, a texture coordinate into the glyph atlas
  and a colour. The three attributes go to three flat float buffers; the
  functions here give the floats each buffer must hold, and RendererGLES fills
  its arrays with exactly these.

  Coordinates are idealised as reals (Java's float rounding is not modelled).
 */
module Mesh {
  import opened Terminal
  import opened GlyphAtlas

  /** What the mesh depends on besides the screen: the font metrics and the
      surface size in pixels. */
  datatype Surface = Surface(fontWidth: real, lineSpacing: int, width: int, height: int)

  predicate SurfaceValid(s: Surface) {
    s.fontWidth > 0.0 && s.lineSpacing > 0 && s.width > 0 && s.height > 0
  }

  // ---------------------------------------------------------------------------
  // Integer layout helpers

  lemma MulAtLeast(k: int, c: int)
    requires k >= 1 && c > 0
    ensures k * c >= c
  {
    assert k * c == (k - 1) * c + c;
  }

  /** Euclidean division is unique: q * d + r with 0 <= r < d splits back
      into q and r. */
  lemma DivUnique(q: int, r: int, d: int)
    requires 0 <= r < d
    ensures (q * d + r) / d == q
    ensures (q * d + r) % d == r
  {
    var x := q * d + r;
    var q', r' := x / d, x % d;
    assert x == q' * d + r' && 0 <= r' < d;
    if q' > q {
      MulAtLeast(q' - q, d);
    } else if q' < q {
      MulAtLeast(q - q', d);
    }
  }

  // ---------------------------------------------------------------------------
  // Positions

  /** Reference definitions: a pixel offset from the surface's left edge, and
      one from its top edge, in normalized device coordinates (x grows to the
      right, y grows upward, both from -1 to 1 across the surface). */
  function NdcX(px: real, width: int): real
    requires width > 0
  {
    px / width as real * 2.0 - 1.0
  }

  function NdcY(py: real, height: int): real
    requires height > 0
  {
    1.0 - py / height as real * 2.0
  }

  /** The cell's left and right edges, as the mesh builder computes them. */
  function CellX1(s: Surface, col: int): real
    requires s.width > 0
  {
    (col as real * s.fontWidth / s.width as real) * 2.0 - 1.0
  }

  function CellX2(s: Surface, col: int): real
    requires s.width > 0
  {
    CellX1(s, col) + (s.fontWidth / s.width as real) * 2.0
  }

  /** The cell's top and bottom edges. */
  function CellY1(s: Surface, row: int): real
    requires s.height > 0
  {
    -(((row * s.lineSpacing) as real / s.height as real) * 2.0 - 1.0)
  }

  function CellY2(s: Surface, row: int): real
    requires s.height > 0
  {
    CellY1(s, row) - (s.lineSpacing as real / s.height as real) * 2.0
  }

  lemma DivAdd(a: real, b: real, w: real)
    requires w > 0.0
    ensures a / w + b / w == (a + b) / w
  {
  }

  lemma DivPositive(a: real, w: real)
    requires a > 0.0 && w > 0.0
    ensures a / w > 0.0
  {
  }

  lemma DivMonotone(a: real, b: real, w: real)
    requires a <= b && w > 0.0
    ensures a / w <= b / w
  {
    DivAdd(a, b - a, w);
    if b - a > 0.0 {
      DivPositive(b - a, w);
    }
  }

  /** The edges the builder computes are the device coordinates of the cell's
      pixel rectangle: columns are font widths wide, rows line spacings high;
      the right edge of a cell is the left edge of the next one and the bottom
      edge of a row the top edge of the next. */
  lemma CellEdges(s: Surface, row: int, col: int)
    requires SurfaceValid(s)
    ensures CellX1(s, col) == NdcX(col as real * s.fontWidth, s.width)
    ensures CellX2(s, col) == NdcX((col + 1) as real * s.fontWidth, s.width)
    ensures CellY1(s, row) == NdcY((row * s.lineSpacing) as real, s.height)
    ensures CellY2(s, row) == NdcY(((row + 1) * s.lineSpacing) as real, s.height)
    ensures CellX2(s, col) == CellX1(s, col + 1) && CellY2(s, row) == CellY1(s, row + 1)
    ensures CellX1(s, col) < CellX2(s, col) && CellY2(s, row) < CellY1(s, row)
  {
    ColumnEdges(s, col);
    RowEdges(s, row);
  }

  lemma ColumnEdges(s: Surface, col: int)
    requires SurfaceValid(s)
    ensures CellX1(s, col) == NdcX(col as real * s.fontWidth, s.width)
    ensures CellX2(s, col) == NdcX((col + 1) as real * s.fontWidth, s.width) == CellX1(s, col + 1)
    ensures CellX1(s, col) < CellX2(s, col)
  {
    var w := s.width as real;
    var x, x' := col as real * s.fontWidth, (col + 1) as real * s.fontWidth;
    NextColumnPixel(col, s.fontWidth);
    DivAdd(x, s.fontWidth, w);
    DivPositive(s.fontWidth, w);
  }

  lemma NextColumnPixel(col: int, fontWidth: real)
    ensures (col + 1) as real * fontWidth == col as real * fontWidth + fontWidth
  {
  }

  lemma RowEdges(s: Surface, row: int)
    requires SurfaceValid(s)
    ensures CellY1(s, row) == NdcY((row * s.lineSpacing) as real, s.height)
    ensures CellY2(s, row) == NdcY(((row + 1) * s.lineSpacing) as real, s.height) == CellY1(s, row + 1)
    ensures CellY2(s, row) < CellY1(s, row)
  {
    var h := s.height as real;
    var y := (row * s.lineSpacing) as real;
    assert ((row + 1) * s.lineSpacing) as real == y + s.lineSpacing as real;
    DivAdd(y, s.lineSpacing as real, h);
    DivPositive(s.lineSpacing as real, h);
  }

  /** A pixel offset inside the surface lands inside [-1, 1]. */
  lemma NdcInside(px: real, py: real, s: Surface)
    requires SurfaceValid(s)
    requires 0.0 <= px <= s.width as real && 0.0 <= py <= s.height as real
    ensures -1.0 <= NdcX(px, s.width) <= 1.0 && -1.0 <= NdcY(py, s.height) <= 1.0
  {
    var w, h := s.width as real, s.height as real;
    DivMonotone(0.0, px, w);
    DivMonotone(px, w, w);
    DivMonotone(0.0, py, h);
    DivMonotone(py, h, h);
  }

  /** When the grid fits the surface (as it does when the view derived its
      columns and rows from the same size), every cell lies inside the
      visible device-coordinate square. */
  lemma GridInsideSurface(s: Surface, rows: nat, columns: nat, row: nat, col: nat)
    requires SurfaceValid(s)
    requires columns as real * s.fontWidth <= s.width as real
    requires rows * s.lineSpacing <= s.height
    requires row < rows && col < columns
    ensures -1.0 <= CellX1(s, col) < CellX2(s, col) <= 1.0
    ensures -1.0 <= CellY2(s, row) < CellY1(s, row) <= 1.0
  {
    ColumnInside(s, columns, col);
    RowInside(s, rows, row);
  }

  lemma ColumnInside(s: Surface, columns: nat, col: nat)
    requires SurfaceValid(s)
    requires columns as real * s.fontWidth <= s.width as real && col < columns
    ensures -1.0 <= CellX1(s, col) < CellX2(s, col) <= 1.0
  {
    ColumnPixels(col, columns, s.fontWidth, s.width as real);
    NdcXInside(col as real * s.fontWidth, s.width);
    NdcXInside((col + 1) as real * s.fontWidth, s.width);
    CellEdges(s, 0, col);
  }

  /** A column of the grid spans pixels inside the surface's width. */
  lemma ColumnPixels(col: int, columns: int, fontWidth: real, width: real)
    requires 0 <= col < columns && fontWidth > 0.0 && columns as real * fontWidth <= width
    ensures 0.0 <= col as real * fontWidth && (col + 1) as real * fontWidth <= width
  {
    ScaleLe(0, col, fontWidth);
    ScaleLe(col + 1, columns, fontWidth);
  }

  lemma NdcXInside(px: real, width: int)
    requires width > 0 && 0.0 <= px <= width as real
    ensures -1.0 <= NdcX(px, width) <= 1.0
  {
    DivMonotone(0.0, px, width as real);
    DivMonotone(px, width as real, width as real);
  }

  lemma RowInside(s: Surface, rows: nat, row: nat)
    requires SurfaceValid(s)
    requires rows * s.lineSpacing <= s.height && row < rows
    ensures -1.0 <= CellY2(s, row) < CellY1(s, row) <= 1.0
  {
    CellEdges(s, row, 0);
    IntScaleLe(row + 1, rows, s.lineSpacing);
    IntScaleLe(0, row, s.lineSpacing);
    NdcInside(0.0, (row * s.lineSpacing) as real, s);
    NdcInside(0.0, ((row + 1) * s.lineSpacing) as real, s);
  }

  lemma ScaleLe(m: int, n: int, f: real)
    requires m <= n && f > 0.0
    ensures m as real * f <= n as real * f
  {
    var gap := (n - m) as real;
    assert n as real * f - m as real * f == gap * f;
    assert gap * f >= 0.0;
  }

  lemma SuccTimes(n: int, k: int)
    ensures (n - 1) * k + k == n * k
  {
  }

  lemma IntScaleLe(m: int, n: int, k: int)
    requires m <= n && k > 0
    ensures m * k <= n * k
  {
    assert n * k - m * k == (n - m) * k;
  }

  /** The six positions of a cell, three floats each (x, y, z). */
  function CellPositions(s: Surface, row: int, col: int): (r: seq<real>)
    requires s.width > 0 && s.height > 0
    ensures |r| == 6 * 3
  {
    var x1, y1, x2, y2 := CellX1(s, col), CellY1(s, row), CellX2(s, col), CellY2(s, row);
    [x1, y2, 0.0,
     x1, y1, 0.0,
     x2, y1, 0.0,
     x2, y1, 0.0,
     x2, y2, 0.0,
     x1, y2, 0.0]
  }

  /** Vertex k of a flat attribute sequence whose vertices are `stride` floats. */
  function Vertex(floats: seq<real>, k: nat, stride: nat): seq<real>
    requires (k + 1) * stride <= |floats|
  {
    floats[k * stride .. (k + 1) * stride]
  }

  /** Twice the signed area of the triangle p, q, r in the plane (positive when
      counter-clockwise). */
  function Turn(p: seq<real>, q: seq<real>, r: seq<real>): real
    requires |p| >= 2 && |q| >= 2 && |r| >= 2
  {
    (q[0] - p[0]) * (r[1] - p[1]) - (q[1] - p[1]) * (r[0] - p[0])
  }

  lemma ProductPositive(a: real, b: real)
    requires a > 0.0 && b > 0.0
    ensures a * b > 0.0
  {
  }

  /** The two triangles of a cell cover its rectangle: they share the diagonal
      from the bottom-left to the top-right corner (vertex 3 repeats vertex 2,
      vertex 5 repeats vertex 0), between them they use all four corners, every
      vertex lies in the plane z = 0, and both wind the same way (clockwise),
      each with half the cell's area. */
  lemma QuadCoversCell(s: Surface, row: int, col: int)
    requires SurfaceValid(s)
    ensures var p := CellPositions(s, row, col);
      var x1, y1, x2, y2 := CellX1(s, col), CellY1(s, row), CellX2(s, col), CellY2(s, row);
      && Vertex(p, 3, 3) == Vertex(p, 2, 3)
      && Vertex(p, 5, 3) == Vertex(p, 0, 3)
      && Vertex(p, 0, 3) == [x1, y2, 0.0] && Vertex(p, 1, 3) == [x1, y1, 0.0]
      && Vertex(p, 2, 3) == [x2, y1, 0.0] && Vertex(p, 4, 3) == [x2, y2, 0.0]
      && Turn(Vertex(p, 0, 3), Vertex(p, 1, 3), Vertex(p, 2, 3)) == -((x2 - x1) * (y1 - y2))
      && Turn(Vertex(p, 3, 3), Vertex(p, 4, 3), Vertex(p, 5, 3)) == -((x2 - x1) * (y1 - y2))
      && (x2 - x1) * (y1 - y2) > 0.0
  {
    var p := CellPositions(s, row, col);
    var x1, y1, x2, y2 := CellX1(s, col), CellY1(s, row), CellX2(s, col), CellY2(s, row);
    CellEdges(s, row, col);
    ProductPositive(x2 - x1, y1 - y2);
    assert Vertex(p, 0, 3) == [x1, y2, 0.0];
    assert Vertex(p, 1, 3) == [x1, y1, 0.0];
    assert Vertex(p, 2, 3) == [x2, y1, 0.0];
    assert Vertex(p, 3, 3) == [x2, y1, 0.0];
    assert Vertex(p, 4, 3) == [x2, y2, 0.0];
    assert Vertex(p, 5, 3) == [x1, y2, 0.0];
  }

  // ---------------------------------------------------------------------------
  // Texture coordinates

  /** The six texture coordinates of a cell showing code unit c, two floats
      each (u, v); v is 0 or 1, the full height of the atlas. */
  function CellTexCoords(c: JChar, fontWidth: real): (r: seq<real>)
    requires fontWidth > 0.0
    ensures |r| == 6 * 2
  {
    var g := GlyphCode(c) as int;
    var u1, u2 := TexU1(g, fontWidth), TexU2(g, fontWidth);
    [u1, 0.0,
     u1, 1.0,
     u2, 1.0,
     u2, 1.0,
     u2, 0.0,
     u1, 0.0]
  }

  /** A NUL cell is textured exactly like a space. */
  lemma NulDrawsAsSpace(fontWidth: real)
    requires fontWidth > 0.0
    ensures CellTexCoords(0, fontWidth) == CellTexCoords(32, fontWidth)
    ensures forall k :: 0 <= k < 6 ==> CellTexCoords(0, fontWidth)[2 * k] in {0.0, 1.0 / 95.0}
  {
    TexCoordsNormalized(32, fontWidth);
  }

  /** The texture quad is laid on the cell's quad corner to corner: a vertex
      takes the glyph's left edge u1 exactly when it is on the cell's left
      edge, and v = 0 exactly when it is on the cell's bottom edge. For a
      code unit of the strip, u1 is the glyph's slot (c - 32) / 95. */
  lemma TexCoordsFollowCorners(s: Surface, row: int, col: int, c: JChar)
    requires SurfaceValid(s)
    ensures var p, t := CellPositions(s, row, col), CellTexCoords(c, s.fontWidth);
      forall k :: 0 <= k < 6 ==>
        && (t[2 * k] == TexU1(GlyphCode(c) as int, s.fontWidth) <==> p[3 * k] == CellX1(s, col))
        && (t[2 * k] == TexU2(GlyphCode(c) as int, s.fontWidth) <==> p[3 * k] == CellX2(s, col))
        && (t[2 * k + 1] == 0.0 <==> p[3 * k + 1] == CellY2(s, row))
        && (t[2 * k + 1] == 1.0 <==> p[3 * k + 1] == CellY1(s, row))
    ensures InStrip(GlyphCode(c) as int) ==>
      TexU1(GlyphCode(c) as int, s.fontWidth) == (GlyphCode(c) as int - FirstGlyph) as real / 95.0
  {
    var g := GlyphCode(c) as int;
    CellEdges(s, row, col);
    TexCoordsNormalized(g, s.fontWidth);
  }

  // ---------------------------------------------------------------------------
  // Colours

  /** The channels of an ARGB colour held in a Java int (two's complement):
      `(color >> k) & 0xFF` is the byte k bits up, which for any int, negative
      ones included, is floor division followed by a non-negative remainder. */
  function Alpha(color: int): (b: int) ensures 0 <= b < 256 { (color / 0x100_0000) % 256 }
  function Red(color: int): (b: int) ensures 0 <= b < 256 { (color / 0x1_0000) % 256 }
  function Green(color: int): (b: int) ensures 0 <= b < 256 { (color / 0x100) % 256 }
  function Blue(color: int): (b: int) ensures 0 <= b < 256 { color % 256 }

  predicate IsByte(b: int) { 0 <= b < 256 }

  /** Reference definition: the Java int whose four bytes are a, r, g, b. */
  function Argb(a: int, r: int, g: int, b: int): (color: int)
    requires IsByte(a) && IsByte(r) && IsByte(g) && IsByte(b)
    ensures IsInt32(color)
  {
    var u := a * 0x100_0000 + r * 0x1_0000 + g * 0x100 + b;
    if u >= 0x8000_0000 then u - 0x1_0000_0000 else u
  }

  /** Unpacking recovers the bytes a colour was packed from. */
  lemma UnpackArgb(a: int, r: int, g: int, b: int)
    requires IsByte(a) && IsByte(r) && IsByte(g) && IsByte(b)
    ensures var color := Argb(a, r, g, b);
      Alpha(color) == a && Red(color) == r && Green(color) == g && Blue(color) == b
  {
    var color := Argb(a, r, g, b);
    var high := if a >= 128 then -1 else 0;
    var top := high * 256 + a;
    assert color == top * 0x100_0000 + r * 0x1_0000 + g * 0x100 + b;
    DivUnique(top, r * 0x1_0000 + g * 0x100 + b, 0x100_0000);
    DivUnique(top * 256 + r, g * 0x100 + b, 0x1_0000);
    DivUnique(top * 0x1_0000 + r * 256 + g, b, 0x100);
    DivUnique(top * 0x1_0000 + r * 256, g, 256);
    DivUnique(top * 256, r, 256);
    DivUnique(high, a, 256);
    DivUnique(color / 256, b, 256);
  }

  /** Every Java int is the packing of its four unpacked bytes. */
  lemma PackUnpackedArgb(color: int)
    requires IsInt32(color)
    ensures Argb(Alpha(color), Red(color), Green(color), Blue(color)) == color
  {
    var q1, b := color / 256, color % 256;
    var q2, g := q1 / 256, q1 % 256;
    var q3, r := q2 / 256, q2 % 256;
    assert color == q3 * 0x100_0000 + r * 0x1_0000 + g * 0x100 + b;
    DivUnique(q2, g * 256 + b, 0x1_0000);
    DivUnique(q3, r * 0x1_0000 + g * 256 + b, 0x100_0000);
    assert Red(color) == r && Green(color) == g && Blue(color) == b;
    assert -128 <= q3 < 128;
    if q3 < 0 {
      DivUnique(-1, q3 + 256, 256);
    } else {
      DivUnique(0, q3, 256);
    }
  }

  /** A channel byte as the float level the shader sees. */
  function Level(b: int): (x: real)
    requires IsByte(b)
    ensures 0.0 <= x <= 1.0
    ensures x == 0.0 <==> b == 0
    ensures x == 1.0 <==> b == 255
  {
    b as real / 255.0
  }

  /** The four floats of one vertex's colour: the palette colour's red, green
      and blue levels, and an opaque alpha whatever the colour's own alpha. */
  function VertexColour(color: int): (r: seq<real>)
  {
    [Level(Red(color)), Level(Green(color)), Level(Blue(color)), 1.0]
  }

  /** A palette entry packed from bytes a, r, g, b draws as r, g and b over
      255, fully opaque whatever a is. */
  lemma VertexColourOfArgb(a: int, r: int, g: int, b: int)
    requires IsByte(a) && IsByte(r) && IsByte(g) && IsByte(b)
    ensures VertexColour(Argb(a, r, g, b)) == [r as real / 255.0, g as real / 255.0, b as real / 255.0, 1.0]
  {
    UnpackArgb(a, r, g, b);
  }

  /** n copies of s, one after the other. */
  function Repeat(s: seq<real>, n: nat): (r: seq<real>)
    ensures |r| == n * |s|
  {
    if n == 0 then [] else Repeat(s, n - 1) + s
  }

  lemma {:induction false} RepeatCopy(s: seq<real>, n: nat, k: nat)
    requires k < n
    ensures (k + 1) * |s| <= |Repeat(s, n)|
    ensures Repeat(s, n)[k * |s| .. (k + 1) * |s|] == s
  {
    var prev := Repeat(s, n - 1);
    assert Repeat(s, n) == prev + s;
    assert |prev| == (n - 1) * |s|;
    if k == n - 1 {
      assert k * |s| == |prev|;
      assert (k + 1) * |s| == |prev| + |s|;
    } else {
      RepeatCopy(s, n - 1, k);
      assert (k + 1) * |s| <= |prev|;
    }
  }

  /** The 24 colour floats of a cell: the same colour on all six vertices. */
  function CellColours(color: int): (r: seq<real>)
    ensures |r| == 6 * 4
  {
    Repeat(VertexColour(color), 6)
  }

  lemma CellColoursUniform(color: int)
    ensures forall k :: 0 <= k < 6 ==> Vertex(CellColours(color), k, 4) == VertexColour(color)
  {
    forall k | 0 <= k < 6
      ensures Vertex(CellColours(color), k, 4) == VertexColour(color)
    {
      RepeatCopy(VertexColour(color), 6, k);
    }
  }

  // ---------------------------------------------------------------------------
  // The three buffers

  datatype Attribute = Position | TexCoord | Colour

  /** Floats per vertex of each attribute buffer. */
  function Stride(a: Attribute): nat {
    match a
    case Position => 3
    case TexCoord => 2
    case Colour => 4
  }

  const VerticesPerCell: nat := 6

  /** Floats per cell of each attribute buffer. */
  function CellSize(a: Attribute): nat {
    VerticesPerCell * Stride(a)
  }

  /** What the mesh builder needs: a drawable surface and a readable screen. */
  predicate MeshReady(s: Surface, e: Emulator) {
    SurfaceValid(s) && ScreenReadable(e)
  }

  /** The floats attribute a holds for the cell at (row, col). The background
      colour index is decoded by the builder but not used. */
  function CellFloats(a: Attribute, s: Surface, e: Emulator, row: int, col: int): (r: seq<real>)
    requires MeshReady(s, e) && 0 <= row < e.rows && 0 <= col < e.columns
    ensures |r| == CellSize(a)
  {
    var cell := e.lines[row][col];
    match a
    case Position => CellPositions(s, row, col)
    case TexCoord => CellTexCoords(cell.code, s.fontWidth)
    case Colour => CellColours(e.palette[cell.fore])
  }

  /** The floats of every cell of the screen for attribute a; empty outside it. */
  function Cells(a: Attribute, s: Surface, e: Emulator): (cells: (int, int) -> seq<real>)
    requires MeshReady(s, e)
    ensures UniformCells(cells, e.rows, e.columns, CellSize(a))
  {
    (row: int, col: int) =>
      if 0 <= row < e.rows && 0 <= col < e.columns then CellFloats(a, s, e, row, col) else []
  }

  /** Every cell of a rows by columns screen has k floats. */
  ghost predicate UniformCells(cells: (int, int) -> seq<real>, rows: nat, columns: nat, k: nat) {
    forall row, col :: 0 <= row < rows && 0 <= col < columns ==> |cells(row, col)| == k
  }

  /** The floats of cells (row, 0) .. (row, n - 1), in column order. */
  function RowOf(cells: (int, int) -> seq<real>, row: nat, n: nat): seq<real> {
    if n == 0 then [] else RowOf(cells, row, n - 1) + cells(row, n - 1)
  }

  /** The floats of rows 0 .. m - 1, in row order: the first m rows of the
      grid in row-major order. */
  function GridOf(cells: (int, int) -> seq<real>, columns: nat, m: nat): seq<real> {
    if m == 0 then [] else GridOf(cells, columns, m - 1) + RowOf(cells, m - 1, columns)
  }

  /** The whole buffer contents for attribute a: every cell in row-major order. */
  function MeshFloats(a: Attribute, s: Surface, e: Emulator): seq<real>
    requires MeshReady(s, e)
  {
    GridOf(Cells(a, s, e), e.columns, e.rows)
  }

  /** The number of vertices in the mesh, and the count the draw call uses. */
  function VertexCount(e: Emulator): nat {
    e.columns * e.rows * VerticesPerCell
  }

  /** The first vertex slot of cell (row, col). */
  function VertexSlot(row: nat, col: nat, columns: nat): nat {
    (row * columns + col) * VerticesPerCell
  }

  /** A row's first n cells take n cell sizes. */
  lemma {:induction false} RowLength(cells: (int, int) -> seq<real>, rows: nat, columns: nat, k: nat, row: nat, n: nat)
    requires UniformCells(cells, rows, columns, k) && row < rows && n <= columns
    ensures |RowOf(cells, row, n)| == n * k
  {
    if n > 0 {
      RowLength(cells, rows, columns, k, row, n - 1);
      SuccTimes(n, k);
    }
  }

  /** The first m rows take m row sizes. */
  lemma {:induction false} GridLength(cells: (int, int) -> seq<real>, rows: nat, columns: nat, k: nat, m: nat)
    requires UniformCells(cells, rows, columns, k) && m <= rows
    ensures |GridOf(cells, columns, m)| == m * (columns * k)
  {
    if m > 0 {
      GridLength(cells, rows, columns, k, m - 1);
      RowLength(cells, rows, columns, k, m - 1, columns);
      SuccTimes(m, columns * k);
    }
  }

  /** Each buffer holds exactly the mesh's vertices, Stride floats each. */
  lemma MeshHoldsVertexCount(a: Attribute, s: Surface, e: Emulator)
    requires MeshReady(s, e)
    ensures |MeshFloats(a, s, e)| == VertexCount(e) * Stride(a)
  {
    GridLength(Cells(a, s, e), e.rows, e.columns, CellSize(a), e.rows);
    GridArithmetic(e.rows, e.columns, Stride(a));
  }

  lemma GridArithmetic(rows: nat, columns: nat, stride: nat)
    ensures rows * (columns * (VerticesPerCell * stride)) == (columns * rows * VerticesPerCell) * stride
  {
  }

  /** Later cells of a row only append: its first m cells are a prefix of its
      first n. */
  lemma {:induction false} RowPrefix(cells: (int, int) -> seq<real>, row: nat, m: nat, n: nat)
    requires m <= n
    ensures RowOf(cells, row, m) <= RowOf(cells, row, n)
  {
    if m < n {
      RowPrefix(cells, row, m, n - 1);
      PrefixOfAppend(RowOf(cells, row, m), RowOf(cells, row, n - 1), cells(row, n - 1));
    }
  }

  /** Later rows only append: the first m rows are a prefix of the first n. */
  lemma {:induction false} GridPrefix(cells: (int, int) -> seq<real>, columns: nat, m: nat, n: nat)
    requires m <= n
    ensures GridOf(cells, columns, m) <= GridOf(cells, columns, n)
  {
    if m < n {
      GridPrefix(cells, columns, m, n - 1);
      PrefixOfAppend(GridOf(cells, columns, m), GridOf(cells, columns, n - 1), RowOf(cells, n - 1, columns));
    }
  }

  lemma PrefixOfAppend(p: seq<real>, prev: seq<real>, last: seq<real>)
    requires p <= prev
    ensures p <= prev + last
  {
    assert (prev + last)[..|prev|] == prev;
  }

  /** whole holds block at offset start. */
  predicate BlockAt(whole: seq<real>, start: int, block: seq<real>) {
    0 <= start && start + |block| <= |whole| && whole[start .. start + |block|] == block
  }

  /** In the row-major grid of a rows by columns screen whose cells all have
      k floats, cell (row, col) holds floats [(row * columns + col) * k, ... + k). */
  lemma CellInGrid(cells: (int, int) -> seq<real>, rows: nat, columns: nat, k: nat, row: nat, col: nat)
    requires UniformCells(cells, rows, columns, k) && row < rows && col < columns
    ensures BlockAt(GridOf(cells, columns, rows), (row * columns + col) * k, cells(row, col))
  {
    var before, line, cell := GridOf(cells, columns, row), RowOf(cells, row, col), cells(row, col);
    var fullLine, whole := RowOf(cells, row, columns), GridOf(cells, columns, rows);
    GridPrefix(cells, columns, row + 1, rows);
    assert GridOf(cells, columns, row + 1) == before + fullLine;
    RowPrefix(cells, row, col + 1, columns);
    assert RowOf(cells, row, col + 1) == line + cell;
    PrefixChain(before, line, cell, fullLine, whole);
    BlockAfter(before + line, cell, whole);
    GridLength(cells, rows, columns, k, row);
    RowLength(cells, rows, columns, k, row, col);
    SlotArithmetic(row, col, columns, k);
    assert (row * columns + col) * k == |before + line|;
  }

  lemma SlotArithmetic(row: nat, col: nat, columns: nat, k: nat)
    ensures (row * columns + col) * k == row * (columns * k) + col * k
  {
  }

  /** Cell (row, col) occupies vertex slots [VertexSlot, VertexSlot + 6) of
      every buffer (its floats have CellSize = 6 * Stride), holding exactly
      that cell's floats. */
  lemma CellAtSlot(a: Attribute, s: Surface, e: Emulator, row: nat, col: nat)
    requires MeshReady(s, e) && row < e.rows && col < e.columns
    ensures BlockAt(MeshFloats(a, s, e), VertexSlot(row, col, e.columns) * Stride(a), CellFloats(a, s, e, row, col))
  {
    var cells := Cells(a, s, e);
    CellInGrid(cells, e.rows, e.columns, CellSize(a), row, col);
    assert cells(row, col) == CellFloats(a, s, e, row, col);
    SlotTimesStride(row, col, e.columns, Stride(a));
  }

  lemma SlotTimesStride(row: nat, col: nat, columns: nat, stride: nat)
    ensures VertexSlot(row, col, columns) * stride == (row * columns + col) * (VerticesPerCell * stride)
  {
  }

  /** A cell that starts a row which starts the rest of whole comes right
      after the rows before it and the cells before it. */
  lemma PrefixChain(rows: seq<real>, line: seq<real>, cell: seq<real>, fullLine: seq<real>, whole: seq<real>)
    requires rows + fullLine <= whole && line + cell <= fullLine
    ensures (rows + line) + cell <= whole
  {
    assert (rows + line) + cell == (rows + fullLine)[..|rows| + |line| + |cell|];
  }

  /** What follows a prefix `before` of whole, for |cell| floats, is cell. */
  lemma BlockAfter(before: seq<real>, cell: seq<real>, whole: seq<real>)
    requires before + cell <= whole
    ensures |before| + |cell| <= |whole|
    ensures whole[|before| .. |before| + |cell|] == cell
  {
    assert whole[..|before| + |cell|] == before + cell;
    assert whole[|before| .. |before| + |cell|] == whole[..|before| + |cell|][|before|..];
  }

  /** What the buffer of attribute a holds once the mesh builder has emitted
      rows 0 .. row - 1 and cells (row, 0) .. (row, col - 1). */
  function PartialMesh(a: Attribute, s: Surface, e: Emulator, row: nat, col: nat): seq<real>
    requires MeshReady(s, e) && row <= e.rows
  {
    GridOf(Cells(a, s, e), e.columns, row) + RowOf(Cells(a, s, e), row, col)
  }

  /** Emitting cell (row, col) appends exactly that cell's floats. */
  lemma PartialMeshStep(a: Attribute, s: Surface, e: Emulator, row: nat, col: nat)
    requires MeshReady(s, e) && row < e.rows && col < e.columns
    ensures PartialMesh(a, s, e, row, col + 1) == PartialMesh(a, s, e, row, col) + CellFloats(a, s, e, row, col)
  {
    var cells := Cells(a, s, e);
    assert cells(row, col) == CellFloats(a, s, e, row, col);
    assert RowOf(cells, row, col + 1) == RowOf(cells, row, col) + cells(row, col);
  }

  /** A finished row is where the next row starts, and after the last row the
      whole mesh has been emitted. */
  lemma PartialMeshRowDone(a: Attribute, s: Surface, e: Emulator, row: nat)
    requires MeshReady(s, e) && row < e.rows
    ensures PartialMesh(a, s, e, row, e.columns) == PartialMesh(a, s, e, row + 1, 0)
    ensures row + 1 == e.rows ==> PartialMesh(a, s, e, row + 1, 0) == MeshFloats(a, s, e)
  {
    var cells := Cells(a, s, e);
    assert GridOf(cells, e.columns, row + 1) == GridOf(cells, e.columns, row) + RowOf(cells, row, e.columns);
    assert RowOf(cells, row + 1, 0) == [];
  }

  /** Everything emitted so far is a prefix of the mesh, so the next cell
      still fits in a buffer sized for the whole mesh. */
  lemma PartialMeshFits(a: Attribute, s: Surface, e: Emulator, row: nat, col: nat)
    requires MeshReady(s, e) && row < e.rows && col < e.columns
    ensures PartialMesh(a, s, e, row, col + 1) <= MeshFloats(a, s, e)
    ensures |PartialMesh(a, s, e, row, col)| + CellSize(a) <= VertexCount(e) * Stride(a)
  {
    var cells := Cells(a, s, e);
    GridPrefix(cells, e.columns, row + 1, e.rows);
    RowPrefix(cells, row, col + 1, e.columns);
    PrefixChain(GridOf(cells, e.columns, row), RowOf(cells, row, col + 1), [],
                RowOf(cells, row, e.columns), MeshFloats(a, s, e));
    assert RowOf(cells, row, col + 1) + [] == RowOf(cells, row, col + 1);
    PartialMeshStep(a, s, e, row, col);
    MeshHoldsVertexCount(a, s, e);
  }

  /** Distinct cells occupy disjoint slot ranges, in row-major order. */
  lemma SlotsRowMajor(row: nat, col: nat, row': nat, col': nat, columns: nat)
    requires col < columns && col' < columns
    requires row < row' || (row == row' && col < col')
    ensures VertexSlot(row, col, columns) + VerticesPerCell <= VertexSlot(row', col', columns)
  {
    if row < row' {
      assert row' * columns - row * columns == (row' - row) * columns;
      MulAtLeast(row' - row, columns);
    }
  }

  // ---------------------------------------------------------------------------
  // Buffer sizing

  /** The capacity, in floats, of a buffer after sizing for `need` floats:
      a missing or too small buffer is replaced by one of exactly `need`,
      any other is kept. */
  function Capacity(current: Option<nat>, need: nat): (c: nat)
    ensures c >= need
    ensures current.Some? ==> c >= current.value
    ensures current.Some? && current.value >= need ==> c == current.value
    ensures current.None? || current.value < need ==> c == need
  {
    if current.None? || current.value < need then need else current.value
  }
}
