/**
  The terminal emulator as the view and the GL renderer see it: an abstract,
  read-only record. Its internals (the scrollback buffer, row mapping and style
  decoding) are not part of this model; the record holds what they deliver.
 */
module Terminal {

  datatype Option<T> = None | Some(value: T)

  /** A Java `char`: one UTF-16 code unit, surrogates included. */
  newtype JChar = x: int | 0 <= x < 0x1_0000

  /** The range of a Java `int`. */
  predicate IsInt32(x: int) {
    -0x8000_0000 <= x < 0x8000_0000
  }

  /** One screen cell: the code unit stored in the row's text, and the palette
      indices the style decodes to. */
  datatype Cell = Cell(code: JChar, fore: nat, back: nat)

  datatype Emulator = Emulator(
    historyRows: nat,          // rows of scrollback currently retained
    scrollCounter: int,        // rows scrolled since the counter was last cleared
    autoScrollDisabled: bool,
    mouseTrackingActive: bool,
    columns: nat,
    rows: nat,
    lines: seq<seq<Cell>>,     // visible rows 0 .. rows-1, already mapped to buffer rows
    palette: seq<int>)         // current ARGB colours, one Java int each

  /** What the mesh builder needs of the screen: one line per visible row, each
      at least `columns` cells wide, every foreground index inside the palette
      and every palette entry a Java int. */
  predicate ScreenReadable(e: Emulator) {
    && |e.lines| == e.rows
    && (forall r :: 0 <= r < |e.lines| ==> |e.lines[r]| >= e.columns)
    && (forall r, c :: 0 <= r < |e.lines| && 0 <= c < e.columns && c < |e.lines[r]| ==>
          e.lines[r][c].fore < |e.palette|)
    && (forall i :: 0 <= i < |e.palette| ==> IsInt32(e.palette[i]))
  }
}
