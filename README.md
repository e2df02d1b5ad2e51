# Terminal view redraw scheduler and GL mesh builder

A Dafny model of two pieces of the Termux terminal view.

**The redraw scheduler and viewport of `TerminalView`.** These are the view's three mutable fields:
- the top row of the viewport (`mTopRow`, 0 is the live screen, negative rows are scrollback);
- the dirty flag of the recorded screen (`mBufferDirty`);
- the flag saying a frame callback is posted to the display-refresh queue (`mIsFrameScheduled`).

Eight events drive them: terminal output (`onScreenUpdated`), the frame callback (`doFrame`), the user scrolling (`doScroll`), a layout change (`updateSize`), attaching a session, starting or stopping text selection, and detaching from the window.

**The mesh builder of `TerminalRendererGLES`.** For every screen cell, in row-major order, it writes six vertices into three float buffers:
- positions of two triangles over the cell;
- texture coordinates into a one-row atlas of the 95 printable ASCII glyphs;
- the cell's foreground colour.

It grows a buffer only when that buffer is too small. The frame then draws `columns * rows * 6` vertices.

Modules:
- `Terminal` (terminal.dfy): the emulator as the view and renderer read it. This is an abstract record with:
  - the number of history rows;
  - the scroll counter;
  - the auto-scroll and mouse-tracking modes;
  - the grid size;
  - the visible lines of cells, each a UTF-16 code unit and palette indices;
  - the palette of ARGB Java ints.
- `ViewModel` (view_model.dfy): the view's state as a value. It has one function per event, an event-sequence semantics, and the lemmas: coalescing of frame callbacks, the scroll and shift rules, and the detach finding below.
- `TerminalViewClass` (terminal_view.dfy): the class `TerminalView`. Its methods update its fields step by step as the Java does, and each is proved to reach the state the matching `ViewModel` function gives. Detaching comes twice: `OnDetachedFromWindow` as written, and `OnDetachedFromWindowCancelling` with the correction described under Findings. Posting and removing the frame callback, recording the render node, `invalidate()` and mouse-wheel codes are ghost counters and logs.
- `GlyphAtlas` (glyph_atlas.dfy): the atlas layout of `createFontTexture` and the texture coordinates of a glyph.
- `Mesh` (mesh.dfy): the floats each buffer must hold, as functions. This covers cell quads in device coordinates, texture coordinates, ARGB unpacking, the row-major layout and the slot of each cell.
- `RendererGLESClass` (renderer_gles.dfy): the class `RendererGLES`. A Java `FloatBuffer` is an `array<real>` plus a write position. `generateMesh` reallocates and fills the arrays with nested loops, proved to leave exactly the `Mesh` floats. `onDrawFrame` returns the vertex count it draws.

## Model

Paths below are relative to the repository root. `TerminalView.java` is `terminal-view/src/main/java/com/termux/view/TerminalView.java` and `TerminalRendererGLES.java` is its sibling.

| member | source | states |
|---|---|---|
| ViewModel.Initial | terminal-view/src/main/java/com/termux/view/TerminalView.java:61-62 | A new view starts dirty, with no frame scheduled, nothing posted and the top row at the live screen |
| TerminalViewClass.TerminalView.constructor | terminal-view/src/main/java/com/termux/view/TerminalView.java:96-100 | The constructed view is in the initial state and satisfies the at-most-one-pending invariant |
| ViewModel.Clamp | terminal-view/src/main/java/com/termux/view/TerminalView.java:281 | Reference clamp: the result lies in [lo, hi], equals x inside it and the nearer bound outside |
| ViewModel.JavaDiv | terminal-view/src/main/java/com/termux/view/TerminalView.java:240 | Java int division truncates toward zero: the quotient brackets a from below for a >= 0 and from above for a < 0 |
| ViewModel.StopSelection | terminal-view/src/main/java/com/termux/view/TerminalView.java:309 | Afterwards nothing is selected; the buffer becomes dirty and invalidate is called exactly when a selection was active; the controller's row shift and all other fields are kept |
| TerminalViewClass.TerminalView.StopTextSelectionMode | terminal-view/src/main/java/com/termux/view/TerminalView.java:309 | The imperative stop reaches the StopSelection state and keeps the view invariant |
| ViewModel.StartSelection | terminal-view/src/main/java/com/termux/view/TerminalView.java:308 | Without focus nothing changes; with focus but no controller the call fails (null dereference) with the state unchanged; otherwise selecting, dirty and one invalidate, nothing else changed |
| TerminalViewClass.TerminalView.StartTextSelectionMode | terminal-view/src/main/java/com/termux/view/TerminalView.java:308 | The imperative start returns the failure flag and reaches the state StartSelection gives |
| TerminalViewClass.TerminalView.IsSelectingText | terminal-view/src/main/java/com/termux/view/TerminalView.java:307 | Text is being selected exactly when a controller is present and active |
| TerminalViewClass.TerminalView.DecrementYTextSelectionCursors | terminal-view/src/main/java/com/termux/view/TerminalView.java:310 | A present controller's row shift grows by the given rows; a missing one is left alone |
| ViewModel.FollowOutput | terminal-view/src/main/java/com/termux/view/TerminalView.java:166-170 | Shift rule. When neither selecting nor auto-scroll disabled, nothing changes. Within the history, the top row and selection move up by the scroll counter and skipScrolling becomes true. Beyond it the selection stops; with auto-scroll disabled the top row pins to the oldest history row |
| TerminalViewClass.TerminalView.FollowOutput | terminal-view/src/main/java/com/termux/view/TerminalView.java:166-170 | The imperative shift rule reaches the state and flag ViewModel.FollowOutput gives |
| ViewModel.MarkDirtyAndSchedule | terminal-view/src/main/java/com/termux/view/TerminalView.java:172-178 | The scroll counter is cleared and the buffer dirty. A frame is scheduled, and a callback is posted only when none was scheduled |
| TerminalViewClass.TerminalView.MarkDirtyAndSchedule | terminal-view/src/main/java/com/termux/view/TerminalView.java:172-178 | The imperative tail of onScreenUpdated reaches the MarkDirtyAndSchedule state |
| ViewModel.OnScreenUpdated | terminal-view/src/main/java/com/termux/view/TerminalView.java:162-180 | Without an emulator the state is unchanged. With one: dirty and scheduled, scroll counter cleared, at most one new callback, no recording, session and render node untouched |
| TerminalViewClass.TerminalView.OnScreenUpdated | terminal-view/src/main/java/com/termux/view/TerminalView.java:162-180 | The imperative method (clamp, shift rule, snap, schedule) reaches the OnScreenUpdated state and keeps the invariant |
| TerminalViewClass.TerminalView.OnScreenUpdatedSteps | terminal-view/src/main/java/com/termux/view/TerminalView.java:164-178 | The clamp, shift, snap and schedule steps compose to OnScreenUpdated |
| ViewModel.OnScreenUpdatedKeepsTopInHistory | terminal-view/src/main/java/com/termux/view/TerminalView.java:164-171 | Starting at or above the live screen with a non-negative scroll counter, the top row ends in [-history, 0] |
| ViewModel.OnScreenUpdatedShiftRule | terminal-view/src/main/java/com/termux/view/TerminalView.java:165-171 | While selecting or with auto-scroll off: within the history the top row drops by exactly the scroll counter and the selection shifts by the same; beyond it selection stops and, with auto-scroll off, the top row becomes -history |
| ViewModel.OnScreenUpdatedSnapsToLive | terminal-view/src/main/java/com/termux/view/TerminalView.java:171 | Not selecting and auto-scroll on: the top row snaps to 0 unless skipScrolling, and the selection is kept |
| ViewModel.RecordRenderNode | terminal-view/src/main/java/com/termux/view/TerminalView.java:182-194 | The dirty flag is cleared exactly when a recording is made (emulator and render node present); otherwise the state is unchanged |
| TerminalViewClass.TerminalView.RecordRenderNode | terminal-view/src/main/java/com/termux/view/TerminalView.java:182-194 | The imperative method reaches the RecordRenderNode state |
| ViewModel.DoFrame | terminal-view/src/main/java/com/termux/view/TerminalView.java:63-72 | A tick always clears the scheduled flag and consumes its callback. It records and invalidates only when dirty; a clean tick changes nothing else. Viewport, emulator and selection are kept |
| TerminalViewClass.TerminalView.DoFrame | terminal-view/src/main/java/com/termux/view/TerminalView.java:63-72 | The imperative frame callback reaches the DoFrame state |
| ViewModel.CleanTickDoesNoWork | terminal-view/src/main/java/com/termux/view/TerminalView.java:66-70 | A tick with a clean buffer records and invalidates nothing |
| ViewModel.Detach | terminal-view/src/main/java/com/termux/view/TerminalView.java:318-323 | As written: the posted callback is removed but the scheduled flag keeps its value |
| TerminalViewClass.TerminalView.OnDetachedFromWindow | terminal-view/src/main/java/com/termux/view/TerminalView.java:318-323 | As written: the callback is removed and the scheduled flag keeps its value, reaching the Detach state |
| TerminalViewClass.TerminalView.OnDetachedFromWindowCancelling | terminal-view/src/main/java/com/termux/view/TerminalView.java:318-323 | Corrected detach (see Findings): the callback is removed and the scheduled flag cleared, reaching the DetachCancelling state |
| ViewModel.DetachCancelling | terminal-view/src/main/java/com/termux/view/TerminalView.java:322 | Corrected detach: nothing posted and nothing believed scheduled |
| ViewModel.ScrollSteps | terminal-view/src/main/java/com/termux/view/TerminalView.java:279-282 | After at least one step the top row lies in [-history, 0]; zero steps leave it |
| ViewModel.ScrollStepsClamp | terminal-view/src/main/java/com/termux/view/TerminalView.java:279-282 | From inside the history, n one-row clamped steps end where one clamped jump of n rows does |
| ViewModel.DoScroll | terminal-view/src/main/java/com/termux/view/TerminalView.java:277-283 | Zero rows changes nothing; scrolling never posts, records or changes the emulator or selection |
| ViewModel.DoScrollClamps | terminal-view/src/main/java/com/termux/view/TerminalView.java:277-283 | Without mouse tracking the top row ends at clamp(top + rowsDown, -history, 0), dirty iff it stepped. With tracking the viewport stays and one wheel code per row, in the scroll direction, is sent |
| TerminalViewClass.TerminalView.SendWheel | terminal-view/src/main/java/com/termux/view/TerminalView.java:280 | The loop appends exactly `amount` wheel codes of the scroll direction |
| TerminalViewClass.TerminalView.StepViewport | terminal-view/src/main/java/com/termux/view/TerminalView.java:281 | The loop leaves the top row at ScrollSteps, dirty iff it ran, with one invalidate per step |
| TerminalViewClass.TerminalView.DoScroll | terminal-view/src/main/java/com/termux/view/TerminalView.java:277-283 | The imperative scroll reaches the DoScroll state, and without mouse tracking from inside the history ends at the clamped target |
| ViewModel.GridSize | terminal-view/src/main/java/com/termux/view/TerminalView.java:239-240 | Columns and rows are at least 4. Above 4, columns are the whole font widths that fit (one more would not) and rows the whole line spacings below the first ascent; at 4 no fifth one fits |
| ViewModel.ColumnsThatFit | terminal-view/src/main/java/com/termux/view/TerminalView.java:239 | The truncated width / font width is the count of whole cells that fit |
| ViewModel.ColumnsAtLeastFour | terminal-view/src/main/java/com/termux/view/TerminalView.java:239 | The column count max(4, truncated width / font width): above 4 exactly the whole cells that fit, at 4 no fifth cell fits |
| ViewModel.RowsAtLeastFour | terminal-view/src/main/java/com/termux/view/TerminalView.java:240 | The row count max(4, Java quotient): above 4 exactly the whole lines that fit below the first ascent, at 4 no fifth line fits, also when the height is below the ascent |
| ViewModel.UpdateSize | terminal-view/src/main/java/com/termux/view/TerminalView.java:236-250 | Zero size or no session: no change. On a changed or missing grid the view takes the session's emulator resized to the computed grid (both >= 4), top row 0, dirty, one invalidate, and every other field (selection, scheduler, recordings, session) kept. Same grid: no change |
| ViewModel.UpdateSizeIdempotent | terminal-view/src/main/java/com/termux/view/TerminalView.java:241 | A second layout at the same size changes nothing, whatever the session's emulator is by then |
| TerminalViewClass.TerminalView.UpdateSize | terminal-view/src/main/java/com/termux/view/TerminalView.java:236-250 | The imperative method reaches the UpdateSize state |
| ViewModel.AttachSession | terminal-view/src/main/java/com/termux/view/TerminalView.java:252 | The session is always set. With a nonzero size the view holds the new session's emulator resized to the computed grid, top row 0, dirty, one invalidate, everything else kept; otherwise the emulator is cleared and nothing else changes |
| TerminalViewClass.TerminalView.AttachSession | terminal-view/src/main/java/com/termux/view/TerminalView.java:252 | The imperative method reaches the AttachSession state |
| ViewModel.StepKeepsAtMostOnePending | terminal-view/src/main/java/com/termux/view/TerminalView.java:175-178 | Every event keeps: at most one callback waiting, and one only while scheduled |
| ViewModel.RunKeepsAtMostOnePending | terminal-view/src/main/java/com/termux/view/TerminalView.java:175-178 | Coalescing over any event sequence, including output that changes the emulator between notifications: never more than one callback waiting |
| ViewModel.BurstPostsOneCallback | terminal-view/src/main/java/com/termux/view/TerminalView.java:174-178 | k >= 1 consecutive screen updates, each after output that may change the emulator's history, scroll counter and modes, post exactly one callback if none was scheduled and none otherwise, and record nothing |
| ViewModel.BurstThenTickRecordsOnce | terminal-view/src/main/java/com/termux/view/TerminalView.java:65-71 | A burst followed by its tick records once and leaves the view clean and unscheduled |
| ViewModel.DetachWhileScheduledStalls | terminal-view/src/main/java/com/termux/view/TerminalView.java:318-323 | As written, detaching while scheduled stalls the view: after any events it still believes a frame is scheduled, none is waiting, nothing is recorded |
| ViewModel.StalledStaysStalled | terminal-view/src/main/java/com/termux/view/TerminalView.java:175 | A stalled view stays stalled and records nothing under any events |
| ViewModel.RunCancellingKeepsCoherent | terminal-view/src/main/java/com/termux/view/TerminalView.java:175-178 | With the corrected detach, the scheduled flag stays true exactly when a callback is waiting, over any event sequence |
| ViewModel.CancellingDetachResumes | terminal-view/src/main/java/com/termux/view/TerminalView.java:175-178 | With the corrected detach, the next output posts a callback whose tick records the screen |
| RendererGLESClass.Ceil | terminal-view/src/main/java/com/termux/view/TerminalRendererGLES.java:71-72 | Math.ceil: the least integer not below x |
| RendererGLESClass.RendererGLES.constructor | terminal-view/src/main/java/com/termux/view/TerminalRendererGLES.java:63-76 | Line spacing is the rounded-up font spacing, line spacing and ascent the sum of both rounded up, so their difference is the atlas baseline AtlasBaseline; no emulator or buffers |
| RendererGLESClass.RendererGLES.SetEmulator | terminal-view/src/main/java/com/termux/view/TerminalRendererGLES.java:78-80 | The emulator is replaced |
| RendererGLESClass.RendererGLES.OnSurfaceChanged | terminal-view/src/main/java/com/termux/view/TerminalRendererGLES.java:225-230 | The surface size is recorded |
| GlyphAtlas.AtlasWidth | terminal-view/src/main/java/com/termux/view/TerminalRendererGLES.java:94 | The atlas width is 95 font widths truncated to an int |
| GlyphAtlas.GlyphsTileStrip | terminal-view/src/main/java/com/termux/view/TerminalRendererGLES.java:106-108 | Glyph i is drawn at (i - 32) font widths: the first at 0, each where the previous ends, the last ending at 95 font widths |
| GlyphAtlas.AtlasBaseline | terminal-view/src/main/java/com/termux/view/TerminalRendererGLES.java:108 | As-written baseline of the glyphs in the atlas (see Findings) |
| GlyphAtlas.AtlasBaselineAboveBitmap | terminal-view/src/main/java/com/termux/view/TerminalRendererGLES.java:108 | As written the baseline equals the (negative) ascent, so a glyph's part above the baseline lies above the bitmap's first row |
| GlyphAtlas.AtlasBaselineCorrected | terminal-view/src/main/java/com/termux/view/TerminalRendererGLES.java:108 | Corrected baseline: the ascent measured down from the bitmap's top |
| GlyphAtlas.AtlasBaselineCorrectedInBitmap | terminal-view/src/main/java/com/termux/view/TerminalRendererGLES.java:95-108 | Corrected, the part above the baseline starts at row 0 and the baseline lies inside the one-line-high bitmap |
| GlyphAtlas.GlyphCode | terminal-view/src/main/java/com/termux/view/TerminalRendererGLES.java:148-149 | The code unit is kept exactly when it is not NUL; NUL becomes a space, which is in the strip |
| Mesh.NulDrawsAsSpace | terminal-view/src/main/java/com/termux/view/TerminalRendererGLES.java:148-171 | A NUL cell gets exactly a space's texture coordinates, u in {0, 1/95} |
| GlyphAtlas.TexCoordsNormalized | terminal-view/src/main/java/com/termux/view/TerminalRendererGLES.java:169-171 | The font width cancels: u1 = (c - 32) / 95 and u2 = (c - 31) / 95; u1 is the glyph's left edge divided by 95 font widths (not by the bitmap width, see SampledEdgesDrift) |
| GlyphAtlas.SampledEdgesDrift | terminal-view/src/main/java/com/termux/view/TerminalRendererGLES.java:94-171 | Against the bitmap of AtlasWidth = truncated 95 font widths, both sampled edges of a strip glyph lie left of the edges it was drawn at by at least 0 and less than one pixel |
| GlyphAtlas.GlyphInStrip | terminal-view/src/main/java/com/termux/view/TerminalRendererGLES.java:169-171 | A glyph of the strip samples its own 1/95 slice inside [0, 1], sharing its right edge with the next glyph's left edge |
| GlyphAtlas.GlyphOutsideStrip | terminal-view/src/main/java/com/termux/view/TerminalRendererGLES.java:148-171 | Code units other than NUL outside 32..126 are not substituted: they sample outside [0, 1] |
| Mesh.CellEdges | terminal-view/src/main/java/com/termux/view/TerminalRendererGLES.java:156-159 | x1, x2, y1, y2 are the device coordinates of the cell's pixel rectangle; adjacent cells share edges and each cell has positive extent |
| Mesh.NdcInside | terminal-view/src/main/java/com/termux/view/TerminalRendererGLES.java:156-159 | Pixel offsets inside the surface map into [-1, 1] |
| Mesh.GridInsideSurface | terminal-view/src/main/java/com/termux/view/TerminalRendererGLES.java:156-159 | If the grid fits the surface, every cell's quad lies inside the visible square |
| Mesh.CellPositions | terminal-view/src/main/java/com/termux/view/TerminalRendererGLES.java:161-167 | A cell has 6 vertices of 3 floats |
| Mesh.QuadCoversCell | terminal-view/src/main/java/com/termux/view/TerminalRendererGLES.java:161-167 | Vertex 3 repeats 2 and 5 repeats 0; the four corners are used, z = 0, and both triangles wind the same way with half the cell's positive area each |
| Mesh.CellTexCoords | terminal-view/src/main/java/com/termux/view/TerminalRendererGLES.java:169-180 | A cell has 6 texture coordinates of 2 floats |
| Mesh.TexCoordsFollowCorners | terminal-view/src/main/java/com/termux/view/TerminalRendererGLES.java:161-180 | Each vertex takes u1 iff on the cell's left edge, u2 iff on its right, v = 0 iff on its bottom edge, v = 1 iff on its top; in the strip u1 = (c - 32) / 95 |
| Mesh.Red | terminal-view/src/main/java/com/termux/view/TerminalRendererGLES.java:182 | `(color >> 16) & 0xFF` is a byte |
| Mesh.Green | terminal-view/src/main/java/com/termux/view/TerminalRendererGLES.java:183 | `(color >> 8) & 0xFF` is a byte |
| Mesh.Blue | terminal-view/src/main/java/com/termux/view/TerminalRendererGLES.java:184 | `color & 0xFF` is a byte |
| Mesh.Argb | terminal-view/src/main/java/com/termux/view/TerminalRendererGLES.java:154 | Reference packing of four bytes into a Java int, which is in int range |
| Mesh.UnpackArgb | terminal-view/src/main/java/com/termux/view/TerminalRendererGLES.java:182-184 | Unpacking a packed colour gives back its alpha, red, green and blue bytes |
| Mesh.PackUnpackedArgb | terminal-view/src/main/java/com/termux/view/TerminalRendererGLES.java:182-184 | Every Java int, negative ones included, is the packing of its unpacked bytes |
| Mesh.Level | terminal-view/src/main/java/com/termux/view/TerminalRendererGLES.java:182-184 | A byte / 255 is in [0, 1], 0 exactly for 0 and 1 exactly for 255 |
| Mesh.VertexColourOfArgb | terminal-view/src/main/java/com/termux/view/TerminalRendererGLES.java:182-190 | A palette entry packed from bytes a, r, g, b draws on each vertex as r / 255, g / 255, b / 255 and alpha 1, whatever a is |
| Mesh.Repeat | terminal-view/src/main/java/com/termux/view/TerminalRendererGLES.java:186 | n copies take n times the length |
| Mesh.RepeatCopy | terminal-view/src/main/java/com/termux/view/TerminalRendererGLES.java:186-191 | Copy k of a repetition is the repeated sequence |
| Mesh.CellColours | terminal-view/src/main/java/com/termux/view/TerminalRendererGLES.java:186-191 | A cell has 6 colours of 4 floats |
| Mesh.CellColoursUniform | terminal-view/src/main/java/com/termux/view/TerminalRendererGLES.java:151-191 | All six vertices of a cell carry the palette colour of its foreground index |
| Mesh.CellFloats | terminal-view/src/main/java/com/termux/view/TerminalRendererGLES.java:148-191 | A cell's floats in each buffer are 6 vertices of that buffer's stride |
| Mesh.Cells | terminal-view/src/main/java/com/termux/view/TerminalRendererGLES.java:145-147 | Every cell of the screen has the same number of floats in a given buffer |
| Mesh.RowLength | terminal-view/src/main/java/com/termux/view/TerminalRendererGLES.java:147 | A row's first n cells take n cell sizes |
| Mesh.GridLength | terminal-view/src/main/java/com/termux/view/TerminalRendererGLES.java:145 | The first m rows take m row sizes |
| Mesh.MeshHoldsVertexCount | terminal-view/src/main/java/com/termux/view/TerminalRendererGLES.java:121-122 | Each buffer's mesh is exactly columns * rows * 6 vertices of its stride |
| Mesh.RowPrefix | terminal-view/src/main/java/com/termux/view/TerminalRendererGLES.java:147 | Later cells of a row only append |
| Mesh.GridPrefix | terminal-view/src/main/java/com/termux/view/TerminalRendererGLES.java:145 | Later rows only append |
| Mesh.CellInGrid | terminal-view/src/main/java/com/termux/view/TerminalRendererGLES.java:145-147 | In a row-major grid of uniform cells, cell (row, col) holds the floats starting at (row * columns + col) * cell size |
| Mesh.CellAtSlot | terminal-view/src/main/java/com/termux/view/TerminalRendererGLES.java:145-191 | Cell (row, col) occupies vertex slots [(row * columns + col) * 6, + 6) of every buffer, holding exactly that cell's floats |
| Mesh.SlotsRowMajor | terminal-view/src/main/java/com/termux/view/TerminalRendererGLES.java:145-147 | Cells earlier in row-major order occupy slot ranges entirely before later ones |
| Mesh.PartialMeshStep | terminal-view/src/main/java/com/termux/view/TerminalRendererGLES.java:147-191 | Emitting cell (row, col) appends exactly its floats |
| Mesh.PartialMeshRowDone | terminal-view/src/main/java/com/termux/view/TerminalRendererGLES.java:145-193 | A finished row is where the next starts; after the last row the whole mesh is emitted |
| Mesh.PartialMeshFits | terminal-view/src/main/java/com/termux/view/TerminalRendererGLES.java:121-147 | What was emitted is a prefix of the mesh, so the next cell fits in a buffer sized for the mesh |
| Mesh.Capacity | terminal-view/src/main/java/com/termux/view/TerminalRendererGLES.java:124-135 | After sizing, the capacity is at least the need and never below the old capacity; a large enough buffer is kept, otherwise it is exactly the need |
| RendererGLESClass.Put | terminal-view/src/main/java/com/termux/view/TerminalRendererGLES.java:161-167 | Consecutive puts write xs at the position, advance it by \|xs\| and leave the rest of the buffer alone |
| RendererGLESClass.EmitPositions | terminal-view/src/main/java/com/termux/view/TerminalRendererGLES.java:156-167 | The inline position computation writes exactly the cell's quad after what was there |
| RendererGLESClass.EmitTexCoords | terminal-view/src/main/java/com/termux/view/TerminalRendererGLES.java:148-180 | The inline texture computation writes exactly the cell's glyph coordinates, with NUL drawn as space |
| RendererGLESClass.EmitColours | terminal-view/src/main/java/com/termux/view/TerminalRendererGLES.java:151-191 | The six-pass colour loop writes the cell's foreground colour six times |
| RendererGLESClass.EmitsCell | terminal-view/src/main/java/com/termux/view/TerminalRendererGLES.java:147-191 | Writing a cell at the position extends what was emitted by that cell and keeps the rest |
| RendererGLESClass.EmitNext | terminal-view/src/main/java/com/termux/view/TerminalRendererGLES.java:147-191 | One cell's puts take a buffer holding the mesh up to (row, col) to one holding it up to (row, col + 1) |
| RendererGLESClass.Ensure | terminal-view/src/main/java/com/termux/view/TerminalRendererGLES.java:124-135 | A buffer check keeps a large enough buffer, otherwise allocates a new one of exactly the need |
| RendererGLESClass.RendererGLES.Reserve | terminal-view/src/main/java/com/termux/view/TerminalRendererGLES.java:118-135 | Each buffer's capacity becomes Capacity(old, 3n / 2n / 4n) for n = columns * rows * 6, reused or fresh |
| RendererGLESClass.RendererGLES.EmitCell | terminal-view/src/main/java/com/termux/view/TerminalRendererGLES.java:147-191 | The inner loop body advances all three buffers by one cell |
| RendererGLESClass.RendererGLES.Fill | terminal-view/src/main/java/com/termux/view/TerminalRendererGLES.java:138-197 | After the nested loops each buffer starts with the whole mesh, keeps its old contents beyond it, and its position is 0 |
| RendererGLESClass.RendererGLES.GenerateMesh | terminal-view/src/main/java/com/termux/view/TerminalRendererGLES.java:115-198 | Without an emulator nothing changes. Otherwise buffers are grown only when too small (capacity never shrinks), hold exactly the mesh from the start, keep a reused buffer's tail, and are rewound |
| RendererGLESClass.RendererGLES.OnDrawFrame | terminal-view/src/main/java/com/termux/view/TerminalRendererGLES.java:232-265 | No draw without an emulator. Otherwise it draws columns * rows * 6 vertices, and the first that many vertices of each buffer are exactly the mesh |

## Left out

- GL and platform calls are not modelled: shader compilation, program linking, texture upload, attribute binding, `glDrawArrays`, Choreographer, RenderNode, Canvas and `invalidate()`. Posting and removing the frame callback, recording and `invalidate()` are ghost counters. The draw becomes the vertex count `OnDrawFrame` returns.
- `createFontTexture` is modelled only by its layout: atlas width, glyph left edges and baseline. The rasterised bitmap is not.
- Java `float` rounding: positions, texture coordinates and colour levels are `real`. `updateSize`'s `w / fontWidth` is a real quotient truncated toward zero.
- `Mesh.MeshReady` asks for a surface of positive width and height; with a zero size the source's float divisions give infinite coordinates, which are not modelled. It also asks for each foreground index to lie inside the palette and each line to be at least `columns` long; out of range, the source would throw.
- Font metrics from `Paint` (`measureText`, `getFontSpacing`, `ascent`) are constructor parameters.
- `RendererGLESClass.RendererGLES.GenerateMesh`, `RendererGLESClass.RendererGLES.OnDrawFrame`: the renderer's callbacks run on the GL thread, while the emulator is set and changed on other threads with no synchronisation. The model is single-threaded: it assumes the grid does not change between the mesh reading `mColumns`/`mRows` (`TerminalRendererGLES.java:118-119`) and the draw reading them again (`TerminalRendererGLES.java:260`).
- `RendererGLESClass.RendererGLES.Reserve`: `columns * rows * 6 * 3` is computed without 32-bit wrap-around. The model assumes the grid is small enough for the int products not to overflow.
- `RendererGLESClass.RendererGLES.OnDrawFrame`: the draw count `columns * rows * 6` is likewise computed without 32-bit wrap-around.
- The emulator is an abstract record. `TerminalBuffer.externalToInternalRow`, `allocateFullLineIfNecessary` and `TextStyle.decodeForeColor`/`decodeBackColor` are not part of this model; the record holds their results. The background colour index is decoded by the source and not used, so it is not read.
- The text selection controller is an optional value: present or not, active flag and accumulated row shift. Its rendering, its selectors and `show`/`hide` internals are not part of this model. The field is never assigned in `TerminalView.java`, so the constructor takes it as a parameter.
- `ViewModel.DoScroll`: the emulator's mouse-tracking mode is read once rather than on every loop pass. Mouse wheel codes record only direction, not the pointer cell. `getActiveTranscriptRows` is `Emulator.historyRows` and is constant during the call.
- `ViewModel.DoScroll`: Java int arithmetic is not modelled. For `rowsDown == Integer.MIN_VALUE`, `Math.abs` stays negative and the Java loop runs zero times, while the model takes 2^31 steps. Also, `requires rowsDown != 0 ==> v.emulator.Some?` excludes the null dereference at `TerminalView.java:280` when no emulator is attached.
- `ViewModel.OnScreenUpdated`: `-mTopRow + shift` and `mTopRow -= shift` are unbounded integers, without 32-bit wrap-around; a scroll counter near the int range is not modelled.
- `GlyphAtlas.SampledEdgesDrift`: which texel nearest-neighbour sampling then reads is not modelled, only the sub-pixel offset between the drawn and sampled glyph edges.
- `onScreenUpdated`'s `awakenScrollBars` and accessibility content description, `updateSize`'s `scrollTo`, `onEmulatorSet` and render node positioning are platform side effects without state here.
- `onDraw`, gestures, flinging, scaling, autofill, the input connection, cursor-blink stubs, `getColumnAndRow` and the point/cursor conversions are outside this model.
- The session's `updateSize` is a parameter: the emulator the session holds, which the model resizes to the computed grid.

## Findings

| source | as written | input that shows it | evidently intended | confidence | as-written member | corrected member |
|---|---|---|---|---|---|---|
| terminal-view/src/main/java/com/termux/view/TerminalView.java:318-323 | `onDetachedFromWindow` removes the posted frame callback but leaves `mIsFrameScheduled` true | Output arrives (a callback is posted), then the view is detached before the tick, then more output arrives: the scheduled flag is still true, so no callback is ever posted again and the screen is never recorded | Clear `mIsFrameScheduled` together with removing the callback, as `TerminalViewClass.TerminalView.OnDetachedFromWindowCancelling` does | not executed | ViewModel.DetachWhileScheduledStalls | ViewModel.RunCancellingKeepsCoherent |
| terminal-view/src/main/java/com/termux/view/TerminalRendererGLES.java:108 | Glyphs are drawn into the atlas at baseline `mFontLineSpacingAndAscent - mFontLineSpacing`, which is the (negative) ascent | Line spacing 20, ascent -15: baseline -15, so the glyph's part above the baseline covers rows -30 .. -16, above the bitmap | Baseline `mFontLineSpacing - mFontLineSpacingAndAscent` (the ascent measured down from the top), which puts the glyph top at row 0 | not executed | GlyphAtlas.AtlasBaselineAboveBitmap | GlyphAtlas.AtlasBaselineCorrectedInBitmap |
