/**
  The redraw scheduler and viewport state of the terminal view, as values.

  A `View` holds the three fields the view updates (the top row of the
  viewport, the dirty flag and the frame-scheduled flag) together with what
  they interact with: the emulator, the text selection controller and, as
  counters, the platform events the view causes (frame callbacks waiting in the
  display-refresh queue, completed recordings of the render node, calls to
  invalidate, mouse-wheel codes sent to the emulator). One function per event
  gives the state after it; the class in TerminalViewClass runs the same steps
  imperatively and is proved equal to these functions.
 */
module ViewModel {
  import opened Terminal

  datatype Wheel = WheelUp | WheelDown

  /** The text selection controller: whether it is showing, and how many rows
      in all its cursors have been moved up by scrolling output. */
  datatype Selection = Selection(active: bool, rowsMovedUp: int)

  /** Font metrics of the renderer, taken as given constants. */
  datatype Metrics = Metrics(fontWidth: real, lineSpacing: int, lineSpacingAndAscent: int)

  predicate MetricsValid(m: Metrics) {
    m.fontWidth > 0.0 && m.lineSpacing > 0
  }

  datatype View = View(
    emulator: Option<Emulator>,
    hasSession: bool,
    topRow: int,
    bufferDirty: bool,
    frameScheduled: bool,
    selection: Option<Selection>,
    renderNodeReady: bool,      // a render node exists and the platform can record into it
    pending: nat,               // frame callbacks posted and not yet run or removed
    records: nat,               // completed recordings of the render node
    invalidations: nat,         // calls to invalidate()
    wheelEvents: seq<Wheel>)    // mouse-wheel codes sent to the emulator

  /** The state of a newly constructed view. */
  function Initial(selection: Option<Selection>, renderNodeReady: bool): (v: View)
    ensures v.bufferDirty && !v.frameScheduled && v.pending == 0 && v.topRow == 0
  {
    View(None, false, 0, true, false, selection, renderNodeReady, 0, 0, 0, [])
  }

  function Min(a: int, b: int): int { if a <= b then a else b }
  function Max(a: int, b: int): int { if a >= b then a else b }
  function Abs(a: int): nat { if a < 0 then -a else a }

  /** Reference definition: x brought into [lo, hi]. */
  function Clamp(x: int, lo: int, hi: int): (r: int)
    requires lo <= hi
    ensures lo <= r <= hi
    ensures lo <= x <= hi ==> r == x
    ensures x < lo ==> r == lo
    ensures x > hi ==> r == hi
  {
    if x < lo then lo else if x > hi then hi else x
  }

  /** Java's `/` on int: the quotient truncated toward zero. */
  function JavaDiv(a: int, b: int): (q: int)
    requires b > 0
    ensures a >= 0 ==> 0 <= q && q * b <= a < q * b + b
    ensures a < 0 ==> q <= 0 && q * b - b < a <= q * b
  {
    if a >= 0 then
      var q := a / b;
      assert a == q * b + a % b && 0 <= a % b < b;
      q
    else
      var p := (-a) / b;
      assert -a == p * b + (-a) % b && 0 <= (-a) % b < b;
      -p
  }

  // ---------------------------------------------------------------------------
  // Text selection

  predicate IsSelecting(v: View) {
    v.selection.Some? && v.selection.value.active
  }

  function Invalidate(v: View): View {
    v.(invalidations := v.invalidations + 1)
  }

  /** stopTextSelectionMode: hiding an active controller marks the buffer dirty;
      otherwise nothing happens. */
  function StopSelection(v: View): (r: View)
    ensures !IsSelecting(r)
    ensures r.bufferDirty == (v.bufferDirty || IsSelecting(v))
    ensures r.invalidations == v.invalidations + (if IsSelecting(v) then 1 else 0)
    ensures r.selection.Some? == v.selection.Some?
    ensures r.selection.Some? ==> r.selection.value.rowsMovedUp == v.selection.value.rowsMovedUp
    ensures r == v.(selection := r.selection, bufferDirty := r.bufferDirty, invalidations := r.invalidations)
  {
    if IsSelecting(v) then
      Invalidate(v.(selection := Some(v.selection.value.(active := false)), bufferDirty := true))
    else v
  }

  /** startTextSelectionMode: when focus is granted the controller is shown and
      the buffer marked dirty. With no controller, showing it dereferences null:
      the second component is true and the state is the one before the call. */
  function StartSelection(v: View, focusGranted: bool): (r: (View, bool))
    ensures r.1 <==> focusGranted && v.selection.None?
    ensures !focusGranted || r.1 ==> r.0 == v
    ensures focusGranted && !r.1 ==> IsSelecting(r.0) && r.0.bufferDirty
    ensures focusGranted && !r.1 ==>
      r.0 == v.(selection := r.0.selection, bufferDirty := true, invalidations := v.invalidations + 1)
  {
    if !focusGranted then (v, false)
    else if v.selection.None? then (v, true)
    else (Invalidate(v.(selection := Some(v.selection.value.(active := true)), bufferDirty := true)), false)
  }

  /** decrementYTextSelectionCursors: moves the cursors of a present controller. */
  function MoveSelectionUp(v: View, rows: int): View {
    match v.selection
    case None => v
    case Some(s) => v.(selection := Some(s.(rowsMovedUp := s.rowsMovedUp + rows)))
  }

  // ---------------------------------------------------------------------------
  // Frame scheduling

  /** Post the frame callback unless one is already scheduled. */
  function Schedule(v: View): View {
    if v.frameScheduled then v else v.(frameScheduled := true, pending := v.pending + 1)
  }

  /** What the shift rule does while text is selected or auto-scroll is off,
      given a top row already clamped to the history; the boolean is the
      skipScrolling flag afterwards. */
  function FollowOutput(v: View, e: Emulator, skipScrolling: bool): (r: (View, bool))
    requires v.topRow >= -(e.historyRows as int)
    ensures !IsSelecting(v) && !e.autoScrollDisabled ==> r == (v, skipScrolling)
    ensures IsSelecting(v) || e.autoScrollDisabled ==>
      if -v.topRow + e.scrollCounter <= e.historyRows then
        && r.0.topRow == v.topRow - e.scrollCounter && r.1
        && IsSelecting(r.0) == IsSelecting(v)
        && r.0.selection.Some? == v.selection.Some?
        && (r.0.selection.Some? ==>
              r.0.selection.value.rowsMovedUp == v.selection.value.rowsMovedUp + e.scrollCounter)
      else
        && !IsSelecting(r.0)
        && (e.autoScrollDisabled ==> r.0.topRow == -(e.historyRows as int) && r.1)
        && (!e.autoScrollDisabled ==> r.0.topRow == v.topRow && r.1 == skipScrolling)
    ensures r.0 == v.(topRow := r.0.topRow, selection := r.0.selection, bufferDirty := r.0.bufferDirty,
                      invalidations := r.0.invalidations)
  {
    if IsSelecting(v) || e.autoScrollDisabled then
      var shift := e.scrollCounter;
      if -v.topRow + shift > e.historyRows then
        var stopped := if IsSelecting(v) then StopSelection(v) else v;
        if e.autoScrollDisabled then (stopped.(topRow := -(e.historyRows as int)), true)
        else (stopped, skipScrolling)
      else
        (MoveSelectionUp(v.(topRow := v.topRow - shift), shift), true)
    else (v, skipScrolling)
  }

  /** The end of onScreenUpdated: clear the emulator's scroll counter, mark the
      buffer dirty and post the frame callback unless one is scheduled. */
  function MarkDirtyAndSchedule(v: View, e: Emulator): (r: View)
    ensures r.bufferDirty && r.frameScheduled
    ensures r.emulator == Some(e.(scrollCounter := 0))
    ensures r.pending == v.pending + (if v.frameScheduled then 0 else 1)
    ensures r == v.(emulator := r.emulator, bufferDirty := true, frameScheduled := true, pending := r.pending)
  {
    Schedule(v.(emulator := Some(e.(scrollCounter := 0)), bufferDirty := true))
  }

  /** onScreenUpdated: terminal output arrived. */
  function OnScreenUpdated(v: View, skipScrolling: bool): (r: View)
    // without an emulator nothing changes
    ensures v.emulator.None? ==> r == v
    // with one: dirty, scheduled, the scroll counter cleared, at most one post
    ensures v.emulator.Some? ==>
      && r.bufferDirty && r.frameScheduled
      && r.emulator == Some(v.emulator.value.(scrollCounter := 0))
      && r.pending == v.pending + (if v.frameScheduled then 0 else 1)
      && r.records == v.records && r.wheelEvents == v.wheelEvents
      && r.hasSession == v.hasSession && r.renderNodeReady == v.renderNodeReady
  {
    match v.emulator
    case None => v
    case Some(e) =>
      var clamped := v.(topRow := if v.topRow < -(e.historyRows as int) then -(e.historyRows as int) else v.topRow);
      var (followed, skip) := FollowOutput(clamped, e, skipScrolling);
      var snapped := if !skip && followed.topRow != 0 then followed.(topRow := 0) else followed;
      MarkDirtyAndSchedule(snapped, e)
  }

  /** Starting at or above the live screen with a non-negative scroll counter,
      the top row ends inside the history. */
  lemma OnScreenUpdatedKeepsTopInHistory(v: View, skipScrolling: bool)
    requires v.emulator.Some? && v.topRow <= 0 && v.emulator.value.scrollCounter >= 0
    ensures -(v.emulator.value.historyRows as int) <= OnScreenUpdated(v, skipScrolling).topRow <= 0
  {
  }

  /** The shift rule, while selecting or with auto-scroll disabled: within the
      history the view and the selection move up by the scroll counter;
      beyond it the selection is dropped and, with auto-scroll disabled, the
      view pins to the oldest row. */
  lemma OnScreenUpdatedShiftRule(v: View, skipScrolling: bool)
    requires v.emulator.Some? && (IsSelecting(v) || v.emulator.value.autoScrollDisabled)
    ensures var e := v.emulator.value;
      var r := OnScreenUpdated(v, skipScrolling);
      var top := Max(v.topRow, -(e.historyRows as int));
      if -top + e.scrollCounter <= e.historyRows then
        && r.topRow == top - e.scrollCounter
        && IsSelecting(r) == IsSelecting(v)
        && r.selection.Some? == v.selection.Some?
        && (r.selection.Some? ==>
              r.selection.value.rowsMovedUp == v.selection.value.rowsMovedUp + e.scrollCounter)
      else
        && !IsSelecting(r)
        && (e.autoScrollDisabled ==> r.topRow == -(e.historyRows as int))
        && (!e.autoScrollDisabled ==> r.topRow == if skipScrolling then top else 0)
  {
  }

  /** Otherwise the view snaps to the live screen unless asked not to scroll. */
  lemma OnScreenUpdatedSnapsToLive(v: View, skipScrolling: bool)
    requires v.emulator.Some? && !IsSelecting(v) && !v.emulator.value.autoScrollDisabled
    ensures var r := OnScreenUpdated(v, skipScrolling);
      && r.topRow == (if skipScrolling then Max(v.topRow, -(v.emulator.value.historyRows as int)) else 0)
      && r.selection == v.selection
  {
  }

  /** The render node can be recorded: there is an emulator and a node. */
  predicate CanRecord(v: View) {
    v.emulator.Some? && v.renderNodeReady
  }

  /** recordRenderNode: the dirty flag is cleared only when a recording was made. */
  function RecordRenderNode(v: View): (r: View)
    ensures r.bufferDirty == (v.bufferDirty && !CanRecord(v))
    ensures r.records == v.records + (if CanRecord(v) then 1 else 0)
    ensures r == v.(bufferDirty := r.bufferDirty, records := r.records)
  {
    if !CanRecord(v) then v else v.(records := v.records + 1, bufferDirty := false)
  }

  /** The frame callback's doFrame: runs once per posted callback. */
  function DoFrame(v: View): (r: View)
    requires v.pending >= 1
    ensures !r.frameScheduled && r.pending == v.pending - 1
    ensures r.records == v.records + (if v.bufferDirty && CanRecord(v) then 1 else 0)
    ensures r.invalidations == v.invalidations + (if v.bufferDirty then 1 else 0)
    ensures r.bufferDirty == (v.bufferDirty && !CanRecord(v))
    ensures !v.bufferDirty ==> r == v.(frameScheduled := false, pending := v.pending - 1)
    ensures r.topRow == v.topRow && r.emulator == v.emulator && r.selection == v.selection
  {
    var ticked := v.(frameScheduled := false, pending := v.pending - 1);
    if ticked.bufferDirty then Invalidate(RecordRenderNode(ticked)) else ticked
  }

  /** onDetachedFromWindow as written: every posted callback is removed, but the
      scheduled flag is left as it was. */
  function Detach(v: View): (r: View)
    ensures r.pending == 0 && r.frameScheduled == v.frameScheduled
    ensures r == v.(pending := 0)
  {
    v.(pending := 0)
  }

  /** onDetachedFromWindow as evidently intended: removing the callback also
      forgets that one was scheduled. */
  function DetachCancelling(v: View): (r: View)
    ensures r.pending == 0 && !r.frameScheduled
    ensures r == v.(pending := 0, frameScheduled := false)
  {
    v.(pending := 0, frameScheduled := false)
  }

  // ---------------------------------------------------------------------------
  // Scrolling

  /** One step of doScroll's loop without mouse tracking. */
  function ScrollStep(top: int, history: int, up: bool): int {
    Min(0, Max(-history, top + (if up then -1 else 1)))
  }

  /** n steps of doScroll's loop, the last step outermost. */
  function ScrollSteps(top: int, history: int, up: bool, n: nat): (r: int)
    ensures n >= 1 ==> r <= 0 && (history >= 0 ==> -history <= r)
    ensures n == 0 ==> r == top
  {
    if n == 0 then top else ScrollStep(ScrollSteps(top, history, up, n - 1), history, up)
  }

  /** From inside the history, n single-row steps land where one clamped jump
      of n rows would. */
  lemma {:induction false} ScrollStepsClamp(top: int, history: int, up: bool, n: nat)
    requires -history <= top <= 0
    ensures ScrollSteps(top, history, up, n) == Clamp(top + (if up then -(n as int) else n), -history, 0)
  {
    if n > 0 {
      ScrollStepsClamp(top, history, up, n - 1);
    }
  }

  /** doScroll: rowsDown rows, negative meaning up. With mouse tracking each row
      becomes a wheel code sent to the emulator; otherwise the top row moves one
      row at a time inside the history. */
  function DoScroll(v: View, rowsDown: int): (r: View)
    requires rowsDown != 0 ==> v.emulator.Some?
    ensures rowsDown == 0 ==> r == v
    ensures r.pending == v.pending && r.frameScheduled == v.frameScheduled && r.records == v.records
    ensures r.emulator == v.emulator && r.selection == v.selection
  {
    if rowsDown == 0 then v
    else
      var e := v.emulator.value;
      var up := rowsDown < 0;
      var amount := Abs(rowsDown);
      if e.mouseTrackingActive then
        v.(wheelEvents := v.wheelEvents + seq(amount, _ => if up then WheelUp else WheelDown))
      else
        v.(topRow := ScrollSteps(v.topRow, e.historyRows, up, amount), bufferDirty := true,
           invalidations := v.invalidations + amount)
  }

  /** doScroll without mouse tracking ends at the clamped target and marks the
      buffer dirty whenever it moved at least one step. With mouse tracking it
      leaves the viewport alone and sends one wheel code per row. */
  lemma DoScrollClamps(v: View, rowsDown: int)
    requires v.emulator.Some?
    ensures var e := v.emulator.value;
      !e.mouseTrackingActive && -(e.historyRows as int) <= v.topRow <= 0 ==>
        && DoScroll(v, rowsDown).topRow == Clamp(v.topRow + rowsDown, -(e.historyRows as int), 0)
        && DoScroll(v, rowsDown).bufferDirty == (v.bufferDirty || rowsDown != 0)
    ensures var e := v.emulator.value;
      e.mouseTrackingActive ==>
        && DoScroll(v, rowsDown).topRow == v.topRow
        && |DoScroll(v, rowsDown).wheelEvents| == |v.wheelEvents| + Abs(rowsDown)
        && forall i :: |v.wheelEvents| <= i < |DoScroll(v, rowsDown).wheelEvents| ==>
             DoScroll(v, rowsDown).wheelEvents[i] == (if rowsDown < 0 then WheelUp else WheelDown)
  {
    var e := v.emulator.value;
    if rowsDown != 0 && !e.mouseTrackingActive && -(e.historyRows as int) <= v.topRow <= 0 {
      ScrollStepsClamp(v.topRow, e.historyRows, rowsDown < 0, Abs(rowsDown));
    }
  }

  // ---------------------------------------------------------------------------
  // Resizing

  /** The grid that fits a w-by-h pixel view: at least 4 by 4, otherwise as many
      whole cells as fit (the rows below the first line's ascent). */
  function GridSize(w: nat, h: nat, m: Metrics): (r: (int, int))
    requires MetricsValid(m)
    ensures r.0 >= 4 && r.1 >= 4
    ensures r.0 > 4 ==> CellsWidth(r.0, m.fontWidth) <= w as real < CellsWidth(r.0, m.fontWidth) + m.fontWidth
    ensures r.0 == 4 ==> w as real < CellsWidth(4, m.fontWidth) + m.fontWidth
    ensures r.1 > 4 ==> r.1 * m.lineSpacing <= h - m.lineSpacingAndAscent < (r.1 + 1) * m.lineSpacing
    ensures r.1 == 4 ==> h - m.lineSpacingAndAscent < 5 * m.lineSpacing
  {
    ColumnsAtLeastFour(w, m.fontWidth);
    RowsAtLeastFour(h - m.lineSpacingAndAscent, m.lineSpacing);
    (Max(4, (w as real / m.fontWidth).Floor), Max(4, JavaDiv(h - m.lineSpacingAndAscent, m.lineSpacing)))
  }

  /** The column count of updateSize: the whole cells that fit, or 4 when
      fewer than 5 fit. */
  lemma ColumnsAtLeastFour(w: nat, fontWidth: real)
    requires fontWidth > 0.0
    ensures var cols := Max(4, (w as real / fontWidth).Floor);
      && (cols > 4 ==> CellsWidth(cols, fontWidth) <= w as real < CellsWidth(cols, fontWidth) + fontWidth)
      && (cols == 4 ==> w as real < CellsWidth(4, fontWidth) + fontWidth)
  {
    var k := (w as real / fontWidth).Floor;
    ColumnsThatFit(w, fontWidth);
    if k <= 4 {
      CellsWidthMonotone(k, 4, fontWidth);
    }
  }

  /** The row count of updateSize for the height a below the first ascent:
      the whole lines that fit, or 4 when fewer than 5 fit. */
  lemma RowsAtLeastFour(a: int, lineSpacing: int)
    requires lineSpacing > 0
    ensures var rows := Max(4, JavaDiv(a, lineSpacing));
      && (rows > 4 ==> rows * lineSpacing <= a < (rows + 1) * lineSpacing)
      && (rows == 4 ==> a < 5 * lineSpacing)
  {
    var q := JavaDiv(a, lineSpacing);
    if a >= 0 {
      assert q * lineSpacing <= a < q * lineSpacing + lineSpacing;
      assert (q + 1) * lineSpacing == q * lineSpacing + lineSpacing;
      if q <= 4 {
        assert 5 * lineSpacing - (q + 1) * lineSpacing == (4 - q) * lineSpacing;
        NonnegativeProduct(4 - q, lineSpacing);
      }
    }
  }

  lemma NonnegativeProduct(a: int, b: int)
    requires a >= 0 && b > 0
    ensures a * b >= 0
  {
  }

  /** The width in pixels of n cells side by side. */
  function CellsWidth(n: int, fontWidth: real): real {
    n as real * fontWidth
  }

  /** The truncated quotient of a width by the font width is the number of
      whole cells that fit in it: one more cell would not fit. */
  lemma ColumnsThatFit(w: nat, fontWidth: real)
    requires fontWidth > 0.0
    ensures var k := (w as real / fontWidth).Floor;
      CellsWidth(k, fontWidth) <= w as real < CellsWidth(k, fontWidth) + fontWidth
  {
    var x := w as real / fontWidth;
    QuotientTimes(w as real, fontWidth);
    FloorBounds(x);
    ScaledBelow(x, x.Floor as real, fontWidth, w as real);
    ScaledAbove(x, x.Floor as real, fontWidth, w as real);
  }

  lemma CellsWidthMonotone(m: int, n: int, fontWidth: real)
    requires m <= n && fontWidth > 0.0
    ensures CellsWidth(m, fontWidth) <= CellsWidth(n, fontWidth)
  {
    var gap := (n - m) as real;
    assert CellsWidth(n, fontWidth) - CellsWidth(m, fontWidth) == gap * fontWidth;
    NonnegativeTimes(gap, fontWidth);
  }

  lemma QuotientTimes(a: real, c: real)
    requires c > 0.0
    ensures (a / c) * c == a
  {
  }

  lemma FloorBounds(x: real)
    ensures x.Floor as real <= x < x.Floor as real + 1.0
  {
  }

  /** Scaling here <= x by c > 0. */
  lemma ScaledBelow(x: real, here: real, c: real, w: real)
    requires here <= x && c > 0.0 && x * c == w
    ensures here * c <= w
  {
    NonnegativeTimes(x - here, c);
  }

  /** Scaling x < here + 1 by c > 0. */
  lemma ScaledAbove(x: real, here: real, c: real, w: real)
    requires x < here + 1.0 && c > 0.0 && x * c == w
    ensures w < here * c + c
  {
    PositiveTimes(here + 1.0 - x, c);
  }

  lemma NonnegativeTimes(a: real, c: real)
    requires a >= 0.0 && c > 0.0
    ensures a * c >= 0.0
  {
  }

  lemma PositiveTimes(a: real, c: real)
    requires a > 0.0 && c > 0.0
    ensures a * c > 0.0
  {
  }

  /** updateSize: the view's size in pixels is w by h; `sessionEmulator` is the
      session's emulator, which the session resizes to the new grid. */
  function UpdateSize(v: View, w: nat, h: nat, m: Metrics, sessionEmulator: Emulator): (r: View)
    requires MetricsValid(m)
    ensures w == 0 || h == 0 || !v.hasSession ==> r == v
    ensures w > 0 && h > 0 && v.hasSession ==>
      var (cols, rows) := GridSize(w, h, m);
      if v.emulator.None? || v.emulator.value.columns != cols || v.emulator.value.rows != rows then
        && r.emulator.Some?
        && r.emulator.value.columns == cols && r.emulator.value.rows == rows
        && cols >= 4 && rows >= 4
        && r.topRow == 0 && r.bufferDirty
        && r.frameScheduled == v.frameScheduled && r.pending == v.pending
        // the view takes the session's emulator, resized; nothing else changes
        && r == v.(emulator := Some(sessionEmulator.(columns := cols as nat, rows := rows as nat)),
                   topRow := 0, bufferDirty := true, invalidations := v.invalidations + 1)
      else r == v
  {
    if w == 0 || h == 0 || !v.hasSession then v
    else
      var (cols, rows) := GridSize(w, h, m);
      if v.emulator.None? || v.emulator.value.columns != cols || v.emulator.value.rows != rows then
        var resized := sessionEmulator.(columns := cols as nat, rows := rows as nat);
        Invalidate(v.(emulator := Some(resized), topRow := 0, bufferDirty := true))
      else v
  }

  /** Laying out again at the same size changes nothing, whatever the
      session's emulator is by then. */
  lemma UpdateSizeIdempotent(v: View, w: nat, h: nat, m: Metrics, e: Emulator, e': Emulator)
    requires MetricsValid(m)
    ensures UpdateSize(UpdateSize(v, w, h, m, e), w, h, m, e') == UpdateSize(v, w, h, m, e)
  {
  }

  /** attachSession: a new session, no emulator yet, then updateSize. */
  function AttachSession(v: View, w: nat, h: nat, m: Metrics, sessionEmulator: Emulator): (r: View)
    requires MetricsValid(m)
    ensures r.hasSession
    ensures w > 0 && h > 0 ==>
      var (cols, rows) := GridSize(w, h, m);
      && r.emulator == Some(sessionEmulator.(columns := cols as nat, rows := rows as nat))
      && r.topRow == 0 && r.bufferDirty
      && r == v.(hasSession := true, emulator := r.emulator, topRow := 0, bufferDirty := true,
                 invalidations := v.invalidations + 1)
    ensures w == 0 || h == 0 ==> r == v.(hasSession := true, emulator := None)
  {
    UpdateSize(v.(hasSession := true, emulator := None), w, h, m, sessionEmulator)
  }

  // ---------------------------------------------------------------------------
  // Event sequences

  /** The terminal wrote output: the session's emulator now reads as `screen`
      on the same grid (only a resize changes the grid). A view without an
      emulator does not see it. */
  function Output(v: View, screen: Emulator): View {
    match v.emulator
    case None => v
    case Some(e) => v.(emulator := Some(screen.(columns := e.columns, rows := e.rows)))
  }

  /** What the platform and the session deliver to the view. `ScreenUpdated`
      carries the emulator as the output left it when the notification came. */
  datatype Event =
    | ScreenUpdated(skipScrolling: bool, screen: Emulator)
    | FrameTick
    | Scrolled(rowsDown: int)
    | SizeChanged(width: nat, height: nat, metrics: Metrics, sessionEmulator: Emulator)
    | SelectionStarted(focusGranted: bool)
    | SelectionStopped
    | Detached

  /** Events the platform can deliver in state v: a frame tick only for a posted
      callback, a scroll only with an emulator. */
  predicate Enabled(v: View, ev: Event) {
    match ev
    case FrameTick => v.pending >= 1
    case Scrolled(n) => n != 0 ==> v.emulator.Some?
    case SizeChanged(_, _, m, _) => MetricsValid(m)
    case _ => true
  }

  /** One event; `cancelOnDetach` selects the corrected detach. */
  function Step(v: View, ev: Event, cancelOnDetach: bool): View
    requires Enabled(v, ev)
  {
    match ev
    case ScreenUpdated(skip, screen) => OnScreenUpdated(Output(v, screen), skip)
    case FrameTick => DoFrame(v)
    case Scrolled(n) => DoScroll(v, n)
    case SizeChanged(w, h, m, e) => UpdateSize(v, w, h, m, e)
    case SelectionStarted(focus) => StartSelection(v, focus).0
    case SelectionStopped => StopSelection(v)
    case Detached => if cancelOnDetach then DetachCancelling(v) else Detach(v)
  }

  /** A sequence of events; one the platform cannot deliver is skipped. */
  function Run(v: View, evs: seq<Event>, cancelOnDetach: bool): View
    decreases |evs|
  {
    if evs == [] then v
    else
      var next := if Enabled(v, evs[0]) then Step(v, evs[0], cancelOnDetach) else v;
      Run(next, evs[1..], cancelOnDetach)
  }

  /** At most one frame callback is ever waiting, and only while scheduled. */
  predicate AtMostOnePending(v: View) {
    v.pending <= 1 && (v.pending == 1 ==> v.frameScheduled)
  }

  /** The scheduled flag tells the truth: a callback is waiting exactly when
      the view believes one is scheduled. */
  predicate Coherent(v: View) {
    v.pending == (if v.frameScheduled then 1 else 0)
  }

  /** Scheduled, yet nothing is waiting: no frame will ever run again. */
  predicate Stalled(v: View) {
    v.frameScheduled && v.pending == 0
  }

  lemma StepKeepsAtMostOnePending(v: View, ev: Event, cancelOnDetach: bool)
    requires AtMostOnePending(v) && Enabled(v, ev)
    ensures AtMostOnePending(Step(v, ev, cancelOnDetach))
  {
  }

  /** Coalescing holds over any event sequence: never more than one callback. */
  lemma {:induction false} RunKeepsAtMostOnePending(v: View, evs: seq<Event>, cancelOnDetach: bool)
    requires AtMostOnePending(v)
    ensures AtMostOnePending(Run(v, evs, cancelOnDetach))
    decreases |evs|
  {
    if evs != [] {
      var next := if Enabled(v, evs[0]) then Step(v, evs[0], cancelOnDetach) else v;
      if Enabled(v, evs[0]) {
        StepKeepsAtMostOnePending(v, evs[0], cancelOnDetach);
      }
      RunKeepsAtMostOnePending(next, evs[1..], cancelOnDetach);
    }
  }

  /** With the corrected detach every event keeps the flag truthful. */
  lemma {:induction false} RunCancellingKeepsCoherent(v: View, evs: seq<Event>)
    requires Coherent(v)
    ensures Coherent(Run(v, evs, true))
    decreases |evs|
  {
    if evs != [] {
      var next := if Enabled(v, evs[0]) then Step(v, evs[0], true) else v;
      RunCancellingKeepsCoherent(next, evs[1..]);
    }
  }

  /** As written, detaching while a frame is scheduled leaves the view stalled,
      and a stalled view stays stalled and records nothing, whatever follows. */
  lemma {:induction false} DetachWhileScheduledStalls(v: View, evs: seq<Event>)
    requires v.frameScheduled
    ensures Stalled(Run(Detach(v), evs, false))
    ensures Run(Detach(v), evs, false).records == v.records
  {
    StalledStaysStalled(Detach(v), evs);
  }

  lemma {:induction false} StalledStaysStalled(v: View, evs: seq<Event>)
    requires Stalled(v)
    ensures Stalled(Run(v, evs, false)) && Run(v, evs, false).records == v.records
    decreases |evs|
  {
    if evs != [] {
      var next := if Enabled(v, evs[0]) then Step(v, evs[0], false) else v;
      StalledStaysStalled(next, evs[1..]);
    }
  }

  /** With the corrected detach, the first output after it posts a frame that
      records the screen. */
  lemma CancellingDetachResumes(v: View, skipScrolling: bool)
    requires v.emulator.Some? && v.renderNodeReady
    ensures var u := OnScreenUpdated(DetachCancelling(v), skipScrolling);
      u.pending == 1 && DoFrame(u).records == v.records + 1
  {
  }

  // ---------------------------------------------------------------------------
  // Coalescing a burst of updates

  /** Output followed by onScreenUpdated, once per (flag, screen) pair, in order. */
  function Updates(v: View, notices: seq<(bool, Emulator)>): View
    decreases |notices|
  {
    if notices == [] then v
    else Updates(OnScreenUpdated(Output(v, notices[0].1), notices[0].0), notices[1..])
  }

  /** Any burst of k >= 1 updates posts exactly one callback if none was
      scheduled, and none otherwise; it records nothing itself. */
  lemma {:induction false} BurstPostsOneCallback(v: View, notices: seq<(bool, Emulator)>)
    requires v.emulator.Some? && |notices| >= 1
    ensures var r := Updates(v, notices);
      && r.frameScheduled && r.bufferDirty && r.emulator.Some?
      && r.pending == v.pending + (if v.frameScheduled then 0 else 1)
      && r.records == v.records
      && r.renderNodeReady == v.renderNodeReady
    decreases |notices|
  {
    if |notices| > 1 {
      BurstPostsOneCallback(OnScreenUpdated(Output(v, notices[0].1), notices[0].0), notices[1..]);
    }
  }

  /** A burst of updates followed by the one frame tick it caused records the
      render node exactly once and leaves nothing scheduled or dirty. */
  lemma BurstThenTickRecordsOnce(v: View, notices: seq<(bool, Emulator)>)
    requires v.emulator.Some? && v.renderNodeReady && Coherent(v) && |notices| >= 1
    ensures var u := Updates(v, notices);
      u.pending == 1
      && DoFrame(u).records == v.records + 1
      && DoFrame(u).pending == 0 && !DoFrame(u).frameScheduled && !DoFrame(u).bufferDirty
  {
    BurstPostsOneCallback(v, notices);
  }

  /** A tick with a clean buffer records nothing and invalidates nothing. */
  lemma CleanTickDoesNoWork(v: View)
    requires v.pending >= 1 && !v.bufferDirty
    ensures DoFrame(v).records == v.records && DoFrame(v).invalidations == v.invalidations
  {
  }
}
