/**
  The terminal view's redraw scheduler and scroll state as a class whose
  methods update its fields step by step, as the view does. Each method is
  proved to leave the state that the matching function of ViewModel gives, so
  every lemma proved there holds of the class. Detaching comes twice: as
  written (OnDetachedFromWindow, which can stall the scheduler) and corrected
  (OnDetachedFromWindowCancelling).

  Platform calls are recorded in ghost counters: posting the frame callback to
  the display-refresh queue (`pending`), recording the render node
  (`records`), invalidate() (`invalidations`) and mouse-wheel codes sent to the
  emulator (`wheelEvents`).
 */
module TerminalViewClass {
  import opened Terminal
  import ViewModel

  class TerminalView {
    var emulator: Option<Emulator>
    var hasSession: bool
    var topRow: int
    var bufferDirty: bool
    var frameScheduled: bool
    var selection: Option<ViewModel.Selection>
    const renderNodeReady: bool
    const metrics: ViewModel.Metrics

    ghost var pending: nat
    ghost var records: nat
    ghost var invalidations: nat
    ghost var wheelEvents: seq<ViewModel.Wheel>

    ghost function State(): ViewModel.View
      reads this
    {
      ViewModel.View(emulator, hasSession, topRow, bufferDirty, frameScheduled, selection,
                     renderNodeReady, pending, records, invalidations, wheelEvents)
    }

    ghost predicate Valid()
      reads this
    {
      ViewModel.MetricsValid(metrics) && ViewModel.AtMostOnePending(State())
    }

    /** A new view: dirty, nothing scheduled, no session or emulator yet. */
    constructor (metrics: ViewModel.Metrics, renderNodeReady: bool, selection: Option<ViewModel.Selection>)
      requires ViewModel.MetricsValid(metrics)
      ensures Valid()
      ensures State() == ViewModel.Initial(selection, renderNodeReady) && this.metrics == metrics
    {
      this.metrics := metrics;
      this.renderNodeReady := renderNodeReady;
      this.selection := selection;
      emulator := None;
      hasSession := false;
      topRow := 0;
      bufferDirty := true;
      frameScheduled := false;
      pending, records, invalidations, wheelEvents := 0, 0, 0, [];
    }

    function IsSelectingText(): (b: bool)
      reads this
      ensures b == ViewModel.IsSelecting(State())
    {
      selection.Some? && selection.value.active
    }

    method Invalidate()
      modifies this`invalidations
      ensures invalidations == old(invalidations) + 1
    {
      invalidations := invalidations + 1;
    }

    method StartTextSelectionMode(focusGranted: bool) returns (threw: bool)
      requires Valid()
      modifies this
      ensures Valid()
      ensures (State(), threw) == ViewModel.StartSelection(old(State()), focusGranted)
    {
      threw := false;
      if focusGranted {
        if selection.None? {
          // show() on the missing controller throws before anything changes
          threw := true;
          return;
        }
        selection := Some(selection.value.(active := true));
        bufferDirty := true;
        Invalidate();
      }
    }

    method StopTextSelectionMode()
      requires Valid()
      modifies this
      ensures Valid()
      ensures State() == ViewModel.StopSelection(old(State()))
    {
      if selection.Some? && selection.value.active {
        selection := Some(selection.value.(active := false));
        bufferDirty := true;
        Invalidate();
      }
    }

    method DecrementYTextSelectionCursors(rows: int)
      requires Valid()
      modifies this`selection
      ensures Valid()
      ensures State() == ViewModel.MoveSelectionUp(old(State()), rows)
    {
      if selection.Some? {
        selection := Some(selection.value.(rowsMovedUp := selection.value.rowsMovedUp + rows));
      }
    }

    /** The shift rule of onScreenUpdated, with the top row already clamped. */
    method FollowOutput(e: Emulator, skipScrolling: bool) returns (skip: bool)
      requires Valid() && topRow >= -(e.historyRows as int)
      modifies this
      ensures Valid()
      ensures (State(), skip) == ViewModel.FollowOutput(old(State()), e, skipScrolling)
    {
      skip := skipScrolling;
      var hist := e.historyRows as int;
      if IsSelectingText() || e.autoScrollDisabled {
        var shift := e.scrollCounter;
        if -topRow + shift > hist {
          if IsSelectingText() {
            StopTextSelectionMode();
          }
          if e.autoScrollDisabled {
            topRow := -hist;
            skip := true;
          }
        } else {
          skip := true;
          topRow := topRow - shift;
          DecrementYTextSelectionCursors(shift);
        }
      }
    }

    /** The end of onScreenUpdated: clear the scroll counter, mark the buffer
        dirty and post the frame callback unless one is scheduled. */
    method MarkDirtyAndSchedule(e: Emulator)
      requires Valid()
      modifies this
      ensures Valid()
      ensures State() == ViewModel.MarkDirtyAndSchedule(old(State()), e)
    {
      emulator := Some(e.(scrollCounter := 0));  // clearScrollCounter
      bufferDirty := true;
      if !frameScheduled {
        frameScheduled := true;
        pending := pending + 1;  // postFrameCallback
      }
    }

    method OnScreenUpdated(skipScrolling: bool)
      requires Valid()
      modifies this
      ensures Valid()
      ensures State() == ViewModel.OnScreenUpdated(old(State()), skipScrolling)
    {
      if emulator.None? {
        return;
      }
      var e := emulator.value;
      var hist := e.historyRows as int;
      if topRow < -hist {
        topRow := -hist;
      }
      ghost var clamped := State();
      var skip := FollowOutput(e, skipScrolling);
      ghost var followed := State();
      if !skip && topRow != 0 {
        topRow := 0;
      }
      ghost var snapped := State();
      MarkDirtyAndSchedule(e);
      OnScreenUpdatedSteps(old(State()), skipScrolling, e, clamped, followed, skip, snapped);
    }

    /** How the steps of OnScreenUpdated compose into ViewModel.OnScreenUpdated. */
    static lemma OnScreenUpdatedSteps(v: ViewModel.View, skipScrolling: bool, e: Emulator,
                                      clamped: ViewModel.View, followed: ViewModel.View, skip: bool,
                                      snapped: ViewModel.View)
      requires v.emulator == Some(e)
      requires clamped == v.(topRow := if v.topRow < -(e.historyRows as int) then -(e.historyRows as int) else v.topRow)
      requires (followed, skip) == ViewModel.FollowOutput(clamped, e, skipScrolling)
      requires snapped == if !skip && followed.topRow != 0 then followed.(topRow := 0) else followed
      ensures ViewModel.MarkDirtyAndSchedule(snapped, e) == ViewModel.OnScreenUpdated(v, skipScrolling)
    {
    }

    method RecordRenderNode()
      requires Valid()
      modifies this
      ensures Valid()
      ensures State() == ViewModel.RecordRenderNode(old(State()))
    {
      if emulator.None? || !renderNodeReady {
        return;
      }
      records := records + 1;  // beginRecording, render, endRecording
      bufferDirty := false;
    }

    /** The frame callback, run by the display-refresh queue for a posted entry. */
    method DoFrame()
      requires Valid() && pending >= 1
      modifies this
      ensures Valid()
      ensures State() == ViewModel.DoFrame(old(State()))
    {
      pending := pending - 1;  // the queue hands over the entry it runs
      frameScheduled := false;
      if bufferDirty {
        RecordRenderNode();
        Invalidate();
      }
    }

    /** doScroll's loop with mouse tracking: one wheel code per row. */
    method SendWheel(up: bool, amount: nat)
      modifies this`wheelEvents
      ensures wheelEvents == old(wheelEvents) + seq(amount, _ => if up then ViewModel.WheelUp else ViewModel.WheelDown)
    {
      for i := 0 to amount
        invariant wheelEvents == old(wheelEvents) + seq(i, _ => if up then ViewModel.WheelUp else ViewModel.WheelDown)
      {
        wheelEvents := wheelEvents + [if up then ViewModel.WheelUp else ViewModel.WheelDown];
      }
    }

    /** doScroll's loop without mouse tracking: one clamped row per step. */
    method StepViewport(history: nat, up: bool, amount: nat)
      modifies this`topRow, this`bufferDirty, this`invalidations
      ensures topRow == ViewModel.ScrollSteps(old(topRow), history, up, amount)
      ensures bufferDirty == (old(bufferDirty) || amount > 0)
      ensures invalidations == old(invalidations) + amount
    {
      for i := 0 to amount
        invariant topRow == ViewModel.ScrollSteps(old(topRow), history, up, i)
        invariant bufferDirty == (old(bufferDirty) || i > 0)
        invariant invalidations == old(invalidations) + i
      {
        topRow := ViewModel.Min(0, ViewModel.Max(-(history as int), topRow + (if up then -1 else 1)));
        bufferDirty := true;
        Invalidate();
      }
    }

    method DoScroll(rowsDown: int)
      requires Valid() && (rowsDown != 0 ==> emulator.Some?)
      modifies this
      ensures Valid()
      ensures State() == ViewModel.DoScroll(old(State()), rowsDown)
      ensures emulator.Some? && !emulator.value.mouseTrackingActive &&
              -(emulator.value.historyRows as int) <= old(topRow) <= 0 ==>
        topRow == ViewModel.Clamp(old(topRow) + rowsDown, -(emulator.value.historyRows as int), 0)
    {
      var up := rowsDown < 0;
      var amount := ViewModel.Abs(rowsDown);
      if amount > 0 {
        // the emulator's mouse-tracking mode is the same on every pass of the loop
        if emulator.value.mouseTrackingActive {
          SendWheel(up, amount);
        } else {
          StepViewport(emulator.value.historyRows, up, amount);
        }
      }
      if emulator.Some? {
        ViewModel.DoScrollClamps(old(State()), rowsDown);
      }
    }

    /** updateSize, with the view's current size w by h in pixels and the
        session's emulator before the session resizes it. */
    method UpdateSize(w: nat, h: nat, sessionEmulator: Emulator)
      requires Valid()
      modifies this
      ensures Valid()
      ensures State() == ViewModel.UpdateSize(old(State()), w, h, metrics, sessionEmulator)
    {
      if w == 0 || h == 0 || !hasSession {
        return;
      }
      var cols := ViewModel.Max(4, (w as real / metrics.fontWidth).Floor);
      var rows := ViewModel.Max(4, ViewModel.JavaDiv(h - metrics.lineSpacingAndAscent, metrics.lineSpacing));
      if emulator.None? || cols != emulator.value.columns || rows != emulator.value.rows {
        // the session resizes its emulator, which becomes the view's
        emulator := Some(sessionEmulator.(columns := cols as nat, rows := rows as nat));
        topRow := 0;
        bufferDirty := true;
        Invalidate();
      }
    }

    method AttachSession(w: nat, h: nat, sessionEmulator: Emulator)
      requires Valid()
      modifies this
      ensures Valid()
      ensures State() == ViewModel.AttachSession(old(State()), w, h, metrics, sessionEmulator)
    {
      hasSession := true;
      emulator := None;
      UpdateSize(w, h, sessionEmulator);
    }

    /** onDetachedFromWindow as written: the posted callback is removed and
        the scheduled flag is left as it was (see ViewModel.DetachWhileScheduledStalls). */
    method OnDetachedFromWindow()
      requires Valid()
      modifies this
      ensures Valid()
      ensures State() == ViewModel.Detach(old(State()))
    {
      pending := 0;  // removeFrameCallback
    }

    /** onDetachedFromWindow corrected: removing the callback also clears the
        scheduled flag, so the next output posts a new one. */
    method OnDetachedFromWindowCancelling()
      requires Valid()
      modifies this
      ensures Valid()
      ensures State() == ViewModel.DetachCancelling(old(State()))
    {
      pending := 0;
      frameScheduled := false;
    }
  }
}
