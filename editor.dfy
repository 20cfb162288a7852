/** The editor itself: one flag, and the methods that evaluate events,
    redraw the screen and run the read-evaluate-render loop against a
    terminal. The terminal is passed to each method that uses it, as the
    source reaches it through free functions rather than a field. */
module Editor {
  import opened Input
  import opened Term
  import opened Render
  import opened Session

  class Editor {
    /** Set once the quit key has been seen; never cleared. */
    var shouldQuit: bool

    /** A fresh editor is running, not quitting. */
    constructor Default()
      ensures !shouldQuit
    {
      shouldQuit := false;
    }

    /** Initialises the terminal, runs the loop, terminates the terminal
        and only then looks at the loop's result. */
    method Run(term: Terminal) returns (exit: Exit)
      modifies this, term
      ensures var s := RunSession(old(shouldQuit), old(term.input), term.faults, |old(term.log)|,
                                  Frame(false, term.cols, term.rows), Frame(true, term.cols, term.rows));
        exit == s.exit && shouldQuit == s.quit && term.input == s.rest && term.log == old(term.log) + s.cmds
    {
      ghost var log0 := term.log;
      RunSessionLog(log0, shouldQuit, term.input, term.faults,
                    Frame(false, term.cols, term.rows), Frame(true, term.cols, term.rows));
      var ok := term.Initialize();
      if !ok {
        return InitPanic;
      }
      var result := Repl(term);
      if result == Starved {
        return Waiting;
      }
      ok := term.Terminate();
      if !ok {
        return TerminatePanic;
      }
      exit := if result == Failed then LoopPanic else Finished;
    }

    /** Renders, stops if quitting, otherwise reads one event and evaluates
        it, and repeats; a failing terminal call ends the loop at once. */
    method Repl(term: Terminal) returns (outcome: Outcome)
      modifies this, term
      ensures var l := Loop(old(shouldQuit), old(term.input), term.faults, |old(term.log)|,
                            Frame(false, term.cols, term.rows), Frame(true, term.cols, term.rows));
        outcome == l.outcome && shouldQuit == l.quit && term.input == l.rest &&
        term.log == old(term.log) + l.cmds
    {
      ghost var normal, goodbye := Frame(false, term.cols, term.rows), Frame(true, term.cols, term.rows);
      ghost var log0 := term.log;
      ghost var l0 := Loop(shouldQuit, term.input, term.faults, |term.log|, normal, goodbye);
      while true
        invariant var l := Loop(shouldQuit, term.input, term.faults, |term.log|, normal, goodbye);
          l.outcome == l0.outcome && l.quit == l0.quit && l.rest == l0.rest &&
          log0 + l0.cmds == term.log + l.cmds
        decreases |term.input|
      {
        ghost var before := term.log;
        ghost var frame := if shouldQuit then goodbye else normal;
        assert frame == Frame(shouldQuit, term.cols, term.rows);
        LoopEndsLog(before, shouldQuit, term.input, term.faults, normal, goodbye);
        var ok := RefreshScreen(term);
        if !ok {
          return Failed;
        }
        if shouldQuit {
          break;
        }
        ghost var events := term.input;
        var read := term.Read();
        match read {
          case IoError =>
            return Failed;
          case Exhausted =>
            return Starved;
          case Got(event) =>
            EvaluateEvent(event);
            ReplRound(before, term.log, events, term.input, shouldQuit, term.faults, normal, goodbye);
        }
      }
      outcome := Quit;
    }

    /** Sets the flag on the quit key and leaves it alone otherwise. */
    method EvaluateEvent(event: Event)
      modifies this
      ensures shouldQuit == (old(shouldQuit) || IsQuitKey(event))
    {
      match event {
        case Key(code, modifiers, _) =>
          match code {
            case Char('q') =>
              if modifiers == {Control} {
                shouldQuit := true;
              }
            case _ =>
          }
        case Other =>
      }
    }

    /** Draws one frame, the goodbye frame when quitting, between hiding and
        showing the cursor, and flushes it. */
    method RefreshScreen(term: Terminal) returns (ok: bool)
      modifies term`log
      ensures Ran(old(term.log), term.log, term.faults, Frame(shouldQuit, term.cols, term.rows), ok)
      ensures ok ==> term.log == old(term.log) + Frame(shouldQuit, term.cols, term.rows)
    {
      ghost var log0 := term.log;
      ghost var faults := term.faults;
      ghost var frame := Frame(shouldQuit, term.cols, term.rows);
      ok := term.HideCursor();
      StepCall(log0, term.log, faults, [], HideCursor, ok, frame);
      if !ok {
        return;
      }
      ghost var done := [HideCursor];
      if shouldQuit {
        ok := term.ClearScreen();
        StepCall(log0, term.log, faults, done, ClearScreen, ok, frame);
        if !ok {
          return;
        }
        done := done + [ClearScreen];
        ok := term.MoveCursorTo(0, 0);
        StepCall(log0, term.log, faults, done, MoveTo(0, 0), ok, frame);
        if !ok {
          return;
        }
        done := done + [MoveTo(0, 0)];
        ok := term.Print(Goodbye);
        StepCall(log0, term.log, faults, done, Print(Goodbye), ok, frame);
        if !ok {
          return;
        }
        done := done + [Print(Goodbye)];
      } else {
        ok := DrawRows(term);
        Step(log0, term.log, faults, done, RowsSent(term.rows), ok, frame);
        if !ok {
          return;
        }
        done := done + RowsSent(term.rows);
        ok := DrawWelcome(term);
        Step(log0, term.log, faults, done, WelcomeCmds(term.cols, term.rows), ok, frame);
        if !ok {
          return;
        }
        done := done + WelcomeCmds(term.cols, term.rows);
        ok := term.MoveCursorTo(0, 0);
        StepCall(log0, term.log, faults, done, MoveTo(0, 0), ok, frame);
        if !ok {
          return;
        }
        done := done + [MoveTo(0, 0)];
      }
      assert done == Hidden(shouldQuit, term.cols, term.rows);
      ok := term.ShowCursor();
      StepCall(log0, term.log, faults, done, ShowCursor, ok, frame);
      if !ok {
        return;
      }
      done := done + [ShowCursor];
      ok := term.Execute();
      StepCall(log0, term.log, faults, done, Execute, ok, frame);
    }

    /** Queries the size and draws every filler row, top to bottom. */
    static method DrawRows(term: Terminal) returns (ok: bool)
      modifies term`log
      ensures Ran(old(term.log), term.log, term.faults, RowsSent(term.rows), ok)
    {
      ghost var log0 := term.log;
      ghost var faults := term.faults;
      ghost var whole := RowsSent(term.rows);
      var cols, rows;
      ok, cols, rows := term.Size();
      StepCall(log0, term.log, faults, [], Size, ok, whole);
      if !ok {
        return;
      }
      for row: u16 := 0 to rows
        invariant term.log == log0 + RowsSent(row) && Clean(|log0|, faults, |RowsSent(row)|)
      {
        ghost var next := RowsSent(row + 1);
        RowsSentGrow(row + 1, rows);
        ok := term.MoveCursorTo(0, row);
        StepCall(log0, term.log, faults, RowsSent(row), MoveTo(0, row), ok, next);
        if !ok {
          RanStop(log0, term.log, faults, next, whole);
          return;
        }
        ghost var done := RowsSent(row) + [MoveTo(0, row)];
        ok := term.ClearLine();
        StepCall(log0, term.log, faults, done, ClearLine, ok, next);
        if !ok {
          RanStop(log0, term.log, faults, next, whole);
          return;
        }
        done := done + [ClearLine];
        ok := term.Print(Tilde);
        StepCall(log0, term.log, faults, done, Print(Tilde), ok, next);
        if !ok {
          RanStop(log0, term.log, faults, next, whole);
          return;
        }
      }
    }

    /** Queries the size and prints the banner at its place. */
    static method DrawWelcome(term: Terminal) returns (ok: bool)
      modifies term`log
      ensures Ran(old(term.log), term.log, term.faults, WelcomeCmds(term.cols, term.rows), ok)
    {
      ghost var log0 := term.log;
      ghost var faults := term.faults;
      ghost var whole := WelcomeCmds(term.cols, term.rows);
      var cols, rows;
      ok, cols, rows := term.Size();
      StepCall(log0, term.log, faults, [], Size, ok, whole);
      if !ok {
        return;
      }
      var message := Message;
      var colLoc := BannerCol(cols);
      var rowLoc := BannerRow(rows);
      ok := term.MoveCursorTo(colLoc, rowLoc);
      StepCall(log0, term.log, faults, [Size], MoveTo(colLoc, rowLoc), ok, whole);
      if !ok {
        return;
      }
      ok := term.Print(message);
      StepCall(log0, term.log, faults, [Size] + [MoveTo(colLoc, rowLoc)], Print(message), ok, whole);
    }
  }
}
