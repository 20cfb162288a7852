# kilo-rust editor core, modelled in Dafny

This is a model of the editor core of kilo-rust (`src/editor.rs`). Kilo-rust is a small
terminal program. It switches the terminal into raw mode and then loops: it redraws the
screen, reads one input event and evaluates it. It stops when the user presses Ctrl+q.
Each normal frame hides the cursor and draws one tilde per terminal row. It then prints
the banner `kilo editor -- version 1.0`, half-way across and a third of the way down.
Finally it homes the cursor, shows it again and flushes. Once the quit key has been seen,
the next frame clears the screen and prints `Goodbye.`. After that the loop stops and the
terminal is restored.

The model has five modules:

- `Input` covers input events: a key code, the set of modifiers that were held, and the
  key's press/repeat/release kind. Every other kind of event is one value.
- `Term` is the terminal as a recorded device. Every call the editor makes (initialise,
  terminate, size query, clear, move, hide/show cursor, print, flush, read) is appended
  to a log. Which calls fail is fixed in advance by the set `faults` of log positions,
  and a failing call is logged too. `Issued` is what a run of calls actually issues when
  every error is propagated at once, as Rust's `?` does: everything up to and including
  the first failure. `Ran` says a log grew by exactly that.
- `Render` holds the command sequences of one frame (`Frame`), the filler rows
  (`RowsSent`) and the banner's placement. Placement uses 16-bit saturating subtraction
  and truncating division.
- `Session` specifies the loop (`Loop`, `ReplTrace`) and a whole session (`RunSession`)
  as functions, with the quit latch and the lemmas about them.
- `Editor` is the `Editor` class with its single `shouldQuit` field. Its methods are the
  source's functions, written imperatively. Each method is proved equal to the
  specification functions above. `DrawRows` keeps the source's `for` loop and `Repl` its
  `loop`.

## Model

| member | source | states |
|---|---|---|
| Editor.Editor.Default | src/editor.rs:11-13 | A new editor is not quitting. |
| Editor.Editor.EvaluateEvent | src/editor.rs:34-46 | After the event the flag is set exactly when it was already set or the event is the quit key; no other event changes it. |
| Session.QuitKeyIsExact | src/editor.rs:40 | Ctrl+q is the quit key whether pressed or released. Ctrl+Shift+q, a bare q, Ctrl+Q and non-key events are not. |
| Session.LatchIff | src/editor.rs:34-46 | Evaluating a run of events leaves the flag set iff it was set before or one of the events is the quit key. So once set, it is never cleared. |
| Session.FirstQuit | src/editor.rs:22-32 | The position of the first quit key, or the length when there is none; no earlier event is a quit key. |
| Render.SaturatingSub | src/editor.rs:78 | Subtracting a larger u16 gives 0 instead of wrapping; otherwise the difference. |
| Render.BannerCol | src/editor.rs:77-78 | The banner column is at most half the width. When the banner fits, the space left and right of it differs by at most one. It is 0 when the width is at most the banner length plus one. |
| Render.BannerRow | src/editor.rs:79 | The banner row is a third of the height, rounded down, and lies on screen when there is at least one row. |
| Render.BannerPlacementExamples | src/editor.rs:76-79 | The banner is 26 characters long. An 80x24 terminal puts it at column 27, row 8. Widths 10 and 27 give column 0, and 28 gives column 1. |
| Render.RowsSent | src/editor.rs:64-73 | Drawing n rows makes 3n+1 calls, the first of them the size query. |
| Render.RowsAt | src/editor.rs:66-70 | For every row r below n, the three calls after the size query that belong to r are: move to column 0 of row r, clear the line, print a tilde. |
| Render.RowsSentGrow | src/editor.rs:66-70 | The calls for the first m rows are a prefix of the calls for the first n rows, for m <= n. So a failure part-way through is a prefix of the full drawing. |
| Render.GoodbyeFrame | src/editor.rs:48-62 | The quitting frame is: hide the cursor, clear the screen, move to (0,0), print the goodbye text, show the cursor, flush. |
| Render.NormalFrameLayout | src/editor.rs:48-62 | The running frame is: hide the cursor, the filler rows, the banner (size query, move, print), move to (0,0), show the cursor, flush. |
| Render.NormalFrameRows | src/editor.rs:48-73 | The running frame has 3·rows+8 calls, and row r's move/clear/tilde sit at positions 2+3r to 4+3r. |
| Render.NormalFrameEnds | src/editor.rs:48-62 | The running frame starts with hide and a size query. It ends with size query, move to the banner position, the banner, move to (0,0), show, flush. |
| Render.FirstFrame80x24 | src/editor.rs:48-83 | The first frame on an 80x24 terminal has 80 calls. Call 26 moves to row 8, and calls 75-77 move to (27, 8), print the banner and move to (0,0). |
| Render.FrameBracketed | src/editor.rs:48-62 | Every frame, running or quitting, starts by hiding the cursor and ends with show cursor then flush. Everything in between only queries the size, moves, clears or prints. |
| Render.FrameOnlyDraws | src/editor.rs:48-83 | A frame never switches the terminal mode or reads input. |
| Editor.Editor.DrawRows | src/editor.rs:64-73 | Queries the size and draws rows 0..rows-1 in order. On the first failing call it stops, having issued exactly the prefix up to that call, and reports failure. |
| Editor.Editor.DrawWelcome | src/editor.rs:75-83 | Queries the size, moves to the banner column and row, and prints the banner; it stops at the first failing call. |
| Editor.Editor.RefreshScreen | src/editor.rs:48-62 | Issues the frame for the current flag (goodbye or normal) under error propagation. When it succeeds, the log has grown by exactly that frame. |
| Term.Issued | src/editor.rs:49-61 | What a run of `?`-propagated calls issues is at most as long as the request, and it is the whole request when no call fails. |
| Term.IssuedUpToFault | src/editor.rs:49-61 | What is issued is the request cut just after its first failing call, or all of it when none fails. |
| Term.IssuedIsPrefix | src/editor.rs:49-61 | What is issued is always a prefix of what was asked for. |
| Term.IssuedAppend | src/editor.rs:49-61 | Issuing two runs in sequence issues the second only when all of the first succeeded. |
| Session.LoopFollowsTrace | src/editor.rs:22-32 | Under any faults, the loop issues the fault-free trace cut at the first failing call. It fails exactly when some call of the trace fails. |
| Session.LoopLatch | src/editor.rs:22-32 | The loop consumes a prefix of the events. The flag it ends with is the latch over exactly those events. |
| Session.LoopQuitEndsWithGoodbye | src/editor.rs:22-32 | A loop that ends by quitting has the flag set, and its last calls are the goodbye frame. |
| Session.LoopWithoutFaults | src/editor.rs:22-32 | With no failing call: a set flag draws only the goodbye frame and quits without reading. Otherwise the loop reads up to and including the first quit key, leaves the rest, and quits. With no quit key it reads everything and then waits. |
| Session.LoopKeepsMode | src/editor.rs:22-32 | The loop never initialises or terminates the terminal, whichever calls fail. |
| Session.TraceClosedForm | src/editor.rs:22-32 | Without faults, the loop is one running frame and one read per event, up to and including the first quit key, and then the goodbye frame exactly once. With no quit key it is one frame and read per event, plus one more frame and read that waits. |
| Session.LoopShownBeforeRead | src/editor.rs:22-32 | Whichever calls fail, every read the loop makes comes right after a show of the cursor and a flush. This holds for any running frame that ends with show and flush, with neither frame reading. |
| Session.FramesShowAndDoNotRead | src/editor.rs:48-62 | The running frame ends with show cursor then flush, and neither frame reads input. |
| Session.SessionShownBeforeRead | src/editor.rs:15-32 | Whichever calls fail, no read in a whole session happens while the cursor is hidden: each read comes right after a show and a flush. |
| Session.CursorLeftHidden | src/editor.rs:48-62 | If only the size query fails, the session log is initialise, hide, size query, terminate, and it ends in a panic on the loop's error. No show of the cursor is issued, so the cursor stays hidden. |
| Editor.Editor.Repl | src/editor.rs:22-32 | Its outcome, final flag, remaining input and log are exactly those of the loop specification from the current state. |
| Session.SessionBracketed | src/editor.rs:15-20 | A session initialises first and only once. It terminates at most once, as its last call, and does so exactly when initialisation succeeded and the loop returned, with success or with an error. It panics at initialisation exactly when that call fails. |
| Session.SessionQuits | src/editor.rs:15-32 | With no failing call and a quit key in the input, a session is: initialise, the loop up to the first quit key ending in the goodbye frame, terminate. It finishes normally with the flag set. |
| Editor.Editor.Run | src/editor.rs:15-20 | Its exit, final flag, remaining input and log are exactly those of the session specification. A failed initialisation panics before the loop. A failed termination panics before the loop's own error is looked at. |

## Left out

- The terminal submodule (`mod terminal`, declared at src/editor.rs:3-4) is not part of
  this model. Its functions are modelled as single recorded calls on `Term.Terminal`
  that succeed or fail. Raw mode, escape sequences, output queueing and what a flush writes
  to the device are not modelled.
- Screen contents are not modelled: a frame is the sequence of calls, not the characters
  that end up on screen. A banner wider than the terminal is moved to column 0 but is not
  shown being clipped.
- The blocking read is modelled on a finite queue of events. When the queue is empty the
  real program would wait for ever. The loop then returns `Starved`, and `Run` returns
  `Waiting` without terminating.
- Panics (`unwrap` on an error) are modelled as `Exit` values. Process abort, unwinding and
  the error value's contents are not modelled; there is a single I/O error kind.
- The terminal size is a constant of the `Terminal`. The source queries it twice per frame
  (in `draw_rows` and in `draw_welcone`), and a resize between or during frames is not
  modelled.
- Input events other than keys (mouse, resize, paste, focus) are collapsed into one value
  `Other`, and key codes other than characters into `NonCharKey`. The source ignores all
  of them either way.
- The message length cast `message.len() as u16` is the constant 26; a message longer than
  65535 characters cannot occur.

Behaviour of the code worth knowing:

- `run` unwraps `terminate()` before the loop's result (src/editor.rs:18-19). So when both
  fail, the termination failure ends the process (`TerminatePanic`) and the loop's error is
  never surfaced.
- `evaluate_event` ignores the key kind (`..`, src/editor.rs:35-37). So a release or repeat
  of Ctrl+q quits as well as a press.
- A frame that fails after hiding the cursor leaves it hidden, because `?` skips the
  `show_cursor` at src/editor.rs:59. With only the size query failing, the session is
  initialise, hide, size query, terminate, and then a panic on the loop's error. No show of
  the cursor is ever issued (`Session.CursorLeftHidden`). Only the terminal's own teardown
  could restore it. A read never happens while the cursor is hidden
  (`Session.SessionShownBeforeRead`), because a failing frame ends the loop before the read.
