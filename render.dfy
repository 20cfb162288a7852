/** What one redraw sends to the terminal, as a sequence of commands: the
    filler rows, the welcome banner and its placement, the goodbye frame, and
    the cursor bracketing around all of them. */
module Render {
  import opened Term

  const Message: string := "kilo editor -- version 1.0"
  const Goodbye: string := "Goodbye.\r\n"
  const Tilde: string := "~"

  /** The banner's length as the 16-bit value the placement works with. */
  const MessageLen: u16 := |Message| as u16

  /** Unsigned subtraction that stops at zero instead of wrapping. */
  function SaturatingSub(a: u16, b: u16): (r: u16)
    ensures a >= b ==> r as int == a as int - b as int
    ensures a < b ==> r == 0
  {
    if a >= b then a - b else 0
  }

  /** Column at which the banner starts: half of the room left beside it,
      or 0 when the terminal is narrower than the banner. */
  function BannerCol(cols: u16): (c: u16)
    ensures c <= cols / 2
    ensures cols >= MessageLen ==>
              2 * c as int + MessageLen as int <= cols as int <= 2 * c as int + MessageLen as int + 1
    ensures cols <= MessageLen + 1 ==> c == 0
  {
    SaturatingSub(cols, MessageLen) / 2
  }

  /** Row at which the banner is printed, a third of the way down. */
  function BannerRow(rows: u16): (r: u16)
    ensures 3 * r as int <= rows as int < 3 * r as int + 3
    ensures rows > 0 ==> r < rows
  {
    rows / 3
  }

  /** The placements the banner gets on common terminal sizes. */
  lemma BannerPlacementExamples()
    ensures MessageLen == 26
    ensures BannerCol(80) == 27 && BannerRow(24) == 8
    ensures BannerCol(10) == 0 && BannerCol(27) == 0 && BannerCol(28) == 1
  {
  }

  /** The calls `draw_rows` has made once the first n filler rows are drawn:
      the size query, then for each row, top to bottom, a move to its start,
      a clear of the line and a tilde. RowsSent(rows) is all it sends. */
  function RowsSent(n: u16): (cs: seq<Cmd>)
    decreases n
    ensures |cs| == 3 * n as int + 1 && cs[0] == Size
  {
    if n == 0 then [Size]
    else RowsSent(n - 1) + [MoveTo(0, n - 1)] + [ClearLine] + [Print(Tilde)]
  }

  /** Group r of the filler calls draws row r. */
  lemma {:induction false} RowsAt(n: u16, r: u16)
    requires r < n
    ensures RowsSent(n)[1 + 3 * r as int] == MoveTo(0, r)
    ensures RowsSent(n)[2 + 3 * r as int] == ClearLine
    ensures RowsSent(n)[3 + 3 * r as int] == Print(Tilde)
    decreases n
  {
    if r < n - 1 {
      RowsAt(n - 1, r);
    }
  }

  /** Drawing more rows only appends calls. */
  lemma {:induction false} RowsSentGrow(m: u16, n: u16)
    requires m <= n
    ensures RowsSent(m) <= RowsSent(n)
    decreases n
  {
    if m < n {
      RowsSentGrow(m, n - 1);
      assert RowsSent(n - 1) <= RowsSent(n);
    }
  }

  /** What `draw_welcone` sends: a size query, the move to the banner's
      place and the banner itself. */
  function WelcomeCmds(cols: u16, rows: u16): seq<Cmd> {
    [Size] + [MoveTo(BannerCol(cols), BannerRow(rows))] + [Print(Message)]
  }

  /** What one redraw sends while the cursor is hidden: the hide itself and
      either the goodbye screen or the filler rows, the banner and the move
      back to the top left. */
  function Hidden(quit: bool, cols: u16, rows: u16): seq<Cmd> {
    if quit then [HideCursor] + [ClearScreen] + [MoveTo(0, 0)] + [Print(Goodbye)]
    else [HideCursor] + RowsSent(rows) + WelcomeCmds(cols, rows) + [MoveTo(0, 0)]
  }

  /** Everything one call of `refresh_screen` sends when no call fails. */
  function Frame(quit: bool, cols: u16, rows: u16): seq<Cmd> {
    Hidden(quit, cols, rows) + [ShowCursor] + [Execute]
  }

  /** Commands that only draw: no mode switch and no read. */
  predicate Draws(c: Cmd) {
    !c.Initialize? && !c.Terminate? && !c.ReadEvent?
  }

  /** The quitting frame is exactly: hide, clear, home, goodbye, show, flush. */
  lemma GoodbyeFrame(cols: u16, rows: u16)
    ensures Frame(true, cols, rows) ==
            [HideCursor, ClearScreen, MoveTo(0, 0), Print(Goodbye), ShowCursor, Execute]
  {
  }

  /** A normal frame is the hide, the filler rows with their size query, the
      banner with its own size query, the move home, show and flush. */
  lemma NormalFrameLayout(cols: u16, rows: u16)
    ensures Frame(false, cols, rows) ==
            [HideCursor] + RowsSent(rows) +
            [Size, MoveTo(BannerCol(cols), BannerRow(rows)), Print(Message), MoveTo(0, 0), ShowCursor, Execute]
  {
    var rs := RowsSent(rows);
    var w := WelcomeCmds(cols, rows);
    assert w == [Size, MoveTo(BannerCol(cols), BannerRow(rows)), Print(Message)];
    assert Frame(false, cols, rows) == [HideCursor] + rs + w + [MoveTo(0, 0)] + [ShowCursor] + [Execute];
  }

  /** A normal frame draws row r's filler group at 2+3r, for every row. */
  lemma NormalFrameRows(cols: u16, rows: u16)
    ensures var f := Frame(false, cols, rows);
      |f| == 3 * rows as int + 8 &&
      forall r: u16 :: r < rows ==>
        f[2 + 3 * r as int] == MoveTo(0, r) && f[3 + 3 * r as int] == ClearLine &&
        f[4 + 3 * r as int] == Print(Tilde)
  {
    NormalFrameLayout(cols, rows);
    var f := Frame(false, cols, rows);
    var rs := RowsSent(rows);
    assert forall j :: 0 <= j < |rs| ==> f[j + 1] == rs[j];
    forall r: u16 | r < rows
      ensures f[2 + 3 * r as int] == MoveTo(0, r) && f[3 + 3 * r as int] == ClearLine &&
              f[4 + 3 * r as int] == Print(Tilde)
    {
      RowsAt(rows, r);
    }
  }

  /** Around the filler rows a normal frame is: hide and the size query
      first; then the size query again, the banner at the place computed
      from the size, the cursor parked at (0,0), show and flush. */
  lemma NormalFrameEnds(cols: u16, rows: u16)
    ensures var f := Frame(false, cols, rows);
      var m := 3 * rows as int;
      |f| == m + 8 &&
      f[0] == HideCursor && f[1] == Size &&
      f[m + 2] == Size && f[m + 3] == MoveTo(BannerCol(cols), BannerRow(rows)) &&
      f[m + 4] == Print(Message) && f[m + 5] == MoveTo(0, 0) &&
      f[m + 6] == ShowCursor && f[m + 7] == Execute
  {
    NormalFrameLayout(cols, rows);
    var f := Frame(false, cols, rows);
    var rs := RowsSent(rows);
    var head := [HideCursor] + rs;
    var tail := [Size, MoveTo(BannerCol(cols), BannerRow(rows)), Print(Message), MoveTo(0, 0), ShowCursor, Execute];
    assert f == head + tail;
    assert f[1] == head[1] == rs[0];
    var k := |head|;
    assert k == 3 * rows as int + 2;
    assert f[k] == tail[0] && f[k + 1] == tail[1] && f[k + 2] == tail[2];
    assert f[k + 3] == tail[3] && f[k + 4] == tail[4] && f[k + 5] == tail[5];
  }

  /** The first frame on an 80x24 terminal: 24 filler rows, the banner at
      column 27 of row 8, the cursor parked at the top left. */
  lemma FirstFrame80x24()
    ensures var f := Frame(false, 80, 24);
      |f| == 80 && f[2 + 3 * 8] == MoveTo(0, 8) &&
      f[75] == MoveTo(27, 8) && f[76] == Print(Message) && f[77] == MoveTo(0, 0)
  {
    NormalFrameRows(80, 24);
    NormalFrameEnds(80, 24);
  }

  /** Calls that draw without touching the cursor's visibility and without
      flushing: size queries, moves, clears and prints. */
  predicate Plain(c: Cmd) {
    c.Size? || c.MoveTo? || c.ClearScreen? || c.ClearLine? || c.Print?
  }

  /** Drawing the filler rows makes only plain calls. */
  lemma {:induction false} RowsSentPlain(n: u16)
    ensures forall i :: 0 <= i < |RowsSent(n)| ==> Plain(RowsSent(n)[i])
    decreases n
  {
    if n > 0 {
      RowsSentPlain(n - 1);
      var p := RowsSent(n - 1);
      var rs := RowsSent(n);
      assert forall i :: 0 <= i < |p| ==> rs[i] == p[i];
    }
  }

  /** Every frame hides the cursor first and ends with show then flush, and
      everything in between is a plain drawing call. */
  lemma FrameBracketed(quit: bool, cols: u16, rows: u16)
    ensures var f := Frame(quit, cols, rows);
      |f| >= 6 && f[0] == HideCursor && f[|f| - 2] == ShowCursor && f[|f| - 1] == Execute &&
      forall i :: 0 < i < |f| - 2 ==> Plain(f[i])
  {
    if quit {
      GoodbyeFrame(cols, rows);
    } else {
      NormalFrameBracketed(cols, rows);
    }
  }

  lemma NormalFrameBracketed(cols: u16, rows: u16)
    ensures var f := Frame(false, cols, rows);
      |f| >= 6 && f[0] == HideCursor && f[|f| - 2] == ShowCursor && f[|f| - 1] == Execute &&
      forall i :: 0 < i < |f| - 2 ==> Plain(f[i])
  {
    NormalFrameLayout(cols, rows);
    RowsSentPlain(rows);
    var f := Frame(false, cols, rows);
    var rs := RowsSent(rows);
    var head := [HideCursor] + rs;
    var tail := [Size, MoveTo(BannerCol(cols), BannerRow(rows)), Print(Message), MoveTo(0, 0), ShowCursor, Execute];
    assert f == head + tail;
    forall i | 0 < i < |f| - 2
      ensures Plain(f[i])
    {
      if i < |head| {
        assert f[i] == head[i] == rs[i - 1];
      } else {
        assert f[i] == tail[i - |head|];
      }
    }
  }

  /** A frame only draws: it never switches the terminal mode or reads. */
  lemma FrameOnlyDraws(quit: bool, cols: u16, rows: u16)
    ensures forall i :: 0 <= i < |Frame(quit, cols, rows)| ==> Draws(Frame(quit, cols, rows)[i])
  {
    FrameBracketed(quit, cols, rows);
    var f := Frame(quit, cols, rows);
    assert forall i :: 0 < i < |f| - 2 ==> Plain(f[i]);
  }
}
