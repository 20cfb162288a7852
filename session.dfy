/** The editor's behaviour over a whole session, as functions: which key
    quits, how the quit latch evolves over a run of events, the commands the
    read-evaluate-render loop sends, and how `run` brackets that loop with the
    terminal's initialisation and termination. */
module Session {
  import opened Input
  import opened Term
  import opened Render

  /** The one key that quits: the character q with exactly the control
      modifier. The key's kind (press, repeat, release) is not looked at. */
  predicate IsQuitKey(e: Event) {
    e.Key? && e.code == Char('q') && e.modifiers == {Control}
  }

  /** Extra modifiers, a missing control, another character or a non-key
      event do not quit; a release of Ctrl+q does. */
  lemma QuitKeyIsExact()
    ensures IsQuitKey(Key(Char('q'), {Control}, Press))
    ensures IsQuitKey(Key(Char('q'), {Control}, Release))
    ensures !IsQuitKey(Key(Char('q'), {Control, Shift}, Press))
    ensures !IsQuitKey(Key(Char('q'), {}, Press))
    ensures !IsQuitKey(Key(Char('Q'), {Control}, Press))
    ensures !IsQuitKey(Other)
  {
    assert Shift in {Control, Shift};
  }

  /** The quit flag after evaluating `events` in turn, starting from `quit`. */
  function Latch(quit: bool, events: seq<Event>): bool
    decreases |events|
  {
    if events == [] then quit else Latch(quit || IsQuitKey(events[0]), events[1..])
  }

  /** The flag ends up set exactly when it was set already or one of the
      events is the quit key; so once set it stays set, and events other than
      the quit key leave it as it was. */
  lemma {:induction false} LatchIff(quit: bool, events: seq<Event>)
    ensures Latch(quit, events) <==> quit || exists i :: 0 <= i < |events| && IsQuitKey(events[i])
    decreases |events|
  {
    if events != [] {
      LatchIff(quit || IsQuitKey(events[0]), events[1..]);
      if exists i :: 0 <= i < |events| && IsQuitKey(events[i]) {
        var i :| 0 <= i < |events| && IsQuitKey(events[i]);
        if i > 0 {
          assert IsQuitKey(events[1..][i - 1]);
        }
      }
    }
  }

  /** Position of the first quit key in `events`, or |events| if there is none. */
  function FirstQuit(events: seq<Event>): (k: nat)
    decreases |events|
    ensures k <= |events|
    ensures forall i :: 0 <= i < k ==> !IsQuitKey(events[i])
    ensures k < |events| ==> IsQuitKey(events[k])
  {
    if events == [] || IsQuitKey(events[0]) then 0 else 1 + FirstQuit(events[1..])
  }

  /** How the read-evaluate-render loop ends: after the goodbye frame, on an
      I/O error, or waiting for an event that never comes. */
  datatype Outcome = Quit | Failed | Starved

  /* The loop below is stated for any two frames: `normal` is what a render
     sends while running and `goodbye` what it sends once quitting. The size
     of the terminal does not change, so for a given terminal both are fixed:
     Frame(false, cols, rows) and Frame(true, cols, rows). */

  /** Every call the loop makes when no call fails: a frame, then, unless
      quitting, a read; the event read is evaluated and the loop goes on. */
  function ReplTrace(quit: bool, events: seq<Event>, normal: seq<Cmd>, goodbye: seq<Cmd>): seq<Cmd>
    decreases |events|
  {
    if quit then goodbye
    else normal + ([ReadEvent] + if events == [] then [] else ReplTrace(IsQuitKey(events[0]), events[1..], normal, goodbye))
  }

  /** `s` repeated k times. */
  function Rep(s: seq<Cmd>, k: nat): seq<Cmd>
    decreases k
  {
    if k == 0 then [] else s + Rep(s, k - 1)
  }

  /** The fault-free loop in closed form: one running frame and one read per
      event up to and including the first quit key, then the goodbye frame
      once; with no quit key, one frame and read per event and one more
      frame and read that waits. */
  lemma {:induction false} TraceClosedForm(events: seq<Event>, normal: seq<Cmd>, goodbye: seq<Cmd>)
    ensures var t := ReplTrace(false, events, normal, goodbye);
      var k := FirstQuit(events);
      (k < |events| ==> t == Rep(normal + [ReadEvent], k + 1) + goodbye) &&
      (k == |events| ==> t == Rep(normal + [ReadEvent], |events| + 1))
    decreases |events|
  {
    var r := normal + [ReadEvent];
    if events == [] {
      assert ReplTrace(false, events, normal, goodbye) == r + [];
    } else {
      var t := ReplTrace(false, events, normal, goodbye);
      var x := ReplTrace(IsQuitKey(events[0]), events[1..], normal, goodbye);
      assert t == r + x;
      if IsQuitKey(events[0]) {
        assert x == goodbye;
        assert Rep(r, 1) == r + [];
      } else {
        TraceClosedForm(events[1..], normal, goodbye);
        var k := FirstQuit(events[1..]);
        if k < |events| - 1 {
          assert r + (Rep(r, k + 1) + goodbye) == Rep(r, k + 2) + goodbye;
        }
      }
    }
  }

  /** Where the loop stops, with the flag, the unread events and the calls made. */
  datatype LoopEnd = LoopEnd(outcome: Outcome, quit: bool, rest: seq<Event>, cmds: seq<Cmd>)

  /** The loop run from log position n with the given faulty calls: render,
      stop if quitting, read an event, evaluate it, repeat; any failing call
      ends the loop with an error at once. */
  function Loop(quit: bool, events: seq<Event>, faults: set<nat>, n: nat,
                normal: seq<Cmd>, goodbye: seq<Cmd>): LoopEnd
    decreases |events|
  {
    var frame := if quit then goodbye else normal;
    if !Clean(n, faults, |frame|) then LoopEnd(Failed, quit, events, Issued(n, faults, frame))
    else if quit then LoopEnd(Quit, quit, events, frame)
    else if n + |frame| in faults then LoopEnd(Failed, quit, events, frame + [ReadEvent])
    else if events == [] then LoopEnd(Starved, quit, events, frame + [ReadEvent])
    else
      var next := Loop(IsQuitKey(events[0]), events[1..], faults, n + |frame| + 1, normal, goodbye);
      next.(cmds := frame + [ReadEvent] + next.cmds)
  }

  /** Issuing a frame followed by a read and more calls: the frame up to its
      failure, or the frame and the read if the read fails, or the frame, the
      read and then the rest issued from the next position. */
  lemma IssuedFrameThenRead(n: nat, faults: set<nat>, frame: seq<Cmd>, x: seq<Cmd>)
    ensures Issued(n, faults, frame + ([ReadEvent] + x)) ==
            if !Clean(n, faults, |frame|) then Issued(n, faults, frame)
            else if n + |frame| in faults then frame + [ReadEvent]
            else frame + [ReadEvent] + Issued(n + |frame| + 1, faults, x)
    ensures Clean(n, faults, |frame + ([ReadEvent] + x)|) <==>
            Clean(n, faults, |frame|) && n + |frame| !in faults && Clean(n + |frame| + 1, faults, |x|)
  {
    IssuedAppend(n, faults, frame, [ReadEvent] + x);
    CleanSplit(n, faults, |frame|, 1 + |x|);
    CleanSplit(n + |frame|, faults, 1, |x|);
    assert ([ReadEvent] + x)[0] == ReadEvent && ([ReadEvent] + x)[1..] == x;
  }

  /** With faults, the loop makes exactly the fault-free calls up to and
      including the first failing one, and it fails exactly when one of them
      fails. */
  lemma {:induction false} LoopFollowsTrace(quit: bool, events: seq<Event>, faults: set<nat>, n: nat,
                                            normal: seq<Cmd>, goodbye: seq<Cmd>)
    ensures var t := ReplTrace(quit, events, normal, goodbye);
      var l := Loop(quit, events, faults, n, normal, goodbye);
      l.cmds == Issued(n, faults, t) && (l.outcome == Failed <==> !Clean(n, faults, |t|))
    decreases |events|, 1
  {
    if quit {
      assert ReplTrace(quit, events, normal, goodbye) == goodbye;
    } else if Clean(n, faults, |normal|) && n + |normal| !in faults && events != [] {
      LoopFollowsTraceStep(events, faults, n, normal, goodbye);
    } else {
      LoopFollowsTraceStop(events, faults, n, normal, goodbye);
    }
  }

  /** The case of LoopFollowsTrace where the frame or the read fails, or
      no event is left. */
  lemma LoopFollowsTraceStop(events: seq<Event>, faults: set<nat>, n: nat, normal: seq<Cmd>, goodbye: seq<Cmd>)
    requires !(Clean(n, faults, |normal|) && n + |normal| !in faults && events != [])
    ensures var t := ReplTrace(false, events, normal, goodbye);
      var l := Loop(false, events, faults, n, normal, goodbye);
      l.cmds == Issued(n, faults, t) && (l.outcome == Failed <==> !Clean(n, faults, |t|))
  {
    var x := if events == [] then [] else ReplTrace(IsQuitKey(events[0]), events[1..], normal, goodbye);
    assert ReplTrace(false, events, normal, goodbye) == normal + ([ReadEvent] + x);
    IssuedFrameThenRead(n, faults, normal, x);
  }

  /** The case of LoopFollowsTrace where the frame and the read succeed. */
  lemma {:induction false} LoopFollowsTraceStep(events: seq<Event>, faults: set<nat>, n: nat,
                                                normal: seq<Cmd>, goodbye: seq<Cmd>)
    requires Clean(n, faults, |normal|) && n + |normal| !in faults && events != []
    ensures var t := ReplTrace(false, events, normal, goodbye);
      var l := Loop(false, events, faults, n, normal, goodbye);
      l.cmds == Issued(n, faults, t) && (l.outcome == Failed <==> !Clean(n, faults, |t|))
    decreases |events|, 0
  {
    var x := ReplTrace(IsQuitKey(events[0]), events[1..], normal, goodbye);
    TraceStep(events, normal, goodbye);
    IssuedFrameThenRead(n, faults, normal, x);
    LoopStep(events, faults, n, normal, goodbye);
    LoopFollowsTrace(IsQuitKey(events[0]), events[1..], faults, n + |normal| + 1, normal, goodbye);
  }

  /** One round of the fault-free loop that reads an event. */
  lemma TraceStep(events: seq<Event>, normal: seq<Cmd>, goodbye: seq<Cmd>)
    requires events != []
    ensures ReplTrace(false, events, normal, goodbye) ==
            normal + ([ReadEvent] + ReplTrace(IsQuitKey(events[0]), events[1..], normal, goodbye))
  {
  }

  /** One round of the loop whose frame and read succeed. */
  lemma LoopStep(events: seq<Event>, faults: set<nat>, n: nat, normal: seq<Cmd>, goodbye: seq<Cmd>)
    requires Clean(n, faults, |normal|) && n + |normal| !in faults && events != []
    ensures var next := Loop(IsQuitKey(events[0]), events[1..], faults, n + |normal| + 1, normal, goodbye);
      Loop(false, events, faults, n, normal, goodbye) == next.(cmds := normal + [ReadEvent] + next.cmds)
  {
  }

  /** The ways the loop ends in its first round, seen from the log it
      extends: a failing frame, the goodbye frame, a failing read, or no
      event left to read. */
  lemma LoopEndsLog(before: seq<Cmd>, quit: bool, events: seq<Event>, faults: set<nat>,
                    normal: seq<Cmd>, goodbye: seq<Cmd>)
    ensures var frame := if quit then goodbye else normal;
      var l := Loop(quit, events, faults, |before|, normal, goodbye);
      var read := before + normal + [ReadEvent];
      (!Clean(|before|, faults, |frame|) ==>
         l.outcome == Failed && l.quit == quit && l.rest == events &&
         before + l.cmds == before + Issued(|before|, faults, frame)) &&
      (Clean(|before|, faults, |frame|) && quit ==>
         l.outcome == Quit && l.quit && l.rest == events && before + l.cmds == before + frame) &&
      (Clean(|before|, faults, |frame|) && !quit && |before| + |normal| in faults ==>
         l.outcome == Failed && !l.quit && l.rest == events && before + l.cmds == read) &&
      (Clean(|before|, faults, |frame|) && !quit && |before| + |normal| !in faults && events == [] ==>
         l.outcome == Starved && !l.quit && l.rest == events && before + l.cmds == read)
  {
    AppendAssoc(before, normal, [ReadEvent], []);
  }

  /** One round of the loop as seen from the log: once a frame and a read
      have succeeded and the event read has been evaluated, what is left to
      do is the loop from the new position with the new flag. */
  lemma ReplRound(before: seq<Cmd>, log: seq<Cmd>, events: seq<Event>, rest: seq<Event>, quit: bool,
                  faults: set<nat>, normal: seq<Cmd>, goodbye: seq<Cmd>)
    requires Clean(|before|, faults, |normal|) && |before| + |normal| !in faults && events != []
    requires log == before + normal + [ReadEvent] && rest == events[1..] && quit == IsQuitKey(events[0])
    ensures var cur := Loop(false, events, faults, |before|, normal, goodbye);
      var next := Loop(quit, rest, faults, |log|, normal, goodbye);
      cur.outcome == next.outcome && cur.quit == next.quit && cur.rest == next.rest &&
      before + cur.cmds == log + next.cmds
  {
    LoopStep(events, faults, |before|, normal, goodbye);
    assert |log| == |before| + |normal| + 1;
    var next := Loop(quit, rest, faults, |log|, normal, goodbye);
    AppendAssoc(before, normal, [ReadEvent], next.cmds);
  }

  /** The loop consumes a prefix of the events, and the flag it ends with is
      the latch over exactly the events it consumed. */
  lemma {:induction false} LoopLatch(quit: bool, events: seq<Event>, faults: set<nat>, n: nat,
                                     normal: seq<Cmd>, goodbye: seq<Cmd>)
    ensures var l := Loop(quit, events, faults, n, normal, goodbye);
      var m := |events| - |l.rest|;
      0 <= m && l.rest == events[m..] && l.quit == Latch(quit, events[..m])
    decreases |events|, 1
  {
    if Clean(n, faults, |normal|) && !quit && n + |normal| !in faults && events != [] {
      LoopLatchStep(events, faults, n, normal, goodbye);
    } else {
      assert events[..0] == [];
    }
  }

  /** The case of LoopLatch where the frame and the read succeed. */
  lemma {:induction false} LoopLatchStep(events: seq<Event>, faults: set<nat>, n: nat,
                                         normal: seq<Cmd>, goodbye: seq<Cmd>)
    requires Clean(n, faults, |normal|) && n + |normal| !in faults && events != []
    ensures var l := Loop(false, events, faults, n, normal, goodbye);
      var m := |events| - |l.rest|;
      0 <= m && l.rest == events[m..] && l.quit == Latch(false, events[..m])
    decreases |events|, 0
  {
    var e := events[0];
    var tail := events[1..];
    LoopStep(events, faults, n, normal, goodbye);
    LoopLatch(IsQuitKey(e), tail, faults, n + |normal| + 1, normal, goodbye);
    var next := Loop(IsQuitKey(e), tail, faults, n + |normal| + 1, normal, goodbye);
    var m := |events| - |next.rest|;
    assert tail[m - 1..] == events[m..];
    assert events[..m][0] == e && events[..m][1..] == tail[..m - 1];
  }

  /** A loop that ends by quitting has just drawn the goodbye frame, and the
      flag is set. */
  lemma {:induction false} LoopQuitEndsWithGoodbye(quit: bool, events: seq<Event>, faults: set<nat>, n: nat,
                                                   normal: seq<Cmd>, goodbye: seq<Cmd>)
    ensures var l := Loop(quit, events, faults, n, normal, goodbye);
      l.outcome == Quit ==>
        l.quit && |l.cmds| >= |goodbye| && l.cmds[|l.cmds| - |goodbye|..] == goodbye
    decreases |events|, 1
  {
    if Clean(n, faults, |normal|) && !quit && n + |normal| !in faults && events != [] {
      LoopQuitEndsWithGoodbyeStep(events, faults, n, normal, goodbye);
    }
  }

  /** The case of LoopQuitEndsWithGoodbye where the frame and the read succeed. */
  lemma {:induction false} LoopQuitEndsWithGoodbyeStep(events: seq<Event>, faults: set<nat>, n: nat,
                                                       normal: seq<Cmd>, goodbye: seq<Cmd>)
    requires Clean(n, faults, |normal|) && n + |normal| !in faults && events != []
    ensures var l := Loop(false, events, faults, n, normal, goodbye);
      l.outcome == Quit ==>
        l.quit && |l.cmds| >= |goodbye| && l.cmds[|l.cmds| - |goodbye|..] == goodbye
    decreases |events|, 0
  {
    LoopStep(events, faults, n, normal, goodbye);
    var next := Loop(IsQuitKey(events[0]), events[1..], faults, n + |normal| + 1, normal, goodbye);
    LoopQuitEndsWithGoodbye(IsQuitKey(events[0]), events[1..], faults, n + |normal| + 1, normal, goodbye);
    var a := normal + [ReadEvent];
    if next.outcome == Quit {
      assert (a + next.cmds)[|a + next.cmds| - |goodbye|..] == next.cmds[|next.cmds| - |goodbye|..];
    }
  }

  /** When no call fails: starting from a set flag the loop draws the
      goodbye frame and stops without reading; otherwise it reads events up
      to and including the first quit key and stops after the goodbye frame,
      or, with no quit key, reads every event and then waits. */
  lemma {:induction false} LoopWithoutFaults(quit: bool, events: seq<Event>, faults: set<nat>, n: nat,
                                             normal: seq<Cmd>, goodbye: seq<Cmd>)
    requires Clean(n, faults, |ReplTrace(quit, events, normal, goodbye)|)
    ensures var l := Loop(quit, events, faults, n, normal, goodbye);
      var k := FirstQuit(events);
      l.cmds == ReplTrace(quit, events, normal, goodbye) &&
      (quit ==> l.outcome == Quit && l.rest == events && l.cmds == goodbye) &&
      (!quit && k < |events| ==> l.outcome == Quit && l.quit && l.rest == events[k + 1..]) &&
      (!quit && k == |events| ==> l.outcome == Starved && !l.quit && l.rest == [])
    decreases |events|, 1
  {
    LoopFollowsTrace(quit, events, faults, n, normal, goodbye);
    if !quit {
      var x := if events == [] then [] else ReplTrace(IsQuitKey(events[0]), events[1..], normal, goodbye);
      assert ReplTrace(quit, events, normal, goodbye) == normal + ([ReadEvent] + x);
      IssuedFrameThenRead(n, faults, normal, x);
      if events != [] {
        LoopWithoutFaultsStep(events, faults, n, normal, goodbye);
      }
    }
  }

  /** The case of LoopWithoutFaults where an event is read. */
  lemma {:induction false} LoopWithoutFaultsStep(events: seq<Event>, faults: set<nat>, n: nat,
                                                 normal: seq<Cmd>, goodbye: seq<Cmd>)
    requires events != []
    requires Clean(n, faults, |normal|) && n + |normal| !in faults
    requires Clean(n + |normal| + 1, faults, |ReplTrace(IsQuitKey(events[0]), events[1..], normal, goodbye)|)
    ensures var l := Loop(false, events, faults, n, normal, goodbye);
      var k := FirstQuit(events);
      (k < |events| ==> l.outcome == Quit && l.quit && l.rest == events[k + 1..]) &&
      (k == |events| ==> l.outcome == Starved && !l.quit && l.rest == [])
    decreases |events|, 0
  {
    LoopStep(events, faults, n, normal, goodbye);
    LoopWithoutFaults(IsQuitKey(events[0]), events[1..], faults, n + |normal| + 1, normal, goodbye);
    if !IsQuitKey(events[0]) {
      var k := FirstQuit(events[1..]);
      if k < |events| - 1 {
        assert events[1..][k + 1..] == events[k + 2..];
      }
    }
  }

  /** No command in the sequence switches the terminal mode. */
  predicate KeepsMode(cmds: seq<Cmd>) {
    forall i :: 0 <= i < |cmds| ==> !cmds[i].Initialize? && !cmds[i].Terminate?
  }

  /** If neither frame switches the terminal mode, neither does the loop. */
  lemma {:induction false} TraceKeepsMode(quit: bool, events: seq<Event>, normal: seq<Cmd>, goodbye: seq<Cmd>)
    requires KeepsMode(normal) && KeepsMode(goodbye)
    ensures KeepsMode(ReplTrace(quit, events, normal, goodbye))
    decreases |events|
  {
    if !quit {
      var x := if events == [] then [] else ReplTrace(IsQuitKey(events[0]), events[1..], normal, goodbye);
      if events != [] {
        TraceKeepsMode(IsQuitKey(events[0]), events[1..], normal, goodbye);
      }
      var t := normal + ([ReadEvent] + x);
      forall i | 0 <= i < |t|
        ensures !t[i].Initialize? && !t[i].Terminate?
      {
        if i > |normal| {
          assert t[i] == x[i - |normal| - 1];
        }
      }
    }
  }

  /** Rendered frames never switch the terminal mode. */
  lemma FramesKeepMode(quit: bool, cols: u16, rows: u16)
    ensures KeepsMode(Frame(quit, cols, rows))
  {
    FrameOnlyDraws(quit, cols, rows);
  }

  /** How `run` ends. Each panic names the `unwrap` that fires; `Waiting`
      means the loop is still blocked in a read, so `run` has not returned. */
  datatype Exit = Finished | InitPanic | LoopPanic | TerminatePanic | Waiting

  datatype SessionEnd = SessionEnd(exit: Exit, quit: bool, rest: seq<Event>, cmds: seq<Cmd>)

  /** `run` from log position n: initialise, run the loop, terminate, and only
      then look at the loop's result. A failed initialisation stops at once; a
      failed termination panics before the loop's result is examined. */
  function RunSession(quit: bool, events: seq<Event>, faults: set<nat>, n: nat,
                      normal: seq<Cmd>, goodbye: seq<Cmd>): SessionEnd
  {
    if n in faults then SessionEnd(InitPanic, quit, events, [Initialize])
    else
      var l := Loop(quit, events, faults, n + 1, normal, goodbye);
      if l.outcome == Starved then SessionEnd(Waiting, l.quit, l.rest, [Initialize] + l.cmds)
      else
        var exit := if n + 1 + |l.cmds| in faults then TerminatePanic
                    else if l.outcome == Failed then LoopPanic
                    else Finished;
        SessionEnd(exit, l.quit, l.rest, [Initialize] + l.cmds + [Terminate])
  }

  /** A session seen from the log it extends: the log after initialising,
      after the loop and after terminating, and how each call's success
      decides the end. */
  lemma RunSessionLog(log0: seq<Cmd>, quit: bool, events: seq<Event>, faults: set<nat>,
                      normal: seq<Cmd>, goodbye: seq<Cmd>)
    ensures var s := RunSession(quit, events, faults, |log0|, normal, goodbye);
      var log1 := log0 + [Initialize];
      var l := Loop(quit, events, faults, |log1|, normal, goodbye);
      var log2 := log1 + l.cmds;
      (|log0| in faults ==> s.exit == InitPanic && s.quit == quit && s.rest == events && log0 + s.cmds == log1) &&
      (|log0| !in faults && l.outcome == Starved ==>
         s.exit == Waiting && s.quit == l.quit && s.rest == l.rest && log0 + s.cmds == log2) &&
      (|log0| !in faults && l.outcome != Starved ==>
         s.exit == (if |log2| in faults then TerminatePanic else if l.outcome == Failed then LoopPanic else Finished) &&
         s.quit == l.quit && s.rest == l.rest && log0 + s.cmds == log2 + [Terminate])
  {
    var log1 := log0 + [Initialize];
    var l := Loop(quit, events, faults, |log1|, normal, goodbye);
    AppendAssoc(log0, [Initialize], l.cmds, [Terminate]);
  }

  /** If neither frame switches the terminal mode, neither does the loop,
      whichever calls fail. */
  lemma LoopKeepsMode(quit: bool, events: seq<Event>, faults: set<nat>, n: nat,
                      normal: seq<Cmd>, goodbye: seq<Cmd>)
    requires KeepsMode(normal) && KeepsMode(goodbye)
    ensures KeepsMode(Loop(quit, events, faults, n, normal, goodbye).cmds)
  {
    var t := ReplTrace(quit, events, normal, goodbye);
    var l := Loop(quit, events, faults, n, normal, goodbye);
    LoopFollowsTrace(quit, events, faults, n, normal, goodbye);
    TraceKeepsMode(quit, events, normal, goodbye);
    IssuedIsPrefix(n, faults, t);
    assert l.cmds == t[..|l.cmds|];
  }

  /** A session initialises first and only once; it terminates at most once,
      as its last call, and does so exactly when initialisation succeeded and
      the loop returned, whether with success or with an error. */
  lemma SessionBracketed(quit: bool, events: seq<Event>, faults: set<nat>, n: nat,
                         normal: seq<Cmd>, goodbye: seq<Cmd>)
    requires KeepsMode(normal) && KeepsMode(goodbye)
    ensures var s := RunSession(quit, events, faults, n, normal, goodbye);
      |s.cmds| >= 1 && s.cmds[0] == Initialize &&
      (forall i :: 0 < i < |s.cmds| ==> !s.cmds[i].Initialize?) &&
      (forall i :: 0 <= i < |s.cmds| - 1 ==> !s.cmds[i].Terminate?) &&
      (s.exit == InitPanic <==> n in faults) &&
      (s.cmds[|s.cmds| - 1] == Terminate <==> s.exit in {Finished, LoopPanic, TerminatePanic})
  {
    if n !in faults {
      var l := Loop(quit, events, faults, n + 1, normal, goodbye);
      LoopKeepsMode(quit, events, faults, n + 1, normal, goodbye);
      var c := [Initialize] + l.cmds;
      assert forall i :: 0 < i < |c| ==> c[i] == l.cmds[i - 1];
      if l.outcome != Starved {
        var d := c + [Terminate];
        assert forall i :: 0 <= i < |c| ==> d[i] == c[i];
      }
    }
  }

  /** When no call fails and the events hold a quit key, `run` initialises,
      runs the fault-free loop up to the first quit key, ends its last frame
      with the goodbye frame, terminates and finishes normally. */
  lemma SessionQuits(events: seq<Event>, faults: set<nat>, n: nat, normal: seq<Cmd>, goodbye: seq<Cmd>)
    requires FirstQuit(events) < |events|
    requires Clean(n, faults, |ReplTrace(false, events, normal, goodbye)| + 2)
    ensures var s := RunSession(false, events, faults, n, normal, goodbye);
      var t := ReplTrace(false, events, normal, goodbye);
      s.exit == Finished && s.quit && s.rest == events[FirstQuit(events) + 1..] &&
      s.cmds == [Initialize] + t + [Terminate] &&
      |t| >= |goodbye| && t[|t| - |goodbye|..] == goodbye
  {
    var t := ReplTrace(false, events, normal, goodbye);
    CleanSplit(n, faults, 1, |t| + 1);
    CleanSplit(n + 1, faults, |t|, 1);
    LoopWithoutFaults(false, events, faults, n + 1, normal, goodbye);
    LoopQuitEndsWithGoodbye(false, events, faults, n + 1, normal, goodbye);
  }

  /** Every read is immediately preceded by a show of the cursor and a
      flush, so the cursor is visible whenever the editor waits for input. */
  predicate ShownBeforeRead(t: seq<Cmd>) {
    forall i :: 0 <= i < |t| && t[i] == ReadEvent ==> i >= 2 && t[i - 2] == ShowCursor && t[i - 1] == Execute
  }

  /** The sequence ends by showing the cursor and flushing. */
  predicate EndsShown(f: seq<Cmd>) {
    |f| >= 2 && f[|f| - 2] == ShowCursor && f[|f| - 1] == Execute
  }

  /** The sequence does not read input. */
  predicate NoRead(f: seq<Cmd>) {
    forall i :: 0 <= i < |f| ==> f[i] != ReadEvent
  }

  /** When the running frame ends with show and flush and neither frame
      reads, every read of the fault-free loop comes right after a show and
      a flush. */
  lemma {:induction false} TraceShownBeforeRead(quit: bool, events: seq<Event>, normal: seq<Cmd>, goodbye: seq<Cmd>)
    requires EndsShown(normal) && NoRead(normal) && NoRead(goodbye)
    ensures ShownBeforeRead(ReplTrace(quit, events, normal, goodbye))
    decreases |events|
  {
    if !quit {
      var x := if events == [] then [] else ReplTrace(IsQuitKey(events[0]), events[1..], normal, goodbye);
      if events != [] {
        TraceShownBeforeRead(IsQuitKey(events[0]), events[1..], normal, goodbye);
      }
      var t := normal + ([ReadEvent] + x);
      forall i | 0 <= i < |t|
        ensures t[i] == ReadEvent ==> i >= 2 && t[i - 2] == ShowCursor && t[i - 1] == Execute
      {
        if i < |normal| {
          assert t[i] == normal[i];
        } else if i == |normal| {
          assert t[i - 2] == normal[|normal| - 2] && t[i - 1] == normal[|normal| - 1];
        } else {
          var j := i - |normal| - 1;
          assert t[i] == x[j];
          if j >= 2 {
            assert t[i - 2] == x[j - 2] && t[i - 1] == x[j - 1];
          }
        }
      }
    }
  }

  /** A prefix of a log whose reads follow a show and a flush has the same
      property. */
  lemma ShownBeforeReadPrefix(t: seq<Cmd>, p: seq<Cmd>)
    requires ShownBeforeRead(t) && p <= t
    ensures ShownBeforeRead(p)
  {
    forall i | 0 <= i < |p|
      ensures p[i] == ReadEvent ==> i >= 2 && p[i - 2] == ShowCursor && p[i - 1] == Execute
    {
      assert p[i] == t[i];
      if i >= 2 {
        assert p[i - 2] == t[i - 2] && p[i - 1] == t[i - 1];
      }
    }
  }

  /** Whichever calls fail, every read the loop makes comes right after a
      show of the cursor and a flush: a failing frame ends the loop before
      the read that would follow it. */
  lemma LoopShownBeforeRead(quit: bool, events: seq<Event>, faults: set<nat>, n: nat,
                            normal: seq<Cmd>, goodbye: seq<Cmd>)
    requires EndsShown(normal) && NoRead(normal) && NoRead(goodbye)
    ensures ShownBeforeRead(Loop(quit, events, faults, n, normal, goodbye).cmds)
  {
    var t := ReplTrace(quit, events, normal, goodbye);
    LoopFollowsTrace(quit, events, faults, n, normal, goodbye);
    TraceShownBeforeRead(quit, events, normal, goodbye);
    IssuedIsPrefix(n, faults, t);
    ShownBeforeReadPrefix(t, Loop(quit, events, faults, n, normal, goodbye).cmds);
  }

  /** The editor's frames end with show and flush and never read. */
  lemma FramesShowAndDoNotRead(cols: u16, rows: u16)
    ensures EndsShown(Frame(false, cols, rows))
    ensures NoRead(Frame(false, cols, rows)) && NoRead(Frame(true, cols, rows))
  {
    FrameBracketed(false, cols, rows);
    FrameOnlyDraws(false, cols, rows);
    FrameOnlyDraws(true, cols, rows);
  }

  /** Whichever calls fail, no read of a whole session happens while the
      cursor is hidden: each one comes right after a show and a flush. */
  lemma SessionShownBeforeRead(quit: bool, events: seq<Event>, faults: set<nat>, n: nat, cols: u16, rows: u16)
    ensures ShownBeforeRead(RunSession(quit, events, faults, n, Frame(false, cols, rows), Frame(true, cols, rows)).cmds)
  {
    var normal, goodbye := Frame(false, cols, rows), Frame(true, cols, rows);
    FramesShowAndDoNotRead(cols, rows);
    if n !in faults {
      var m := Loop(quit, events, faults, n + 1, normal, goodbye).cmds;
      LoopShownBeforeRead(quit, events, faults, n + 1, normal, goodbye);
      var c := [Initialize] + m;
      forall i | 0 <= i < |c|
        ensures c[i] == ReadEvent ==> i >= 2 && c[i - 2] == ShowCursor && c[i - 1] == Execute
      {
        if i >= 1 {
          assert c[i] == m[i - 1];
          if i >= 3 {
            assert c[i - 2] == m[i - 3] && c[i - 1] == m[i - 2];
          }
        }
      }
      var d := c + [Terminate];
      assert d[|d| - 1] == Terminate;
      forall i | 0 <= i < |d|
        ensures d[i] == ReadEvent ==> i >= 2 && d[i - 2] == ShowCursor && d[i - 1] == Execute
      {
        if i < |c| {
          assert d[i] == c[i];
          if i >= 2 {
            assert d[i - 2] == c[i - 2] && d[i - 1] == c[i - 1];
          }
        }
      }
    }
  }

  /** A frame that fails right after hiding the cursor leaves it hidden: with
      the size query as the only failing call, the session initialises,
      hides the cursor, queries the size, terminates and then panics on the
      loop's error, and no show of the cursor is ever issued. */
  lemma CursorLeftHidden(events: seq<Event>, cols: u16, rows: u16)
    ensures var s := RunSession(false, events, {2}, 0, Frame(false, cols, rows), Frame(true, cols, rows));
      s.exit == LoopPanic && s.cmds == [Initialize, HideCursor, Size, Terminate] &&
      forall i :: 0 <= i < |s.cmds| ==> s.cmds[i] != ShowCursor
  {
    var f := Frame(false, cols, rows);
    NormalFrameEnds(cols, rows);
    assert f[0] == HideCursor && f[1] == Size;
    assert !Clean(1, {2}, |f|);
    assert Issued(1, {2}, f) == [HideCursor] + Issued(2, {2}, f[1..]);
    assert Issued(2, {2}, f[1..]) == [Size];
  }
}
