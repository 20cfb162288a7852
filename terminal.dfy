/** The terminal as an abstract device. Every operation the editor performs
    on it is recorded, in order, as a command in a log; any of those calls can
    fail with an I/O error, and which ones do is fixed in advance by the set of
    log positions `faults`. */
module Term {
  import opened Input

  /** Unsigned 16-bit integers, the type of terminal coordinates and sizes. */
  newtype u16 = x: int | 0 <= x < 0x1_0000

  /** One call into the terminal. `ReadEvent` is the blocking read of the next
      input event. */
  datatype Cmd =
    | Initialize
    | Terminate
    | Size
    | ClearScreen
    | ClearLine
    | MoveTo(col: u16, row: u16)
    | HideCursor
    | ShowCursor
    | Print(text: string)
    | Execute
    | ReadEvent

  /** The calls at log positions start .. start+len-1 all succeed. */
  predicate Clean(start: nat, faults: set<nat>, len: nat) {
    forall i :: start <= i < start + len ==> i !in faults
  }

  lemma CleanSplit(start: nat, faults: set<nat>, a: nat, b: nat)
    ensures Clean(start, faults, a + b) <==> Clean(start, faults, a) && Clean(start + a, faults, b)
  {
  }

  /** Offset of the first failing call among `len` calls made from log
      position `start`, or `len` when none of them fails. */
  function FirstFault(start: nat, faults: set<nat>, len: nat): (k: nat)
    decreases len
    ensures k <= len && Clean(start, faults, k)
    ensures k < len ==> start + k in faults
  {
    if len == 0 || start in faults then 0 else 1 + FirstFault(start + 1, faults, len - 1)
  }

  /** Only one offset is the first failure: whatever meets the two
      conditions is FirstFault. */
  lemma FirstFaultUnique(start: nat, faults: set<nat>, len: nat, k: nat)
    requires k <= len && Clean(start, faults, k)
    requires k < len ==> start + k in faults
    ensures FirstFault(start, faults, len) == k
  {
  }

  /** The commands actually issued when `cmds` are issued one after another
      from log position `start` and every failure is propagated at once: all of
      them when none fails, otherwise every command up to and including the
      first one that fails. */
  function Issued(start: nat, faults: set<nat>, cmds: seq<Cmd>): (done: seq<Cmd>)
    decreases |cmds|
    ensures |done| <= |cmds|
    ensures Clean(start, faults, |cmds|) ==> done == cmds
  {
    if cmds == [] then []
    else if start in faults then [cmds[0]]
    else [cmds[0]] + Issued(start + 1, faults, cmds[1..])
  }

  /** The issued calls are the requested ones cut just after the first failure. */
  lemma {:induction false} IssuedUpToFault(start: nat, faults: set<nat>, cmds: seq<Cmd>)
    ensures var k := FirstFault(start, faults, |cmds|);
      Issued(start, faults, cmds) == if k == |cmds| then cmds else cmds[..k + 1]
    decreases |cmds|
  {
    if cmds != [] && start !in faults {
      IssuedUpToFault(start + 1, faults, cmds[1..]);
      var k := FirstFault(start + 1, faults, |cmds| - 1);
      if k < |cmds| - 1 {
        assert cmds[..k + 2] == [cmds[0]] + cmds[1..][..k + 1];
      }
    }
  }

  /** What is issued is a prefix of what was asked for. */
  lemma IssuedIsPrefix(start: nat, faults: set<nat>, cmds: seq<Cmd>)
    ensures Issued(start, faults, cmds) == cmds[..|Issued(start, faults, cmds)|]
  {
    IssuedUpToFault(start, faults, cmds);
  }

  /** Issuing `a + b` is issuing `a` and, only if all of `a` succeeded, `b`. */
  lemma IssuedAppend(start: nat, faults: set<nat>, a: seq<Cmd>, b: seq<Cmd>)
    ensures Issued(start, faults, a + b) ==
            if Clean(start, faults, |a|) then a + Issued(start + |a|, faults, b)
            else Issued(start, faults, a)
  {
    if Clean(start, faults, |a|) {
      IssuedAfterClean(start, faults, a, b);
    } else {
      IssuedStopsIn(start, faults, a, b);
    }
  }

  lemma IssuedStopsIn(start: nat, faults: set<nat>, a: seq<Cmd>, b: seq<Cmd>)
    requires !Clean(start, faults, |a|)
    ensures Issued(start, faults, a + b) == Issued(start, faults, a)
  {
    IssuedUpToFault(start, faults, a + b);
    IssuedUpToFault(start, faults, a);
    var ka := FirstFault(start, faults, |a|);
    FirstFaultUnique(start, faults, |a| + |b|, ka);
    assert (a + b)[..ka + 1] == a[..ka + 1];
  }

  lemma {:induction false} IssuedAfterClean(start: nat, faults: set<nat>, a: seq<Cmd>, b: seq<Cmd>)
    requires Clean(start, faults, |a|)
    ensures Issued(start, faults, a + b) == a + Issued(start + |a|, faults, b)
    decreases |a|, 1
  {
    if a == [] {
      assert a + b == b;
    } else {
      IssuedAfterCleanCons(start, faults, a, b);
    }
  }

  lemma {:induction false} IssuedAfterCleanCons(start: nat, faults: set<nat>, a: seq<Cmd>, b: seq<Cmd>)
    requires Clean(start, faults, |a|) && a != []
    ensures Issued(start, faults, a + b) == a + Issued(start + |a|, faults, b)
    decreases |a|, 0
  {
    var ab := a + b;
    var tail := Issued(start + |a|, faults, b);
    assert start !in faults;
    assert ab[0] == a[0] && ab[1..] == a[1..] + b;
    assert Issued(start, faults, ab) == [a[0]] + Issued(start + 1, faults, a[1..] + b);
    IssuedAfterClean(start + 1, faults, a[1..], b);
    assert [a[0]] + (a[1..] + tail) == a + tail;
  }

  /** The log went from `before` to `after` by issuing `cmds` under error
      propagation, and `ok` reports whether all of them succeeded. */
  predicate Ran(before: seq<Cmd>, after: seq<Cmd>, faults: set<nat>, cmds: seq<Cmd>, ok: bool) {
    after == before + Issued(|before|, faults, cmds) && ok == Clean(|before|, faults, |cmds|)
  }

  /** Helper: regroups concatenated logs, so that a log built call by call
      matches one built from whole command sequences. */
  lemma AppendAssoc(a: seq<Cmd>, b: seq<Cmd>, c: seq<Cmd>, d: seq<Cmd>)
    ensures a + b + c == a + (b + c)
    ensures a + b + c + d == a + (b + c + d)
  {
  }

  /** Running `s` and, once all of it succeeded, `t`, is running `s + t`. */
  lemma RanThen(a: seq<Cmd>, b: seq<Cmd>, c: seq<Cmd>, faults: set<nat>, s: seq<Cmd>, t: seq<Cmd>, ok: bool)
    requires Ran(a, b, faults, s, true) && Ran(b, c, faults, t, ok)
    ensures Ran(a, c, faults, s + t, ok)
  {
    IssuedAppend(|a|, faults, s, t);
    CleanSplit(|a|, faults, |s|, |t|);
    assert a + (s + Issued(|b|, faults, t)) == b + Issued(|b|, faults, t);
  }

  /** A failure while running a prefix of `whole` is a failure of `whole`:
      nothing after the failing call is issued. */
  lemma RanStop(a: seq<Cmd>, b: seq<Cmd>, faults: set<nat>, s: seq<Cmd>, whole: seq<Cmd>)
    requires Ran(a, b, faults, s, false) && s <= whole
    ensures Ran(a, b, faults, whole, false)
  {
    var rest := whole[|s|..];
    assert whole == s + rest;
    IssuedStopsIn(|a|, faults, s, rest);
    CleanSplit(|a|, faults, |s|, |rest|);
  }

  /** One step of a run of calls that stops at the first error: `done` has
      been issued from `log0` without error and `s` was issued next, both
      part of `whole`. Either `s` succeeded too, or the run of `whole` has
      ended with an error. */
  lemma Step(log0: seq<Cmd>, log: seq<Cmd>, faults: set<nat>, done: seq<Cmd>, s: seq<Cmd>, ok: bool,
             whole: seq<Cmd>)
    requires Clean(|log0|, faults, |done|)
    requires Ran(log0 + done, log, faults, s, ok)
    requires done + s <= whole
    ensures ok ==> log == log0 + (done + s) && Clean(|log0|, faults, |done + s|)
    ensures !ok ==> Ran(log0, log, faults, whole, false)
  {
    RanThen(log0, log0 + done, log, faults, done, s, ok);
    if !ok {
      RanStop(log0, log, faults, done + s, whole);
    }
  }

  /** Step for a single call, stated as a terminal call reports it: the call
      is recorded and fails exactly when its position is a fault. */
  lemma StepCall(log0: seq<Cmd>, log: seq<Cmd>, faults: set<nat>, done: seq<Cmd>, c: Cmd, ok: bool,
                 whole: seq<Cmd>)
    requires Clean(|log0|, faults, |done|)
    requires log == log0 + done + [c] && ok == (|log0 + done| !in faults)
    requires done + [c] <= whole
    ensures ok ==> log == log0 + (done + [c]) && Clean(|log0|, faults, |done + [c]|)
    ensures !ok ==> Ran(log0, log, faults, whole, false)
  {
    assert Issued(|log0 + done|, faults, [c]) == [c];
    Step(log0, log, faults, done, [c], ok, whole);
  }

  /** A terminal that records the calls made on it. Its size is fixed, the
      events it will deliver are queued in `input`, and the call at log
      position i fails exactly when i is in `faults`. */
  class Terminal {
    const cols: u16
    const rows: u16
    const faults: set<nat>
    var log: seq<Cmd>
    var input: seq<Event>

    constructor (cols: u16, rows: u16, input: seq<Event>, faults: set<nat>)
      ensures this.cols == cols && this.rows == rows && this.faults == faults
      ensures this.input == input && log == []
    {
      this.cols, this.rows, this.faults := cols, rows, faults;
      this.input := input;
      log := [];
    }

    /** Records one call and reports whether it succeeded. */
    method Call(c: Cmd) returns (ok: bool)
      modifies this`log
      ensures log == old(log) + [c] && ok == (|old(log)| !in faults)
    {
      ok := |log| !in faults;
      log := log + [c];
    }

    /** Enables raw mode and clears the screen. */
    method Initialize() returns (ok: bool)
      modifies this`log
      ensures log == old(log) + [Cmd.Initialize] && ok == (|old(log)| !in faults)
    {
      ok := Call(Cmd.Initialize);
    }

    /** Restores the terminal's original mode. */
    method Terminate() returns (ok: bool)
      modifies this`log
      ensures log == old(log) + [Cmd.Terminate] && ok == (|old(log)| !in faults)
    {
      ok := Call(Cmd.Terminate);
    }

    /** Queries the visible size; the values are meaningful only on success. */
    method Size() returns (ok: bool, c: u16, r: u16)
      modifies this`log
      ensures log == old(log) + [Cmd.Size] && ok == (|old(log)| !in faults)
      ensures ok ==> c == cols && r == rows
    {
      ok := Call(Cmd.Size);
      c, r := if ok then cols else 0, if ok then rows else 0;
    }

    method ClearScreen() returns (ok: bool)
      modifies this`log
      ensures log == old(log) + [Cmd.ClearScreen] && ok == (|old(log)| !in faults)
    {
      ok := Call(Cmd.ClearScreen);
    }

    method ClearLine() returns (ok: bool)
      modifies this`log
      ensures log == old(log) + [Cmd.ClearLine] && ok == (|old(log)| !in faults)
    {
      ok := Call(Cmd.ClearLine);
    }

    method MoveCursorTo(col: u16, row: u16) returns (ok: bool)
      modifies this`log
      ensures log == old(log) + [MoveTo(col, row)] && ok == (|old(log)| !in faults)
    {
      ok := Call(MoveTo(col, row));
    }

    method HideCursor() returns (ok: bool)
      modifies this`log
      ensures log == old(log) + [Cmd.HideCursor] && ok == (|old(log)| !in faults)
    {
      ok := Call(Cmd.HideCursor);
    }

    method ShowCursor() returns (ok: bool)
      modifies this`log
      ensures log == old(log) + [Cmd.ShowCursor] && ok == (|old(log)| !in faults)
    {
      ok := Call(Cmd.ShowCursor);
    }

    /** Appends text to the output buffer. */
    method Print(text: string) returns (ok: bool)
      modifies this`log
      ensures log == old(log) + [Cmd.Print(text)] && ok == (|old(log)| !in faults)
    {
      ok := Call(Cmd.Print(text));
    }

    /** Flushes the output buffer to the device in one write. */
    method Execute() returns (ok: bool)
      modifies this`log
      ensures log == old(log) + [Cmd.Execute] && ok == (|old(log)| !in faults)
    {
      ok := Call(Cmd.Execute);
    }

    /** Reads the next input event. A failed read consumes nothing; when no
        event is left the real read would block, reported here as `Exhausted`. */
    method Read() returns (r: ReadResult)
      modifies this
      ensures log == old(log) + [ReadEvent]
      ensures |old(log)| in faults ==> r == IoError && input == old(input)
      ensures |old(log)| !in faults && old(input) == [] ==> r == Exhausted && input == []
      ensures |old(log)| !in faults && old(input) != [] ==>
                r == Got(old(input)[0]) && input == old(input)[1..]
    {
      if |log| in faults {
        r := IoError;
      } else if input == [] {
        r := Exhausted;
      } else {
        r := Got(input[0]);
        input := input[1..];
      }
      log := log + [ReadEvent];
    }
  }

  /** What a read returns: an event, an I/O error, or nothing yet. */
  datatype ReadResult = Got(event: Event) | IoError | Exhausted
}
