/** Executions as call forests, flattened the way the runtime reports them. */
module CallForest {
  import opened Logs
  import opened LogWalk

  /** What one frame (or the transaction itself) does, in order: it logs lines and makes calls. */
  datatype Trace =
    | Done
    | Line(entry: LogEntry, rest: Trace)
    | Call(program: Pubkey, body: Trace, terminator: LogEntry, rest: Trace)

  predicate Wellformed(t: Trace) {
    match t
    case Done => true
    case Line(entry, rest) => Plain(entry) && Wellformed(rest)
    case Call(program, body, terminator, rest) =>
      Ends(terminator, program) && Wellformed(body) && Wellformed(rest)
  }

  // The flattened instruction list: pre-order, with CPI heights.
  function Ids(t: Trace, height: nat): seq<Id> {
    match t
    case Done => []
    case Line(_, rest) => Ids(rest, height)
    case Call(program, body, _, rest) =>
      [Id(program, height)] + Ids(body, height + 1) + Ids(rest, height)
  }

  // The bracketed log stream.
  function Stream(t: Trace, height: nat): seq<LogEntry> {
    match t
    case Done => []
    case Line(entry, rest) => [entry] + Stream(rest, height)
    case Call(program, body, terminator, rest) =>
      [Invoke(program, height)] + Stream(body, height + 1) + [terminator] + Stream(rest, height)
  }

  // The lines the frame itself logged: nothing of its callees.
  function OwnLines(t: Trace): seq<LogEntry> {
    match t
    case Done => []
    case Line(entry, rest) => [entry] + OwnLines(rest)
    case Call(_, _, _, rest) => OwnLines(rest)
  }

  // Per instruction, in pre-order, the lines that belong to it.
  function Slices(t: Trace, height: nat): (r: seq<seq<LogEntry>>)
    ensures |r| == |Ids(t, height)|
  {
    match t
    case Done => []
    case Line(_, rest) => Slices(rest, height)
    case Call(program, body, terminator, rest) =>
      [[Invoke(program, height)] + OwnLines(body) + [terminator]]
      + Slices(body, height + 1) + Slices(rest, height)
  }

  // Per instruction, the stream position just past its terminator.
  function Closes(t: Trace, height: nat, offset: nat): (r: seq<nat>)
    ensures |r| == |Ids(t, height)|
  {
    match t
    case Done => []
    case Line(_, rest) => Closes(rest, height, offset + 1)
    case Call(_, body, _, rest) =>
      var end := offset + |Stream(body, height + 1)| + 2;
      [end] + Closes(body, height + 1, offset + 1) + Closes(rest, height, end)
  }

  // What one pass over the whole of t makes of a state whose next instructions are t's.
  function After(s: State, t: Trace, height: nat, more: seq<Id>): State
    requires Wf(s)
  {
    State(Grow(s.slices, s.frames, OwnLines(t)) + Slices(t, height), s.frames, more)
  }

  lemma {:induction false} RunTrace(s: State, t: Trace, height: nat, more: seq<Id>)
    requires Wf(s) && Wellformed(t) && s.pending == Ids(t, height) + more
    ensures Run(s, Stream(t, height)) == Continue(After(s, t, height, more))
    decreases t, 0
  {
    match t
    case Done =>
      if s.frames != [] {
        assert s.slices[Top(s.frames)] + [] == s.slices[Top(s.frames)];
      }
    case Line(entry, rest) =>
      var s1 := Step(s, entry).state;
      RunTrace(s1, rest, height, more);
      GrowTwice(s.slices, s.frames, [entry], OwnLines(rest));
    case Call(program, body, terminator, rest) =>
      var rests := Ids(rest, height) + more;
      assert s.pending == [Id(program, height)] + Ids(body, height + 1) + rests;
      RunFrame(s, program, body, terminator, height, rests);
      RunTrace(AfterFrame(s, program, body, terminator, height, rests), rest, height, more);
      RunSiblings(s, program, body, terminator, rest, height, more);
  }

  lemma {:induction false} RunSiblings(s: State, program: Pubkey, body: Trace, terminator: LogEntry, rest: Trace,
                                       height: nat, more: seq<Id>)
    requires Wf(s)
    requires Run(s, FrameStream(program, body, terminator, height))
          == Continue(AfterFrame(s, program, body, terminator, height, Ids(rest, height) + more))
    requires Run(AfterFrame(s, program, body, terminator, height, Ids(rest, height) + more), Stream(rest, height))
          == Continue(After(AfterFrame(s, program, body, terminator, height, Ids(rest, height) + more),
                            rest, height, more))
    ensures Run(s, Stream(Call(program, body, terminator, rest), height))
         == Continue(After(s, Call(program, body, terminator, rest), height, more))
  {
    hide Run, Stream, Slices, FrameSlices, FrameStream, Grow;
    RunAppend(s, FrameStream(program, body, terminator, height), Stream(rest, height));
    GrowPrefix(s.slices, FrameSlices(program, body, terminator, height), s.frames, OwnLines(rest));
    CallUnfolds(program, body, terminator, rest, height);
    AppendAssoc(Grow(s.slices, s.frames, OwnLines(rest)),
                FrameSlices(program, body, terminator, height), Slices(rest, height));
  }

  lemma {:induction false} CallUnfolds(program: Pubkey, body: Trace, terminator: LogEntry, rest: Trace, height: nat)
    ensures var t := Call(program, body, terminator, rest);
            && Ids(t, height) == [Id(program, height)] + Ids(body, height + 1) + Ids(rest, height)
            && Stream(t, height) == FrameStream(program, body, terminator, height) + Stream(rest, height)
            && Slices(t, height) == FrameSlices(program, body, terminator, height) + Slices(rest, height)
            && OwnLines(t) == OwnLines(rest)
  {
  }

  lemma AppendAssoc<T>(a: seq<T>, b: seq<T>, c: seq<T>)
    ensures a + b + c == a + (b + c)
  {
  }

  function FrameStream(program: Pubkey, body: Trace, terminator: LogEntry, height: nat): seq<LogEntry> {
    [Invoke(program, height)] + Stream(body, height + 1) + [terminator]
  }

  function FrameSlices(program: Pubkey, body: Trace, terminator: LogEntry, height: nat): seq<seq<LogEntry>> {
    [[Invoke(program, height)] + OwnLines(body) + [terminator]] + Slices(body, height + 1)
  }

  function AfterFrame(s: State, program: Pubkey, body: Trace, terminator: LogEntry, height: nat,
                      more: seq<Id>): (r: State)
    requires Wf(s)
    ensures Wf(r)
  {
    State(s.slices + FrameSlices(program, body, terminator, height), s.frames, more)
  }

  // Open, run the callee, close: the caller's own slice is untouched.
  lemma {:induction false} RunFrame(s: State, program: Pubkey, body: Trace, terminator: LogEntry, height: nat,
                                    more: seq<Id>)
    requires Wf(s) && Wellformed(body) && Ends(terminator, program)
    requires s.pending == [Id(program, height)] + Ids(body, height + 1) + more
    ensures Run(s, FrameStream(program, body, terminator, height))
         == Continue(AfterFrame(s, program, body, terminator, height, more))
    decreases body, 1
  {
    hide Run, Stream, Slices, OwnLines, Ids;
    var open := Invoke(program, height);
    var s1 := Step(s, open).state;
    assert s1 == State(s.slices + [[open]], s.frames + [|s.slices|], Ids(body, height + 1) + more);
    RunTrace(s1, body, height + 1, more);
    CloseFrame(s, s1, open, OwnLines(body), Slices(body, height + 1), terminator, more);
    RunBracket(s, open, Stream(body, height + 1), terminator);
  }

  // The closing line lands in the callee's slice, and the caller is innermost again.
  lemma CloseFrame(s: State, s1: State, open: LogEntry, lines: seq<LogEntry>, inner: seq<seq<LogEntry>>,
                   close: LogEntry, more: seq<Id>)
    requires Wf(s) && Wf(s1) && (close.Success? || close.Failed?)
    requires s1.slices == s.slices + [[open]] && s1.frames == s.frames + [|s.slices|]
    ensures var s2 := State(Grow(s1.slices, s1.frames, lines) + inner, s1.frames, more);
            && Wf(s2)
            && Step(s2, close) == Continue(State(s.slices + ([[open] + lines + [close]] + inner), s.frames, more))
  {
    var s2 := State(Grow(s1.slices, s1.frames, lines) + inner, s1.frames, more);
    assert s2.slices == s.slices + [[open] + lines] + inner;
    assert Step(s2, close).state.slices == s.slices + ([[open] + lines + [close]] + inner);
    assert (s.frames + [|s.slices|])[..|s.frames|] == s.frames;
  }

  lemma {:induction false} RunBracket(s: State, open: LogEntry, inner: seq<LogEntry>, close: LogEntry)
    requires Wf(s) && Step(s, open).Continue? && Run(Step(s, open).state, inner).Continue?
    requires Step(Run(Step(s, open).state, inner).state, close).Continue?
    ensures Run(s, [open] + inner + [close]) == Step(Run(Step(s, open).state, inner).state, close)
  {
    var all := [open] + inner + [close];
    assert all[0] == open && all[1..] == inner + [close];
    var s1 := Step(s, open).state;
    RunAppend(s1, inner, [close]);
    var s2 := Run(s1, inner).state;
    assert [close][1..] == [];
    assert Run(s2, [close]) == Step(s2, close);
  }

  lemma GrowTwice(slices: seq<seq<LogEntry>>, frames: seq<nat>, a: seq<LogEntry>, b: seq<LogEntry>)
    requires Wf(State(slices, frames, []))
    ensures Grow(Grow(slices, frames, a), frames, b) == Grow(slices, frames, a + b)
  {
    if frames != [] {
      assert slices[Top(frames)] + a + b == slices[Top(frames)] + (a + b);
    }
  }

  lemma GrowPrefix(slices: seq<seq<LogEntry>>, added: seq<seq<LogEntry>>, frames: seq<nat>, lines: seq<LogEntry>)
    requires Wf(State(slices, frames, []))
    ensures Grow(slices + added, frames, lines) == Grow(slices, frames, lines) + added
  {
  }

  /** A complete log stream: every instruction gets exactly its own lines, and every slice audits clean. */
  lemma {:induction false} CompleteWalk(t: Trace)
    requires Wellformed(t)
    ensures Walk(Ids(t, 1), Stream(t, 1)) == Outcome(Slices(t, 1), |Ids(t, 1)|, CompleteExit)
    ensures forall i :: 0 <= i < |Ids(t, 1)| ==>
            Audit(Ids(t, 1)[i].program, Ids(t, 1)[i].height, Slices(t, 1)[i]) == Verdict.Ok
  {
    var ids := Ids(t, 1);
    assert ids == ids + [];
    RunTrace(Start(ids), t, 1, []);
    assert Slices(t, 1) + seq(0, i => []) == Slices(t, 1);
    SlicesAuditOk(t, 1);
  }

  lemma {:induction false} OwnLinesAreBody(t: Trace)
    requires Wellformed(t)
    ensures forall j :: 0 <= j < |OwnLines(t)| ==> Plain(OwnLines(t)[j])
  {
    match t
    case Done =>
    case Line(entry, rest) => OwnLinesAreBody(rest);
    case Call(_, _, _, rest) => OwnLinesAreBody(rest);
  }

  lemma {:induction false} SlicesAuditOk(t: Trace, height: nat)
    requires Wellformed(t)
    ensures forall i :: 0 <= i < |Ids(t, height)| ==>
              Audit(Ids(t, height)[i].program, Ids(t, height)[i].height, Slices(t, height)[i]) == Verdict.Ok
  {
    match t
    case Done =>
    case Line(_, rest) => SlicesAuditOk(rest, height);
    case Call(program, body, terminator, rest) =>
      SlicesAuditOk(body, height + 1);
      SlicesAuditOk(rest, height);
      OwnLinesAreBody(body);
      BracketAuditsOk(program, height, OwnLines(body), terminator);
  }

  lemma BracketAuditsOk(program: Pubkey, height: nat, lines: seq<LogEntry>, terminator: LogEntry)
    requires forall j :: 0 <= j < |lines| ==> Plain(lines[j])
    requires Ends(terminator, program)
    ensures Audit(program, height, [Invoke(program, height)] + lines + [terminator]) == Verdict.Ok
  {
    var slice := [Invoke(program, height)] + lines + [terminator];
    assert forall j :: 0 <= j < |lines| ==> slice[j + 1] == lines[j];
    assert forall j :: 1 <= j < |slice| - 1 ==> slice[j] == lines[j - 1];
  }
}
