/** The log-attribution walk as a function: one stack of open frames over the instructions opened so far. */
module LogWalk {
  import opened Logs

  // What the walk checks an invoke against.
  datatype Id = Id(program: Pubkey, height: nat)

  // slices: the log slices of the instructions opened so far; pending: those still awaiting their invoke.
  // frames: the indices of the open instructions, innermost last.
  datatype State = State(slices: seq<seq<LogEntry>>, frames: seq<nat>, pending: seq<Id>)

  datatype Exit = CompleteExit | TruncatedExit | DesyncedExit | OverrunExit

  datatype Progress = Continue(state: State) | Stop(state: State, exit: Exit)

  datatype Outcome = Outcome(slices: seq<seq<LogEntry>>, openCount: nat, exit: Exit)

  predicate Wf(s: State) {
    && (forall j :: 0 <= j < |s.frames| ==> s.frames[j] < |s.slices|)
    && (forall j, k :: 0 <= j < k < |s.frames| ==> s.frames[j] < s.frames[k])
  }

  function Start(ids: seq<Id>): (s: State)
    ensures Wf(s)
  {
    State([], [], ids)
  }

  function Top(frames: seq<nat>): nat
    requires frames != []
  {
    frames[|frames| - 1]
  }

  // Lines owned by the innermost open frame; dropped when no frame is open.
  function Grow(slices: seq<seq<LogEntry>>, frames: seq<nat>, lines: seq<LogEntry>): (r: seq<seq<LogEntry>>)
    requires Wf(State(slices, frames, []))
    ensures |r| == |slices|
  {
    if frames == [] then slices else slices[Top(frames) := slices[Top(frames)] + lines]
  }

  function Step(s: State, entry: LogEntry): (r: Progress)
    requires Wf(s)
    ensures Wf(r.state)
    ensures r.Stop? ==> r.state == s
  {
    match Effect(entry)
    case Cut => Stop(s, TruncatedExit)
    case Open(program, depth) =>
      if s.pending == [] then Stop(s, OverrunExit)
      else if s.pending[0] != Id(program, depth) then Stop(s, DesyncedExit)
      else Continue(State(s.slices + [[entry]], s.frames + [|s.slices|], s.pending[1..]))
    case Close =>
      if s.frames == [] then Continue(s)
      else Continue(State(Grow(s.slices, s.frames, [entry]), s.frames[..|s.frames| - 1], s.pending))
    case Body =>
      Continue(s.(slices := Grow(s.slices, s.frames, [entry])))
  }

  // The innermost open frame's slice with one more line; nobody's, if no frame is open.
  predicate AppendedToTop(s: State, slices: seq<seq<LogEntry>>, entry: LogEntry)
    requires Wf(s)
  {
    && |slices| == |s.slices|
    && (forall i :: 0 <= i < |slices| ==>
          slices[i] == if s.frames != [] && i == s.frames[|s.frames| - 1] then s.slices[i] + [entry] else s.slices[i])
  }

  /** What one line does, kind by kind: only an invoke opens, only a success or failure closes, only a cut cuts, and
      every other line goes to the innermost open frame and moves nothing. */
  lemma {:induction false} StepByEntry(s: State, entry: LogEntry)
    requires Wf(s)
    ensures entry.Data? || entry.Return? || entry.Message? || entry.Consumed? || entry.Unknown? ==>
              var r := Step(s, entry);
              && r == Continue(s.(slices := r.state.slices))
              && AppendedToTop(s, r.state.slices, entry)
    ensures entry.Success? || entry.Failed? ==>
              var r := Step(s, entry);
              var left := if s.frames == [] then [] else s.frames[..|s.frames| - 1];
              && r == Continue(s.(slices := r.state.slices, frames := left))
              && AppendedToTop(s, r.state.slices, entry)
    ensures entry == LogEntry.Truncated ==> Step(s, entry) == Stop(s, TruncatedExit)
    ensures forall program, depth :: entry == Invoke(program, depth) ==>
              Step(s, entry) ==
              if |s.pending| == 0 then Stop(s, OverrunExit)
              else if s.pending[0].program != program || s.pending[0].height != depth then Stop(s, DesyncedExit)
              else Continue(State(s.slices + [[entry]], s.frames + [|s.slices|], s.pending[1..]))
  {
  }

  function Run(s: State, entries: seq<LogEntry>): (r: Progress)
    requires Wf(s)
    ensures Wf(r.state)
    decreases |entries|
  {
    if entries == [] then Continue(s)
    else
      var p := Step(s, entries[0]);
      if p.Stop? then p else Run(p.state, entries[1..])
  }

  // A cut marks every open frame and every instruction still awaiting its invoke.
  function MarkCut(s: State): (r: seq<seq<LogEntry>>)
    ensures |r| == |s.slices| + |s.pending|
  {
    seq(|s.slices|, i requires 0 <= i < |s.slices| =>
      if i in s.frames then s.slices[i] + [LogEntry.Truncated] else s.slices[i])
    + seq(|s.pending|, i => [LogEntry.Truncated])
  }

  function LeaveEmpty(s: State): (r: seq<seq<LogEntry>>)
    ensures |r| == |s.slices| + |s.pending|
  {
    s.slices + seq(|s.pending|, i => [])
  }

  function Finish(p: Progress): Outcome {
    if p.Stop? && p.exit.TruncatedExit? then Outcome(MarkCut(p.state), |p.state.slices|, TruncatedExit)
    else Outcome(LeaveEmpty(p.state), |p.state.slices|, if p.Stop? then p.exit else CompleteExit)
  }

  // The whole walk over one transaction.
  function Walk(ids: seq<Id>, entries: seq<LogEntry>): Outcome {
    Finish(Run(Start(ids), entries))
  }

  lemma {:induction false} RunAppend(s: State, a: seq<LogEntry>, b: seq<LogEntry>)
    requires Wf(s)
    ensures var p := Run(s, a); Run(s, a + b) == if p.Stop? then p else Run(p.state, b)
    decreases |a|
  {
    hide Step;
    if a == [] {
      assert a + b == b;
    } else {
      assert (a + b)[0] == a[0] && (a + b)[1..] == a[1..] + b;
      var p := Step(s, a[0]);
      if p.Continue? {
        RunAppend(p.state, a[1..], b);
      }
    }
  }

  // Nothing is lost or invented: opened and pending instructions together are the instruction list.
  ghost predicate Advanced(s: State, s': State) {
    && |s.slices| <= |s'.slices|
    && |s'.slices| - |s.slices| <= |s.pending|
    && s'.pending == s.pending[|s'.slices| - |s.slices|..]
  }

  lemma StepAdvances(s: State, entry: LogEntry)
    requires Wf(s)
    ensures Advanced(s, Step(s, entry).state)
  {
  }

  lemma AdvancedTransitive(s: State, s1: State, s2: State)
    requires Advanced(s, s1) && Advanced(s1, s2)
    ensures Advanced(s, s2)
  {
    var a, b := |s1.slices| - |s.slices|, |s2.slices| - |s1.slices|;
    assert s.pending[a..][b..] == s.pending[a + b..];
  }

  lemma {:induction false} RunCounts(s: State, entries: seq<LogEntry>)
    requires Wf(s)
    ensures Advanced(s, Run(s, entries).state)
    decreases |entries|
  {
    hide Step, Advanced;
    if entries == [] {
      assert Advanced(s, s) by {
        NoAdvance(s);
      }
    } else {
      StepAdvances(s, entries[0]);
      var p := Step(s, entries[0]);
      if p.Continue? {
        RunCounts(p.state, entries[1..]);
        AdvancedTransitive(s, p.state, Run(s, entries).state);
      }
    }
  }

  lemma NoAdvance(s: State)
    ensures Advanced(s, s)
  {
    assert s.pending[0..] == s.pending;
  }
}
