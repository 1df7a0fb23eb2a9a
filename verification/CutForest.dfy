/** A forest's log stream cut short by the runtime: who is complete, who is marked, and what each one keeps. */
module CutForest {
  import opened Logs
  import opened LogWalk
  import opened CallForest

  // ---- What the first k entries of a stream belong to ----------------------

  // The lines the frame itself logged among them.
  function OwnPrefix(t: Trace, height: nat, k: nat): seq<LogEntry> {
    match t
    case Done => []
    case Line(entry, rest) => if k == 0 then [] else [entry] + OwnPrefix(rest, height, k - 1)
    case Call(_, body, _, rest) =>
      var n := |Stream(body, height + 1)| + 2;
      if k < n then [] else OwnPrefix(rest, height, k - n)
  }

  // Per instruction opened among them, its invoke and its own lines so far, and its terminator if that came too.
  function Opened(t: Trace, height: nat, k: nat): seq<seq<LogEntry>> {
    match t
    case Done => []
    case Line(_, rest) => if k == 0 then [] else Opened(rest, height, k - 1)
    case Call(program, body, terminator, rest) =>
      var n := |Stream(body, height + 1)| + 2;
      if k == 0 then []
      else if k < n then
        [[Invoke(program, height)] + OwnPrefix(body, height + 1, k - 1)] + Opened(body, height + 1, k - 1)
      else FrameSlices(program, body, terminator, height) + Opened(rest, height, k - n)
  }

  // The frames still open after them, outermost first; c is the index of the first instruction of t.
  function OpenFrames(t: Trace, height: nat, k: nat, c: nat): seq<nat> {
    match t
    case Done => []
    case Line(_, rest) => if k == 0 then [] else OpenFrames(rest, height, k - 1, c)
    case Call(_, body, _, rest) =>
      var n := |Stream(body, height + 1)| + 2;
      if k == 0 then []
      else if k < n then [c] + OpenFrames(body, height + 1, k - 1, c + 1)
      else OpenFrames(rest, height, k - n, c + 1 + |Ids(body, height + 1)|)
  }

  // ---- The walk after them ------------------------------------------------

  function At(s: State, t: Trace, height: nat, k: nat): State
    requires Wf(s) && |Opened(t, height, k)| <= |s.pending|
  {
    State(Grow(s.slices, s.frames, OwnPrefix(t, height, k)) + Opened(t, height, k),
          s.frames + OpenFrames(t, height, k, |s.slices|), s.pending[|Opened(t, height, k)|..])
  }

  lemma {:induction false} OpenedAtMost(t: Trace, height: nat, k: nat)
    ensures |Opened(t, height, k)| <= |Ids(t, height)|
  {
    match t
    case Done =>
    case Line(_, rest) =>
      if k > 0 {
        OpenedAtMost(rest, height, k - 1);
      }
    case Call(_, body, _, rest) =>
      var n := |Stream(body, height + 1)| + 2;
      if 0 < k < n {
        OpenedAtMost(body, height + 1, k - 1);
      } else if n <= k {
        OpenedAtMost(rest, height, k - n);
      }
  }

  /** At every position of a well-formed stream: each opened instruction has exactly its own lines so far, exactly the
      frames whose terminator is still to come are open, and the rest of the list is still pending. */
  lemma {:induction false} RunPrefix(s: State, t: Trace, height: nat, more: seq<Id>, k: nat)
    requires Wf(s) && Wellformed(t) && s.pending == Ids(t, height) + more
    requires k <= |Stream(t, height)|
    ensures |Opened(t, height, k)| <= |s.pending|
    ensures Run(s, Stream(t, height)[..k]) == Continue(At(s, t, height, k))
    decreases t, 0
  {
    OpenedAtMost(t, height, k);
    if k == 0 {
      Unmoved(s, t, height);
    } else {
      match t
      case Line(entry, rest) =>
        PrefixLine(s, entry, rest, height, more, k);
      case Call(program, body, terminator, rest) =>
        if k < |Stream(body, height + 1)| + 2 {
          PrefixInside(s, program, body, terminator, rest, height, more, k);
        } else {
          PrefixPast(s, program, body, terminator, rest, height, more, k);
        }
    }
  }

  lemma GrowNothing(slices: seq<seq<LogEntry>>, frames: seq<nat>)
    requires Wf(State(slices, frames, []))
    ensures Grow(slices, frames, []) == slices
  {
    assert frames != [] ==> slices[Top(frames)] + [] == slices[Top(frames)];
  }

  lemma Unmoved(s: State, t: Trace, height: nat)
    requires Wf(s)
    ensures Opened(t, height, 0) == [] && At(s, t, height, 0) == s
    ensures Run(s, Stream(t, height)[..0]) == Continue(s)
  {
    GrowNothing(s.slices, s.frames);
    assert OwnPrefix(t, height, 0) == [] && OpenFrames(t, height, 0, |s.slices|) == [];
    assert s.slices + [] == s.slices && s.frames + [] == s.frames && s.pending[0..] == s.pending;
  }

  lemma {:induction false} PrefixLine(s: State, entry: LogEntry, rest: Trace, height: nat, more: seq<Id>, k: nat)
    requires Wf(s) && Plain(entry) && Wellformed(rest) && s.pending == Ids(rest, height) + more
    requires 1 <= k <= |Stream(rest, height)| + 1
    requires |Opened(Line(entry, rest), height, k)| <= |s.pending|
    ensures Run(s, Stream(Line(entry, rest), height)[..k]) == Continue(At(s, Line(entry, rest), height, k))
    decreases rest, 1
  {
    hide Run, Ids, Grow;
    var s1 := Step(s, entry).state;
    EnterRun(s, entry, Stream(rest, height), [], k);
    assert [entry] + Stream(rest, height) + [] == Stream(Line(entry, rest), height);
    RunPrefix(s1, rest, height, more, k - 1);
    GrowTwice(s.slices, s.frames, [entry], OwnPrefix(rest, height, k - 1));
  }

  lemma EnterRun(s: State, open: LogEntry, inner: seq<LogEntry>, after: seq<LogEntry>, k: nat)
    requires Wf(s) && Step(s, open).Continue? && 1 <= k <= |inner| + 1
    ensures Run(s, ([open] + inner + after)[..k]) == Run(Step(s, open).state, inner[..k - 1])
  {
    hide Step;
    var prefix := ([open] + inner + after)[..k];
    assert prefix != [];
    assert prefix[0] == open && prefix[1..] == inner[..k - 1];
  }

  // Inside the call: its frame is open, and the caller's own lines stand where they were.
  lemma {:induction false} PrefixInside(s: State, program: Pubkey, body: Trace, terminator: LogEntry, rest: Trace,
                                        height: nat, more: seq<Id>, k: nat)
    requires Wf(s) && Wellformed(body) && 1 <= k < |Stream(body, height + 1)| + 2
    requires s.pending == Ids(Call(program, body, terminator, rest), height) + more
    requires |Opened(Call(program, body, terminator, rest), height, k)| <= |s.pending|
    ensures Run(s, Stream(Call(program, body, terminator, rest), height)[..k])
         == Continue(At(s, Call(program, body, terminator, rest), height, k))
    decreases body, 1
  {
    hide Run, Stream, Ids, OwnPrefix, Opened, OpenFrames, Step;
    var open, rests := Invoke(program, height), Ids(rest, height) + more;
    CallUnfolds(program, body, terminator, rest, height);
    assert s.pending == [Id(program, height)] + (Ids(body, height + 1) + rests);
    var s1 := State(s.slices + [[open]], s.frames + [|s.slices|], Ids(body, height + 1) + rests);
    OpenStep(s, program, height, Ids(body, height + 1) + rests);
    InsideStream(s, program, body, terminator, rest, height, k);
    RunPrefix(s1, body, height + 1, rests, k - 1);
    InsideState(s, s1, program, body, terminator, rest, height, k);
  }

  lemma OpenStep(s: State, program: Pubkey, height: nat, more: seq<Id>)
    requires Wf(s) && s.pending == [Id(program, height)] + more
    ensures Step(s, Invoke(program, height))
         == Continue(State(s.slices + [[Invoke(program, height)]], s.frames + [|s.slices|], more))
  {
  }

  lemma {:induction false} InsideStream(s: State, program: Pubkey, body: Trace, terminator: LogEntry, rest: Trace,
                                        height: nat, k: nat)
    requires Wf(s) && 1 <= k < |Stream(body, height + 1)| + 2 && Step(s, Invoke(program, height)).Continue?
    ensures Run(s, Stream(Call(program, body, terminator, rest), height)[..k])
         == Run(Step(s, Invoke(program, height)).state, Stream(body, height + 1)[..k - 1])
  {
    hide Run, Step, Stream;
    var open, after := Invoke(program, height), [terminator] + Stream(rest, height);
    CallUnfolds(program, body, terminator, rest, height);
    assert FrameStream(program, body, terminator, height) + Stream(rest, height)
        == [open] + Stream(body, height + 1) + after;
    EnterRun(s, open, Stream(body, height + 1), after, k);
  }

  lemma {:induction false} InsideState(s: State, s1: State, program: Pubkey, body: Trace, terminator: LogEntry,
                                       rest: Trace, height: nat, k: nat)
    requires Wf(s) && Wf(s1) && 1 <= k < |Stream(body, height + 1)| + 2
    requires s1.slices == s.slices + [[Invoke(program, height)]] && s1.frames == s.frames + [|s.slices|]
    requires s.pending != [] && s1.pending == s.pending[1..]
    requires |Opened(body, height + 1, k - 1)| <= |s1.pending|
    requires |Opened(Call(program, body, terminator, rest), height, k)| <= |s.pending|
    ensures At(s1, body, height + 1, k - 1) == At(s, Call(program, body, terminator, rest), height, k)
  {
    hide Stream, OwnPrefix, Opened, OpenFrames, Grow;
    InsideParts(program, body, terminator, rest, height, k, |s.slices|);
    OpenedFrame(s, s1, Invoke(program, height), OwnPrefix(body, height + 1, k - 1), Opened(body, height + 1, k - 1));
  }

  lemma {:induction false} InsideParts(program: Pubkey, body: Trace, terminator: LogEntry, rest: Trace, height: nat,
                                       k: nat, c: nat)
    requires 1 <= k < |Stream(body, height + 1)| + 2
    ensures var t, own := Call(program, body, terminator, rest), OwnPrefix(body, height + 1, k - 1);
            && OwnPrefix(t, height, k) == []
            && Opened(t, height, k) == [[Invoke(program, height)] + own] + Opened(body, height + 1, k - 1)
            && OpenFrames(t, height, k, c) == [c] + OpenFrames(body, height + 1, k - 1, c + 1)
  {
  }

  lemma OpenedFrame(s: State, s1: State, open: LogEntry, own: seq<LogEntry>, inner: seq<seq<LogEntry>>)
    requires Wf(s) && Wf(s1) && s1.slices == s.slices + [[open]] && s1.frames == s.frames + [|s.slices|]
    requires s.pending != [] && s1.pending == s.pending[1..] && |inner| <= |s1.pending|
    ensures Grow(s1.slices, s1.frames, own) + inner == Grow(s.slices, s.frames, []) + ([[open] + own] + inner)
    ensures s1.pending[|inner|..] == s.pending[|[[open] + own] + inner|..]
  {
    GrowNothing(s.slices, s.frames);
    assert Grow(s1.slices, s1.frames, own) == s.slices + [[open] + own];
  }

  // Past the call: its instructions are final, and the caller carries on.
  lemma {:induction false} PrefixPast(s: State, program: Pubkey, body: Trace, terminator: LogEntry, rest: Trace,
                                      height: nat, more: seq<Id>, k: nat)
    requires Wf(s) && Wellformed(Call(program, body, terminator, rest))
    requires |Stream(body, height + 1)| + 2 <= k <= |Stream(Call(program, body, terminator, rest), height)|
    requires s.pending == Ids(Call(program, body, terminator, rest), height) + more
    requires |Opened(Call(program, body, terminator, rest), height, k)| <= |s.pending|
    ensures Run(s, Stream(Call(program, body, terminator, rest), height)[..k])
         == Continue(At(s, Call(program, body, terminator, rest), height, k))
    decreases rest, 1
  {
    hide Run, Stream, Ids, OwnPrefix, Opened, OpenFrames, Grow, FrameStream, FrameSlices;
    CallUnfolds(program, body, terminator, rest, height);
    var rests := Ids(rest, height) + more;
    assert s.pending == [Id(program, height)] + Ids(body, height + 1) + rests;
    RunFrame(s, program, body, terminator, height, rests);
    var s2 := AfterFrame(s, program, body, terminator, height, rests);
    FrameLength(program, body, terminator, height);
    var m := k - |FrameStream(program, body, terminator, height)|;
    PastStream(s, program, body, terminator, rest, height, k);
    RunPrefix(s2, rest, height, more, m);
    PastState(s, program, body, terminator, rest, height, k, rests);
  }

  lemma {:induction false} FrameLength(program: Pubkey, body: Trace, terminator: LogEntry, height: nat)
    ensures |FrameStream(program, body, terminator, height)| == |Stream(body, height + 1)| + 2
    ensures |FrameSlices(program, body, terminator, height)| == |Ids(body, height + 1)| + 1
  {
  }

  lemma {:induction false} PastStream(s: State, program: Pubkey, body: Trace, terminator: LogEntry, rest: Trace,
                                      height: nat, k: nat)
    requires Wf(s) && Run(s, FrameStream(program, body, terminator, height)).Continue?
    requires |FrameStream(program, body, terminator, height)| <= k
    requires k <= |Stream(Call(program, body, terminator, rest), height)|
    ensures var frame := FrameStream(program, body, terminator, height);
            && k - |frame| <= |Stream(rest, height)|
            && Run(s, Stream(Call(program, body, terminator, rest), height)[..k])
               == Run(Run(s, frame).state, Stream(rest, height)[..k - |frame|])
  {
    hide Run, Stream, FrameStream;
    CallUnfolds(program, body, terminator, rest, height);
    var frame := FrameStream(program, body, terminator, height);
    var m := k - |frame|;
    assert (frame + Stream(rest, height))[..k] == frame + Stream(rest, height)[..m];
    RunAppend(s, frame, Stream(rest, height)[..m]);
  }

  lemma {:induction false} PastState(s: State, program: Pubkey, body: Trace, terminator: LogEntry, rest: Trace,
                                     height: nat, k: nat, rests: seq<Id>)
    requires Wf(s) && |Stream(body, height + 1)| + 2 <= k
    requires |FrameSlices(program, body, terminator, height)| <= |s.pending|
    requires rests == s.pending[|FrameSlices(program, body, terminator, height)|..]
    requires |Opened(Call(program, body, terminator, rest), height, k)| <= |s.pending|
    ensures var s2 := AfterFrame(s, program, body, terminator, height, rests);
            var m := k - |FrameStream(program, body, terminator, height)|;
            && 0 <= m && |Opened(rest, height, m)| <= |rests|
            && At(s2, rest, height, m) == At(s, Call(program, body, terminator, rest), height, k)
  {
    hide Stream, OwnPrefix, Opened, OpenFrames, Grow, FrameSlices, FrameStream;
    FrameLength(program, body, terminator, height);
    PastParts(program, body, terminator, rest, height, k, |s.slices|);
    var added := FrameSlices(program, body, terminator, height);
    var m := k - |FrameStream(program, body, terminator, height)|;
    GrowPrefix(s.slices, added, s.frames, OwnPrefix(rest, height, m));
    AppendAssoc(Grow(s.slices, s.frames, OwnPrefix(rest, height, m)), added, Opened(rest, height, m));
    assert s.pending[|added + Opened(rest, height, m)|..] == rests[|Opened(rest, height, m)|..];
  }

  lemma {:induction false} PastParts(program: Pubkey, body: Trace, terminator: LogEntry, rest: Trace, height: nat,
                                     k: nat, c: nat)
    requires |Stream(body, height + 1)| + 2 <= k
    ensures var t, added := Call(program, body, terminator, rest), FrameSlices(program, body, terminator, height);
            var m := k - |FrameStream(program, body, terminator, height)|;
            && |added| == 1 + |Ids(body, height + 1)|
            && OwnPrefix(t, height, k) == OwnPrefix(rest, height, m)
            && Opened(t, height, k) == added + Opened(rest, height, m)
            && OpenFrames(t, height, k, c) == OpenFrames(rest, height, m, c + |added|)
  {
  }

  // ---- Closed, open or not yet opened -------------------------------------

  lemma {:induction false} ClosesInRange(t: Trace, height: nat, offset: nat)
    ensures forall i :: 0 <= i < |Ids(t, height)| ==>
              offset + 2 <= Closes(t, height, offset)[i] <= offset + |Stream(t, height)|
  {
    match t
    case Done =>
    case Line(_, rest) => ClosesInRange(rest, height, offset + 1);
    case Call(_, body, _, rest) =>
      ClosesInRange(body, height + 1, offset + 1);
      ClosesInRange(rest, height, offset + |Stream(body, height + 1)| + 2);
  }

  // An instruction whose terminator is among the first k entries is final; any other is open or not yet opened.
  predicate Fate(t: Trace, height: nat, offset: nat, k: nat, c: nat, i: nat)
    requires i < |Ids(t, height)|
  {
    var begun, full := Opened(t, height, k), Slices(t, height)[i];
    if Closes(t, height, offset)[i] <= offset + k
    then i < |begun| && begun[i] == full && c + i !in OpenFrames(t, height, k, c)
    else i < |begun| ==> c + i in OpenFrames(t, height, k, c) && begun[i] <= full
  }

  lemma {:induction false} OpenFramesInRange(t: Trace, height: nat, k: nat, c: nat)
    ensures forall q :: q in OpenFrames(t, height, k, c) ==> c <= q
  {
    match t
    case Done =>
    case Line(_, rest) =>
      if k > 0 {
        OpenFramesInRange(rest, height, k - 1, c);
      }
    case Call(_, body, _, rest) =>
      var n := |Stream(body, height + 1)| + 2;
      if 0 < k < n {
        OpenFramesInRange(body, height + 1, k - 1, c + 1);
      } else if n <= k {
        OpenFramesInRange(rest, height, k - n, c + 1 + |Ids(body, height + 1)|);
      }
  }

  lemma {:induction false} OwnPrefixIsPrefix(t: Trace, height: nat, k: nat)
    ensures OwnPrefix(t, height, k) <= OwnLines(t)
    ensures |Stream(t, height)| <= k ==> OwnPrefix(t, height, k) == OwnLines(t)
  {
    match t
    case Done =>
    case Line(_, rest) =>
      if k > 0 {
        OwnPrefixIsPrefix(rest, height, k - 1);
      }
    case Call(_, body, _, rest) =>
      var n := |Stream(body, height + 1)| + 2;
      if n <= k {
        OwnPrefixIsPrefix(rest, height, k - n);
      }
  }

  lemma {:induction false} Fates(t: Trace, height: nat, offset: nat, k: nat, c: nat, i: nat)
    requires i < |Ids(t, height)|
    ensures Fate(t, height, offset, k, c, i)
    decreases t, 0
  {
    ClosesInRange(t, height, offset);
    if k > 0 {
      match t
      case Line(_, rest) =>
        Fates(rest, height, offset + 1, k - 1, c, i);
      case Call(program, body, terminator, rest) =>
        if k < |Stream(body, height + 1)| + 2 {
          FatesInside(program, body, terminator, rest, height, offset, k, c, i);
        } else {
          FatesPast(program, body, terminator, rest, height, offset, k, c, i);
        }
    } else {
      assert Opened(t, height, k) == [];
    }
  }

  // Instruction i of a call: the callee itself, one of its own, or one after it.
  lemma {:induction false} CallAt(program: Pubkey, body: Trace, terminator: LogEntry, rest: Trace, height: nat,
                                  offset: nat, i: nat)
    requires i < |Ids(Call(program, body, terminator, rest), height)|
    ensures var t := Call(program, body, terminator, rest);
            var b, n := |Ids(body, height + 1)|, |Stream(body, height + 1)| + 2;
            var slice, end := Slices(t, height)[i], Closes(t, height, offset)[i];
            if i == 0 then slice == [Invoke(program, height)] + OwnLines(body) + [terminator] && end == offset + n
            else if i <= b then
              slice == Slices(body, height + 1)[i - 1] && end == Closes(body, height + 1, offset + 1)[i - 1]
            else slice == Slices(rest, height)[i - 1 - b] && end == Closes(rest, height, offset + n)[i - 1 - b]
  {
    hide Stream, OwnLines, Closes;
    CallClosesAt(program, body, terminator, rest, height, offset, i);
  }

  lemma {:induction false} CallClosesAt(program: Pubkey, body: Trace, terminator: LogEntry, rest: Trace, height: nat,
                                        offset: nat, i: nat)
    requires i < |Ids(Call(program, body, terminator, rest), height)|
    ensures var b, n := |Ids(body, height + 1)|, |Stream(body, height + 1)| + 2;
            Closes(Call(program, body, terminator, rest), height, offset)[i]
            == if i == 0 then offset + n
               else if i <= b then Closes(body, height + 1, offset + 1)[i - 1]
               else Closes(rest, height, offset + n)[i - 1 - b]
  {
    hide Stream;
  }

  lemma {:induction false} FatesInside(program: Pubkey, body: Trace, terminator: LogEntry, rest: Trace, height: nat,
                                       offset: nat, k: nat, c: nat, i: nat)
    requires i < |Ids(Call(program, body, terminator, rest), height)|
    requires 1 <= k < |Stream(body, height + 1)| + 2
    ensures Fate(Call(program, body, terminator, rest), height, offset, k, c, i)
    decreases body, 1
  {
    hide Opened, OpenFrames, Slices, Closes, OwnPrefix, OwnLines;
    var b := |Ids(body, height + 1)|;
    CallAt(program, body, terminator, rest, height, offset, i);
    InsideParts(program, body, terminator, rest, height, k, c);
    OpenedAtMost(body, height + 1, k - 1);
    if i == 0 {
      OwnPrefixIsPrefix(body, height + 1, k - 1);
      assert [Invoke(program, height)] + OwnPrefix(body, height + 1, k - 1)
          <= [Invoke(program, height)] + OwnLines(body) + [terminator];
    } else if i <= b {
      Fates(body, height + 1, offset + 1, k - 1, c + 1, i - 1);
    } else {
      ClosesInRange(rest, height, offset + |Stream(body, height + 1)| + 2);
    }
  }

  lemma {:induction false} FatesPast(program: Pubkey, body: Trace, terminator: LogEntry, rest: Trace, height: nat,
                                     offset: nat, k: nat, c: nat, i: nat)
    requires i < |Ids(Call(program, body, terminator, rest), height)|
    requires |Stream(body, height + 1)| + 2 <= k
    ensures Fate(Call(program, body, terminator, rest), height, offset, k, c, i)
    decreases rest, 1
  {
    hide Opened, OpenFrames, Slices, Closes, OwnPrefix, OwnLines;
    var b, n := |Ids(body, height + 1)|, |Stream(body, height + 1)| + 2;
    CallAt(program, body, terminator, rest, height, offset, i);
    PastParts(program, body, terminator, rest, height, k, c);
    if i <= b {
      ClosesInRange(body, height + 1, offset + 1);
      OpenFramesInRange(rest, height, k - n, c + 1 + b);
    } else {
      Fates(rest, height, offset + n, k - n, c + 1 + b, i - 1 - b);
    }
  }

  /** For every cut of a well-formed stream: a frame closed before the cut keeps exactly its own lines and audits Ok;
      an open one keeps exactly its own lines so far, and one never opened nothing, each followed by the mark, and
      audits Truncated. */
  lemma {:induction false} TruncatedWalk(t: Trace, k: nat, tail: seq<LogEntry>)
    requires Wellformed(t) && k <= |Stream(t, 1)|
    ensures var ids, o := Ids(t, 1), Walk(Ids(t, 1), Stream(t, 1)[..k] + [LogEntry.Truncated] + tail);
            var begun := Opened(t, 1, k);
            && o.exit == TruncatedExit
            && o.openCount == |begun| <= |ids| == |o.slices|
            && (forall i :: 0 <= i < |ids| ==>
                  var verdict := Audit(ids[i].program, ids[i].height, o.slices[i]);
                  if Closes(t, 1, 0)[i] <= k
                  then o.slices[i] == Slices(t, 1)[i] && verdict == Verdict.Ok
                  else
                    && o.slices[i] == (if i < |begun| then begun[i] else []) + [LogEntry.Truncated]
                    && verdict == Verdict.Truncated)
  {
    var ids := Ids(t, 1);
    assert ids == ids + [];
    RunPrefix(Start(ids), t, 1, [], k);
    WalkCut(ids, Stream(t, 1)[..k], tail);
    OpenedAtMost(t, 1, k);
    SlicesAuditOk(t, 1);
    var s := At(Start(ids), t, 1, k);
    assert s.slices == Opened(t, 1, k) && s.frames == OpenFrames(t, 1, k, 0);
    forall i | 0 <= i < |ids|
      ensures Fate(t, 1, 0, k, 0, i)
    {
      Fates(t, 1, 0, k, 0, i);
    }
    MarkedFates(t, k, s);
  }

  lemma {:induction false} MarkedFates(t: Trace, k: nat, s: State)
    requires s.slices == Opened(t, 1, k) && s.frames == OpenFrames(t, 1, k, 0)
    requires |s.slices| + |s.pending| == |Ids(t, 1)|
    requires forall i :: 0 <= i < |Ids(t, 1)| ==> Fate(t, 1, 0, k, 0, i)
    ensures forall i :: 0 <= i < |Ids(t, 1)| ==>
              MarkCut(s)[i] == if Closes(t, 1, 0)[i] <= k then Slices(t, 1)[i]
                               else (if i < |s.slices| then s.slices[i] else []) + [LogEntry.Truncated]
  {
    hide Opened, OpenFrames, Slices, Closes, Ids;
    forall i | 0 <= i < |Ids(t, 1)|
      ensures MarkCut(s)[i] == if Closes(t, 1, 0)[i] <= k then Slices(t, 1)[i]
                               else (if i < |s.slices| then s.slices[i] else []) + [LogEntry.Truncated]
    {
      assert Fate(t, 1, 0, k, 0, i);
    }
  }

  lemma {:induction false} WalkCut(ids: seq<Id>, entries: seq<LogEntry>, tail: seq<LogEntry>)
    requires Run(Start(ids), entries).Continue?
    ensures var s := Run(Start(ids), entries).state;
            Walk(ids, entries + [LogEntry.Truncated] + tail) == Outcome(MarkCut(s), |s.slices|, TruncatedExit)
  {
    hide MarkCut, LeaveEmpty;
    var rest := [LogEntry.Truncated] + tail;
    assert entries + [LogEntry.Truncated] + tail == entries + rest;
    RunAppend(Start(ids), entries, rest);
    CutStops(Run(Start(ids), entries).state, rest);
  }

  lemma CutStops(s: State, entries: seq<LogEntry>)
    requires Wf(s) && entries != [] && entries[0].Truncated?
    ensures Run(s, entries) == Stop(s, TruncatedExit)
  {
    assert Step(s, entries[0]) == Stop(s, TruncatedExit);
  }
}
