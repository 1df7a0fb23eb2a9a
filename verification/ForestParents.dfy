/** The two stacks agree: parents found by height are the frames the log stream has open. */
module ForestParents {
  import opened Wrappers
  import opened Logs
  import opened LogWalk
  import opened CallForest
  import opened Attribution

  // Who called whom: per instruction, in pre-order, the index of its caller.
  function Callers(t: Trace, height: nat, offset: nat, caller: Option<nat>): (r: seq<Option<nat>>)
    ensures |r| == |Ids(t, height)|
  {
    match t
    case Done => []
    case Line(_, rest) => Callers(rest, height, offset, caller)
    case Call(_, body, _, rest) =>
      [caller] + Callers(body, height + 1, offset + 1, Some(offset))
      + Callers(rest, height, offset + 1 + |Ids(body, height + 1)|, caller)
  }

  function HeightsOf(ids: seq<Id>): (r: seq<nat>)
    ensures |r| == |ids|
  {
    seq(|ids|, i requires 0 <= i < |ids| => ids[i].height)
  }

  // Instructions of t sit at offset; the caller is shallower, and nothing between it and t is.
  ghost predicate Placed(ids: seq<Id>, t: Trace, height: nat, offset: nat, caller: Option<nat>) {
    && offset + |Ids(t, height)| <= |ids|
    && ids[offset..offset + |Ids(t, height)|] == Ids(t, height)
    && Shielded(ids, height, offset, caller)
  }

  lemma {:induction false} IdsNoShallower(t: Trace, height: nat)
    ensures forall i :: 0 <= i < |Ids(t, height)| ==> height <= Ids(t, height)[i].height
  {
    match t
    case Done =>
    case Line(_, rest) => IdsNoShallower(rest, height);
    case Call(_, body, _, rest) =>
      IdsNoShallower(body, height + 1);
      IdsNoShallower(rest, height);
  }

  lemma SliceOfSlice<T>(s: seq<T>, a: nat, b: nat, i: nat, j: nat)
    requires a <= b <= |s| && i <= j <= b - a
    ensures s[a..b][i..j] == s[a + i..a + j]
  {
    var x, y := s[a..b][i..j], s[a + i..a + j];
    assert |x| == |y|;
    forall k | 0 <= k < |x|
      ensures x[k] == y[k]
    {
      assert x[k] == s[a..b][i + k] == s[a + (i + k)];
    }
  }

  lemma {:induction false} PlacedCall(ids: seq<Id>, program: Pubkey, body: Trace, terminator: LogEntry, rest: Trace,
                                      height: nat, offset: nat, caller: Option<nat>)
    requires Placed(ids, Call(program, body, terminator, rest), height, offset, caller)
    ensures offset < |ids| && ids[offset] == Id(program, height)
    ensures Placed(ids, body, height + 1, offset + 1, Some(offset))
    ensures Placed(ids, rest, height, offset + 1 + |Ids(body, height + 1)|, caller)
  {
    hide Ids;
    CallUnfolds(program, body, terminator, rest, height);
    IdsNoShallower(body, height + 1);
    PlacedParts(ids, program, Ids(body, height + 1), Ids(rest, height), height, offset, caller);
  }

  ghost predicate Shielded(ids: seq<Id>, height: nat, offset: nat, caller: Option<nat>) {
    && offset <= |ids|
    && (caller.Some? ==> caller.value < offset && ids[caller.value].height < height)
    && (forall j :: (if caller.Some? then caller.value else -1) < j < offset ==> height <= ids[j].height)
  }

  lemma PlacedParts(ids: seq<Id>, program: Pubkey, bs: seq<Id>, cs: seq<Id>, height: nat, offset: nat,
                    caller: Option<nat>)
    requires Shielded(ids, height, offset, caller)
    requires offset + 1 + |bs| + |cs| <= |ids|
    requires ids[offset..offset + 1 + |bs| + |cs|] == [Id(program, height)] + bs + cs
    requires forall i :: 0 <= i < |bs| ==> height + 1 <= bs[i].height
    ensures ids[offset] == Id(program, height)
    ensures ids[offset + 1..offset + 1 + |bs|] == bs && Shielded(ids, height + 1, offset + 1, Some(offset))
    ensures ids[offset + 1 + |bs|..offset + 1 + |bs| + |cs|] == cs && Shielded(ids, height, offset + 1 + |bs|, caller)
  {
    SplitWindow(ids, offset, Id(program, height), bs, cs);
    BodyNoShallower(ids, bs, height, offset, offset + 1 + |bs|);
  }

  lemma BodyNoShallower(ids: seq<Id>, bs: seq<Id>, height: nat, offset: nat, end: nat)
    requires end == offset + 1 + |bs| && end <= |ids| && ids[offset].height == height
    requires forall j :: offset < j < end ==> ids[j] == bs[j - offset - 1]
    requires forall i :: 0 <= i < |bs| ==> height + 1 <= bs[i].height
    ensures forall j :: offset <= j < end ==> height <= ids[j].height
  {
  }

  lemma SplitWindow(ids: seq<Id>, offset: nat, a: Id, bs: seq<Id>, cs: seq<Id>)
    requires offset + 1 + |bs| + |cs| <= |ids|
    requires ids[offset..offset + 1 + |bs| + |cs|] == [a] + bs + cs
    ensures ids[offset] == a
    ensures ids[offset + 1..offset + 1 + |bs|] == bs
    ensures forall j :: offset < j < offset + 1 + |bs| ==> ids[j] == bs[j - offset - 1]
    ensures ids[offset + 1 + |bs|..offset + 1 + |bs| + |cs|] == cs
  {
    var n, m := 1 + |bs|, 1 + |bs| + |cs|;
    var w := ids[offset..offset + m];
    assert w[0] == ids[offset];
    SliceOfSlice(ids, offset, offset + m, 1, n);
    SliceOfSlice(ids, offset, offset + m, n, m);
    assert w[1..n] == bs && w[n..m] == cs;
    assert forall j :: offset < j < offset + n ==> ids[j] == ids[offset + 1..offset + n][j - offset - 1];
  }

  ghost predicate AllNearest(ids: seq<Id>, offset: nat, callers: seq<Option<nat>>) {
    && offset + |callers| <= |ids|
    && (forall k :: 0 <= k < |callers| ==> NearestShallower(HeightsOf(ids), offset + k, callers[k]))
  }

  lemma {:induction false} CallersAreNearest(ids: seq<Id>, t: Trace, height: nat, offset: nat, caller: Option<nat>)
    requires Placed(ids, t, height, offset, caller)
    ensures AllNearest(ids, offset, Callers(t, height, offset, caller))
    decreases t
  {
    match t
    case Done =>
    case Line(_, rest) => CallersAreNearest(ids, rest, height, offset, caller);
    case Call(program, body, terminator, rest) =>
      PlacedCall(ids, program, body, terminator, rest, height, offset, caller);
      CallersAreNearest(ids, body, height + 1, offset + 1, Some(offset));
      CallersAreNearest(ids, rest, height, offset + 1 + |Ids(body, height + 1)|, caller);
      NearestCall(ids, program, body, terminator, rest, height, offset, caller);
  }

  lemma {:induction false} NearestCall(ids: seq<Id>, program: Pubkey, body: Trace, terminator: LogEntry, rest: Trace,
                                       height: nat, offset: nat, caller: Option<nat>)
    requires Placed(ids, Call(program, body, terminator, rest), height, offset, caller)
    requires AllNearest(ids, offset + 1, Callers(body, height + 1, offset + 1, Some(offset)))
    requires AllNearest(ids, offset + 1 + |Ids(body, height + 1)|,
                        Callers(rest, height, offset + 1 + |Ids(body, height + 1)|, caller))
    ensures AllNearest(ids, offset, Callers(Call(program, body, terminator, rest), height, offset, caller))
  {
    hide AllNearest, Placed;
    var inBody := Callers(body, height + 1, offset + 1, Some(offset));
    var inRest := Callers(rest, height, offset + 1 + |Ids(body, height + 1)|, caller);
    NearestFirst(ids, program, body, terminator, rest, height, offset, caller);
    NearestAppend(ids, offset, [caller], inBody);
    NearestAppend(ids, offset, [caller] + inBody, inRest);
  }

  lemma {:induction false} NearestFirst(ids: seq<Id>, program: Pubkey, body: Trace, terminator: LogEntry, rest: Trace,
                                        height: nat, offset: nat, caller: Option<nat>)
    requires Placed(ids, Call(program, body, terminator, rest), height, offset, caller)
    ensures AllNearest(ids, offset, [caller])
  {
    hide Ids;
    PlacedCall(ids, program, body, terminator, rest, height, offset, caller);
    assert NearestShallower(HeightsOf(ids), offset, caller);
  }

  lemma NearestAppend(ids: seq<Id>, offset: nat, a: seq<Option<nat>>, b: seq<Option<nat>>)
    requires AllNearest(ids, offset, a) && AllNearest(ids, offset + |a|, b)
    ensures AllNearest(ids, offset, a + b)
  {
    forall k | 0 <= k < |a + b|
      ensures NearestShallower(HeightsOf(ids), offset + k, (a + b)[k])
    {
      if |a| <= k {
        assert (a + b)[k] == b[k - |a|] && offset + k == offset + |a| + (k - |a|);
      }
    }
  }

  function TopFrame(s: State): Option<nat> {
    if s.frames == [] then None else Some(Top(s.frames))
  }

  // The innermost open frame at each invoke the walk accepts, in order.
  function OpenedUnder(s: State, entries: seq<LogEntry>): seq<Option<nat>>
    requires Wf(s)
    decreases |entries|
  {
    if entries == [] || Step(s, entries[0]).Stop? then []
    else
      (if entries[0].Invoke? then [TopFrame(s)] else []) + OpenedUnder(Step(s, entries[0]).state, entries[1..])
  }

  lemma {:induction false} OpenedUnderAppend(s: State, a: seq<LogEntry>, b: seq<LogEntry>)
    requires Wf(s) && Run(s, a).Continue?
    ensures OpenedUnder(s, a + b) == OpenedUnder(s, a) + OpenedUnder(Run(s, a).state, b)
    decreases |a|
  {
    hide Step, Effect;
    if a == [] {
      assert a + b == b;
    } else {
      assert (a + b)[0] == a[0] && (a + b)[1..] == a[1..] + b;
      OpenedUnderAppend(Step(s, a[0]).state, a[1..], b);
    }
  }

  lemma {:induction false} OpenedUnderTrace(s: State, t: Trace, height: nat, more: seq<Id>)
    requires Wf(s) && Wellformed(t) && s.pending == Ids(t, height) + more
    ensures OpenedUnder(s, Stream(t, height)) == Callers(t, height, |s.slices|, TopFrame(s))
    decreases t, 1
  {
    hide Run;
    match t
    case Done =>
    case Line(entry, rest) =>
      OpenedUnderTrace(Step(s, entry).state, rest, height, more);
      OpenedUnderLine(s, entry, Stream(rest, height));
    case Call(program, body, terminator, rest) =>
      OpenedUnderCall(s, program, body, terminator, rest, height, more);
  }

  lemma {:induction false} OpenedUnderCall(s: State, program: Pubkey, body: Trace, terminator: LogEntry, rest: Trace,
                                           height: nat, more: seq<Id>)
    requires Wf(s) && Wellformed(Call(program, body, terminator, rest))
    requires s.pending == Ids(Call(program, body, terminator, rest), height) + more
    ensures OpenedUnder(s, Stream(Call(program, body, terminator, rest), height))
         == Callers(Call(program, body, terminator, rest), height, |s.slices|, TopFrame(s))
    decreases Call(program, body, terminator, rest), 0
  {
    hide Run, Stream, Ids, Callers, OpenedUnder;
    var rests := Ids(rest, height) + more;
    CallUnfolds(program, body, terminator, rest, height);
    assert s.pending == [Id(program, height)] + Ids(body, height + 1) + rests;
    RunFrame(s, program, body, terminator, height, rests);
    OpenedUnderFrame(s, program, body, terminator, height, rests);
    OpenedUnderTrace(AfterFrame(s, program, body, terminator, height, rests), rest, height, more);
    OpenedUnderSiblings(s, program, body, terminator, rest, height, rests);
  }

  lemma {:induction false} OpenedUnderSiblings(s: State, program: Pubkey, body: Trace, terminator: LogEntry,
                                               rest: Trace,
                                               height: nat, rests: seq<Id>)
    requires Wf(s)
    requires Run(s, FrameStream(program, body, terminator, height))
             == Continue(AfterFrame(s, program, body, terminator, height, rests))
    requires OpenedUnder(s, FrameStream(program, body, terminator, height))
          == [TopFrame(s)] + Callers(body, height + 1, |s.slices| + 1, Some(|s.slices|))
    requires OpenedUnder(AfterFrame(s, program, body, terminator, height, rests), Stream(rest, height))
          == Callers(rest, height, |s.slices| + 1 + |Ids(body, height + 1)|, TopFrame(s))
    ensures OpenedUnder(s, Stream(Call(program, body, terminator, rest), height))
         == Callers(Call(program, body, terminator, rest), height, |s.slices|, TopFrame(s))
  {
    hide OpenedUnder, Run, Stream, FrameStream;
    CallUnfolds(program, body, terminator, rest, height);
    OpenedUnderAppend(s, FrameStream(program, body, terminator, height), Stream(rest, height));
  }

  lemma {:induction false} OpenedUnderFrame(s: State, program: Pubkey, body: Trace, terminator: LogEntry, height: nat,
                                            more: seq<Id>)
    requires Wf(s) && Wellformed(body) && Ends(terminator, program)
    requires s.pending == [Id(program, height)] + Ids(body, height + 1) + more
    ensures OpenedUnder(s, FrameStream(program, body, terminator, height))
         == [TopFrame(s)] + Callers(body, height + 1, |s.slices| + 1, Some(|s.slices|))
    decreases body, 2
  {
    hide Stream, Ids, Callers, Run, OpenedUnder;
    var open, inner := Invoke(program, height), Stream(body, height + 1);
    var s1 := Step(s, open).state;
    assert s1 == State(s.slices + [[open]], s.frames + [|s.slices|], Ids(body, height + 1) + more);
    OpenedUnderTrace(s1, body, height + 1, more);
    RunTrace(s1, body, height + 1, more);
    OpenedUnderAppend(s1, inner, [terminator]);
    OpenedUnderBracket(s, open, inner + [terminator]);
    NoneOpened(Run(s1, inner).state, terminator);
    assert FrameStream(program, body, terminator, height) == [open] + (inner + [terminator]);
  }

  lemma OpenedUnderBracket(s: State, open: LogEntry, after: seq<LogEntry>)
    requires Wf(s) && open.Invoke? && Step(s, open).Continue?
    ensures OpenedUnder(s, [open] + after) == [TopFrame(s)] + OpenedUnder(Step(s, open).state, after)
  {
    assert ([open] + after)[1..] == after;
  }

  lemma OpenedUnderLine(s: State, entry: LogEntry, after: seq<LogEntry>)
    requires Wf(s) && Plain(entry)
    ensures OpenedUnder(s, [entry] + after) == OpenedUnder(Step(s, entry).state, after)
  {
    assert ([entry] + after)[1..] == after;
  }

  lemma NoneOpened(s: State, entry: LogEntry)
    requires Wf(s) && !entry.Invoke?
    ensures OpenedUnder(s, [entry]) == []
  {
    assert [entry][1..] == [];
  }

  /** On a well-formed stream the height stack and the frame stack name the same parent for every instruction. */
  lemma {:induction false} StacksAgree(t: Trace, i: nat, parent: Option<nat>)
    requires Wellformed(t) && i < |Ids(t, 1)|
    ensures |OpenedUnder(Start(Ids(t, 1)), Stream(t, 1))| == |Ids(t, 1)|
    ensures NearestShallower(HeightsOf(Ids(t, 1)), i, parent)
       <==> parent == OpenedUnder(Start(Ids(t, 1)), Stream(t, 1))[i] == Callers(t, 1, 0, None)[i]
  {
    var ids := Ids(t, 1);
    assert ids == ids + [];
    OpenedUnderTrace(Start(ids), t, 1, []);
    assert ids[0..0 + |ids|] == ids;
    CallersAreNearest(ids, t, 1, 0, None);
    assert NearestShallower(HeightsOf(ids), 0 + i, Callers(t, 1, 0, None)[i]);
    if NearestShallower(HeightsOf(ids), i, parent) {
      NearestShallowerUnique(HeightsOf(ids), i, parent, Callers(t, 1, 0, None)[i]);
    }
  }
}
