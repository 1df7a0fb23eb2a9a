/** parse_instructions and attach_logs: the loops that link parents and hand out log slices. */
module Attribution {
  import opened Wrappers
  import opened Logs
  import opened LogWalk
  import opened Filters

  // One instruction as the wire hands it over.
  datatype RawInstruction = RawInstruction(programIndex: nat, accountIndices: seq<nat>, data: seq<nat>,
                                           stackHeight: Option<nat>)

  /** The always-on health counters, and nothing else about the walk's history. */
  class Counters {
    var complete: nat
    var truncated: nat
    var desynced: nat
    var overrun: nat
    var instructions: nat
    var instructionsOpened: nat

    constructor ()
      ensures complete == truncated == desynced == overrun == instructions == instructionsOpened == 0
    {
      complete, truncated, desynced, overrun, instructions, instructionsOpened := 0, 0, 0, 0, 0, 0;
    }

    function ExitCount(exit: Exit): nat
      reads this
    {
      match exit
      case CompleteExit => complete
      case TruncatedExit => truncated
      case DesyncedExit => desynced
      case OverrunExit => overrun
    }

    method Finish(openCount: nat, exit: Exit)
      modifies this
      ensures instructions == old(instructions) && instructionsOpened == old(instructionsOpened) + openCount
      ensures forall e :: ExitCount(e) == old(ExitCount(e)) + if e == exit then 1 else 0
    {
      instructionsOpened := instructionsOpened + openCount;
      match exit
      case CompleteExit => complete := complete + 1;
      case TruncatedExit => truncated := truncated + 1;
      case DesyncedExit => desynced := desynced + 1;
      case OverrunExit => overrun := overrun + 1;
    }
  }

  function IdOf(ix: ParsedInstruction): Id {
    Id(ix.program, ix.stackHeight)
  }

  function IdsOf(ixs: seq<ParsedInstruction>): (r: seq<Id>)
    ensures |r| == |ixs|
  {
    seq(|ixs|, i requires 0 <= i < |ixs| => IdOf(ixs[i]))
  }

  // The array holds the slices of s, and is otherwise what it was.
  ghost predicate Holds(ixs: seq<ParsedInstruction>, was: seq<ParsedInstruction>, s: State) {
    && |ixs| == |was| == |s.slices| + |s.pending|
    && s.pending == IdsOf(was)[|s.slices|..]
    && (forall i :: 0 <= i < |s.slices| ==> ixs[i] == was[i].(logs := s.slices[i]))
    && (forall i :: |s.slices| <= i < |ixs| ==> ixs[i] == was[i])
  }

  method PushLog(result: array<ParsedInstruction>, i: nat, entry: LogEntry)
    requires i < result.Length
    modifies result
    ensures result[..] == old(result[..])[i := old(result[i]).(logs := old(result[i]).logs + [entry])]
  {
    result[i] := result[i].(logs := result[i].logs + [entry]);
  }

  method MarkTruncated(result: array<ParsedInstruction>, frames: seq<nat>, cursor: nat)
    requires Wf(State(seq(cursor, i => []), frames, [])) && cursor <= result.Length
    modifies result
    ensures forall i :: 0 <= i < result.Length ==>
              result[i] == if i in frames || cursor <= i
                           then old(result[i]).(logs := old(result[i]).logs + [LogEntry.Truncated])
                           else old(result[i])
  {
    for k := 0 to |frames|
      invariant forall i :: 0 <= i < result.Length ==>
                  result[i] == if i in frames[..k]
                               then old(result[i]).(logs := old(result[i]).logs + [LogEntry.Truncated])
                               else old(result[i])
    {
      PushLog(result, frames[k], LogEntry.Truncated);
    }
    assert frames[..|frames|] == frames;
    for i := cursor to result.Length
      invariant forall j :: 0 <= j < result.Length ==>
                  result[j] == if j in frames || cursor <= j < i
                               then old(result[j]).(logs := old(result[j]).logs + [LogEntry.Truncated])
                               else old(result[j])
    {
      PushLog(result, i, LogEntry.Truncated);
    }
  }

  // An entry that does not end the walk: its slice push and its effect on the stack of open frames.
  method Attribute(result: array<ParsedInstruction>, frames: seq<nat>, cursor: nat, entry: LogEntry,
                   ghost was: seq<ParsedInstruction>, ghost s: State)
    returns (frames': seq<nat>, cursor': nat)
    requires Wf(s) && Holds(result[..], was, s) && frames == s.frames && cursor == |s.slices|
    requires Step(s, entry).Continue?
    requires forall i :: 0 <= i < |was| ==> was[i].logs == []
    modifies result
    ensures var s' := Step(s, entry).state;
            Holds(result[..], was, s') && frames' == s'.frames && cursor' == |s'.slices|
  {
    frames', cursor' := frames, cursor;
    match Effect(entry) {
      case Open(program, depth) =>
        PushLog(result, cursor, entry);
        assert [] + [entry] == [entry];
        frames' := frames + [cursor];
        cursor' := cursor + 1;
      case Close =>
        if frames != [] {
          PushLog(result, Top(frames), entry);
          frames' := frames[..|frames| - 1];
        }
      case Body =>
        if frames != [] {
          PushLog(result, Top(frames), entry);
        }
    }
  }

  // The array agrees with the outcome of a walk that ended in s.
  ghost predicate Reads(ixs: seq<ParsedInstruction>, was: seq<ParsedInstruction>, slices: seq<seq<LogEntry>>) {
    && |slices| == |ixs| == |was|
    && forall i :: 0 <= i < |ixs| ==> ixs[i] == was[i].(logs := slices[i])
  }

  ghost predicate NoLogs(ixs: seq<ParsedInstruction>) {
    forall i :: 0 <= i < |ixs| ==> ixs[i].logs == []
  }

  lemma HeldSlices(ixs: seq<ParsedInstruction>, was: seq<ParsedInstruction>, s: State)
    requires Holds(ixs, was, s) && NoLogs(was)
    ensures Reads(ixs, was, LeaveEmpty(s))
  {
  }

  lemma HeldMarked(ixs: seq<ParsedInstruction>, marked: seq<ParsedInstruction>, was: seq<ParsedInstruction>, s: State)
    requires Holds(ixs, was, s) && NoLogs(was) && Wf(s) && |marked| == |ixs|
    requires forall i :: 0 <= i < |ixs| ==>
               marked[i] == if i in s.frames || |s.slices| <= i
                            then ixs[i].(logs := ixs[i].logs + [LogEntry.Truncated])
                            else ixs[i]
    ensures Reads(marked, was, MarkCut(s))
  {
  }

  // What the array says about the next invoke is what the walk says.
  lemma StepOnArray(ixs: seq<ParsedInstruction>, was: seq<ParsedInstruction>, s: State, entry: LogEntry)
    requires Holds(ixs, was, s) && Wf(s)
    ensures var c, effect := |s.slices|, Effect(entry);
            Step(s, entry).Stop? <==>
              || effect.Cut?
              || (effect.Open?
                  && (c >= |ixs| || ixs[c].program != effect.program || ixs[c].stackHeight != effect.depth))
    ensures Step(s, entry).Stop? ==>
            Step(s, entry) == Stop(s, if Effect(entry).Cut? then TruncatedExit
                                      else if |s.slices| >= |ixs| then OverrunExit else DesyncedExit)
  {
  }

  lemma RunStep(s: State, entries: seq<LogEntry>, k: nat)
    requires Wf(s) && k < |entries|
    ensures Run(s, entries[k..]) ==
            if Step(s, entries[k]).Stop? then Step(s, entries[k]) else Run(Step(s, entries[k]).state, entries[k + 1..])
  {
    assert entries[k..][0] == entries[k] && entries[k..][1..] == entries[k + 1..];
  }

  /** One walk: the array ends with the slices of Walk, and exactly one exit is counted. */
  method AttachLogs(result: array<ParsedInstruction>, entries: seq<LogEntry>, counters: Counters)
    requires forall i :: 0 <= i < result.Length ==> result[i].logs == []
    modifies result, counters
    ensures var o := Walk(IdsOf(old(result[..])), entries);
            && |o.slices| == result.Length
            && (forall i :: 0 <= i < result.Length ==> result[i] == old(result[i]).(logs := o.slices[i]))
            && counters.instructions == old(counters.instructions) + result.Length
            && counters.instructionsOpened == old(counters.instructionsOpened) + o.openCount
            && (forall e :: counters.ExitCount(e) == old(counters.ExitCount(e)) + if e == o.exit then 1 else 0)
  {
    hide Run, Step, MarkCut, LeaveEmpty, Holds;
    var frames: seq<nat> := [];
    var cursor: nat := 0;
    counters.instructions := counters.instructions + result.Length;
    ghost var was := old(result[..]);
    ghost var s := Start(IdsOf(was));
    HoldsAtStart(was);
    for k := 0 to |entries|
      invariant cursor == |s.slices| && frames == s.frames && Wf(s)
      invariant Holds(result[..], was, s)
      invariant Run(Start(IdsOf(was)), entries) == Run(s, entries[k..])
      invariant counters.instructions == old(counters.instructions) + result.Length
      invariant counters.instructionsOpened == old(counters.instructionsOpened)
      invariant forall e :: counters.ExitCount(e) == old(counters.ExitCount(e))
    {
      var entry := entries[k];
      RunStep(s, entries, k);
      StepOnArray(result[..], was, s, entry);
      HeldSlices(result[..], was, s);
      var effect := Effect(entry);
      if effect.Cut? {
        ghost var ixs := result[..];
        MarkTruncated(result, frames, cursor);
        counters.Finish(cursor, TruncatedExit);
        HeldMarked(ixs, result[..], was, s);
        return;
      }
      if effect.Open? {
        if cursor >= result.Length {
          counters.Finish(cursor, OverrunExit);
          return;
        }
        if result[cursor].program != effect.program || result[cursor].stackHeight != effect.depth {
          counters.Finish(cursor, DesyncedExit);
          return;
        }
      }
      frames, cursor := Attribute(result, frames, cursor, entry, was, s);
      s := Step(s, entry).state;
    }
    RunDone(s, entries);
    HeldSlices(result[..], was, s);
    counters.Finish(cursor, CompleteExit);
  }

  lemma HoldsAtStart(was: seq<ParsedInstruction>)
    ensures Holds(was, was, Start(IdsOf(was)))
  {
    assert IdsOf(was)[0..] == IdsOf(was);
  }

  lemma RunDone(s: State, entries: seq<LogEntry>)
    requires Wf(s)
    ensures Run(s, entries[|entries|..]) == Continue(s)
  {
  }

  // ---- Parents ------------------------------------------------------------

  /** p is the nearest earlier instruction strictly closer to the top than instruction i. */
  ghost predicate NearestShallower(heights: seq<nat>, i: nat, p: Option<nat>)
    requires i < |heights|
  {
    match p
    case None => forall j :: 0 <= j < i ==> heights[i] <= heights[j]
    case Some(q) => q < i && heights[q] < heights[i] && forall j :: q < j < i ==> heights[i] <= heights[j]
  }

  lemma NearestShallowerUnique(heights: seq<nat>, i: nat, p: Option<nat>, q: Option<nat>)
    requires i < |heights| && NearestShallower(heights, i, p) && NearestShallower(heights, i, q)
    ensures p == q
  {
  }

  function HeightOf(raw: RawInstruction): nat {
    match raw.stackHeight
    case None => 1
    case Some(h) => h
  }

  function Heights(raws: seq<RawInstruction>): (r: seq<nat>)
    ensures |r| == |raws|
  {
    seq(|raws|, i requires 0 <= i < |raws| => HeightOf(raws[i]))
  }

  // No instruction strictly between from and to is shallower than height.
  ghost predicate Covers(heights: seq<nat>, from: int, to: nat, height: nat)
    requires to <= |heights|
  {
    forall m :: from < m < to && 0 <= m ==> height <= heights[m]
  }

  function TopIndex(stack: seq<(nat, nat)>): int {
    if stack == [] then -1 else stack[|stack| - 1].0
  }

  // (index, height) pairs, strictly deeper towards the top, skipping only what is no shallower than the next one up.
  ghost predicate StackOk(heights: seq<nat>, stack: seq<(nat, nat)>) {
    stack == [] ||
    var (i, h), under := stack[|stack| - 1], stack[..|stack| - 1];
    && i < |heights| && h == heights[i]
    && StackOk(heights, under)
    && TopIndex(under) < i
    && (under != [] ==> under[|under| - 1].1 < h)
    && Covers(heights, TopIndex(under), i, h)
  }

  method PopTo(stack: seq<(nat, nat)>, height: nat, ghost heights: seq<nat>, ghost idx: nat)
    returns (stack': seq<(nat, nat)>)
    requires StackOk(heights, stack) && TopIndex(stack) == idx - 1 && idx < |heights|
    ensures StackOk(heights, stack') && TopIndex(stack') < idx
    ensures stack' != [] ==> stack'[|stack'| - 1].1 < height
    ensures Covers(heights, TopIndex(stack'), idx, height)
  {
    stack' := stack;
    while stack' != [] && stack'[|stack'| - 1].1 >= height
      invariant StackOk(heights, stack')
      invariant TopIndex(stack') < idx && Covers(heights, TopIndex(stack'), idx, height)
    {
      stack' := stack'[..|stack'| - 1];
    }
  }

  function Resolve(keys: seq<Pubkey>, index: nat): Pubkey {
    if index < |keys| then keys[index] else DEFAULT_KEY
  }

  // Account indices past the key list are skipped.
  function ResolveAccounts(keys: seq<Pubkey>, indices: seq<nat>): seq<Pubkey> {
    if indices == [] then []
    else (if indices[0] < |keys| then [keys[indices[0]]] else []) + ResolveAccounts(keys, indices[1..])
  }

  function InRange(keys: seq<Pubkey>): nat -> bool {
    (i: nat) => i < |keys|
  }

  function KeyAt(keys: seq<Pubkey>): nat -> Pubkey {
    (i: nat) => if i < |keys| then keys[i] else DEFAULT_KEY
  }

  /** The accounts of an instruction are the keys its indices name, in their order, less the indices past the list. */
  lemma {:induction false} AccountsInOrder(keys: seq<Pubkey>, indices: seq<nat>)
    ensures Filtered(indices, InRange(keys), KeyAt(keys), ResolveAccounts(keys, indices))
    decreases |indices|
  {
    if indices == [] {
      FilteredNone(InRange(keys), KeyAt(keys));
    } else {
      AccountsInOrder(keys, indices[1..]);
      FilteredCons(indices, InRange(keys), KeyAt(keys), ResolveAccounts(keys, indices[1..]));
    }
  }

  // What one raw instruction becomes before its logs are attached: an unknown program index reads as the all-zero key,
  // an unreported height as top level.
  ghost predicate ParsedFrom(ix: ParsedInstruction, raw: RawInstruction, keys: seq<Pubkey>, i: nat) {
    && (raw.programIndex < |keys| ==> ix.program == keys[raw.programIndex])
    && (raw.programIndex >= |keys| ==> ix.program == Pubkey(0))
    && Filtered(raw.accountIndices, InRange(keys), KeyAt(keys), ix.accounts)
    && ix.data == raw.data
    && (raw.stackHeight == None ==> ix.stackHeight == 1)
    && (forall h :: raw.stackHeight == Some(h) ==> ix.stackHeight == h)
    && ix.instructionIndex == i
  }

  method LinkParents(raws: seq<RawInstruction>, keys: seq<Pubkey>) returns (parsed: seq<ParsedInstruction>)
    ensures |parsed| == |raws|
    ensures forall i :: 0 <= i < |raws| ==> ParsedFrom(parsed[i], raws[i], keys, i) && parsed[i].logs == []
    ensures forall i :: 0 <= i < |raws| ==> NearestShallower(HeightsIn(parsed), i, parsed[i].parentIndex)
  {
    hide StackOk, Filtered, NearestShallower;
    parsed := [];
    var stack: seq<(nat, nat)> := [];
    ghost var heights := Heights(raws);
    assert StackOk(heights, stack) by {
      EmptyStackOk(heights);
    }
    for idx := 0 to |raws|
      invariant |parsed| == idx
      invariant forall i :: 0 <= i < idx ==> ParsedFrom(parsed[i], raws[i], keys, i) && parsed[i].logs == []
      invariant forall i :: 0 <= i < idx ==> NearestShallower(heights, i, parsed[i].parentIndex)
      invariant forall i :: 0 <= i < idx ==> parsed[i].stackHeight == heights[i]
      invariant StackOk(heights, stack) && TopIndex(stack) == idx - 1
    {
      var height := HeightOf(raws[idx]);
      stack := PopTo(stack, height, heights, idx);
      var parent := if stack == [] then None else Some(stack[|stack| - 1].0);
      StackTop(heights, stack, idx, height);
      AccountsInOrder(keys, raws[idx].accountIndices);
      parsed := parsed + [ParsedInstruction(Resolve(keys, raws[idx].programIndex),
                                            ResolveAccounts(keys, raws[idx].accountIndices),
                                            raws[idx].data, [], height, parent, idx)];
      StackPush(heights, stack, idx);
      stack := stack + [(idx, height)];
    }
    assert HeightsIn(parsed) == heights;
  }

  function HeightsIn(ixs: seq<ParsedInstruction>): (r: seq<nat>)
    ensures |r| == |ixs|
  {
    seq(|ixs|, i requires 0 <= i < |ixs| => ixs[i].stackHeight)
  }

  lemma EmptyStackOk(heights: seq<nat>)
    ensures StackOk(heights, [])
  {
  }

  // What is on top once everything as deep as instruction idx is popped is its nearest shallower instruction.
  lemma StackTop(heights: seq<nat>, stack: seq<(nat, nat)>, idx: nat, height: nat)
    requires StackOk(heights, stack) && TopIndex(stack) < idx < |heights| && heights[idx] == height
    requires stack != [] ==> stack[|stack| - 1].1 < height
    requires Covers(heights, TopIndex(stack), idx, height)
    ensures NearestShallower(heights, idx, if stack == [] then None else Some(stack[|stack| - 1].0))
  {
  }

  lemma StackPush(heights: seq<nat>, stack: seq<(nat, nat)>, idx: nat)
    requires StackOk(heights, stack) && TopIndex(stack) < idx < |heights|
    requires stack != [] ==> stack[|stack| - 1].1 < heights[idx]
    requires Covers(heights, TopIndex(stack), idx, heights[idx])
    ensures StackOk(heights, stack + [(idx, heights[idx])])
  {
    assert (stack + [(idx, heights[idx])])[..|stack|] == stack;
  }

  /** The whole entry point: parents by height, logs by the stream's own brackets. */
  method ParseInstructions(raws: seq<RawInstruction>, entries: seq<LogEntry>, keys: seq<Pubkey>, counters: Counters)
    returns (result: array<ParsedInstruction>)
    modifies counters
    ensures fresh(result) && result.Length == |raws|
    ensures forall i :: 0 <= i < |raws| ==>
              && ParsedFrom(result[i], raws[i], keys, i)
              && NearestShallower(HeightsIn(result[..]), i, result[i].parentIndex)
    ensures var o := Walk(IdsOf(result[..]), entries);
            && |o.slices| == |raws|
            && (forall i :: 0 <= i < |raws| ==> result[i].logs == o.slices[i])
            && counters.instructions == old(counters.instructions) + |raws|
            && counters.instructionsOpened == old(counters.instructionsOpened) + o.openCount
            && (forall e :: counters.ExitCount(e) == old(counters.ExitCount(e)) + if e == o.exit then 1 else 0)
  {
    hide Walk, NearestShallower, Filtered;
    var parsed := LinkParents(raws, keys);
    result := new ParsedInstruction[|parsed|](i requires 0 <= i < |parsed| => parsed[i]);
    assert result[..] == parsed;
    AttachLogs(result, entries, counters);
    assert IdsOf(result[..]) == IdsOf(parsed);
    assert HeightsIn(result[..]) == HeightsIn(parsed);
  }
}
