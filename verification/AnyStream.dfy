/** What the walk guarantees over every stream and every instruction list, well-formed or not. */
module AnyStream {
  import opened Logs
  import opened LogWalk

  // ---- Verdicts -----------------------------------------------------------

  // A slice the walk has opened for id: its own invoke, then nothing structural until the line that closes it.
  predicate Bracketed(slice: seq<LogEntry>, id: Id, open: bool) {
    && slice != []
    && slice[0] == Invoke(id.program, id.height)
    && LogEntry.Truncated !in slice
    && (forall j :: 1 <= j < |slice| - 1 ==> Plain(slice[j]))
    && (if open then |slice| > 1 ==> Plain(Last(slice)) else Last(slice).Success? || Last(slice).Failed?)
  }

  function Last(slice: seq<LogEntry>): LogEntry
    requires slice != []
  {
    slice[|slice| - 1]
  }

  predicate AllBracketed(ids: seq<Id>, s: State) {
    && |s.slices| + |s.pending| == |ids|
    && s.pending == ids[|s.slices|..]
    && (forall i :: 0 <= i < |s.slices| ==> Bracketed(s.slices[i], ids[i], i in s.frames))
  }

  lemma BracketedGrows(slice: seq<LogEntry>, id: Id, entry: LogEntry)
    requires Bracketed(slice, id, true) && !entry.Invoke? && !entry.Truncated?
    ensures Bracketed(slice + [entry], id, Plain(entry))
  {
    var grown := slice + [entry];
    assert forall j :: 1 <= j < |grown| - 1 ==> grown[j] == slice[j];
  }

  // Only the innermost frame leaves the stack.
  lemma PoppedFrames(s: State, i: nat)
    requires Wf(s) && s.frames != []
    ensures i in s.frames[..|s.frames| - 1] <==> i in s.frames && i != Top(s.frames)
  {
    var n := |s.frames| - 1;
    assert s.frames == s.frames[..n] + [s.frames[n]];
  }

  lemma StepKeepsBrackets(ids: seq<Id>, s: State, entry: LogEntry)
    requires Wf(s) && AllBracketed(ids, s)
    ensures AllBracketed(ids, Step(s, entry).state)
  {
    var s' := Step(s, entry).state;
    if !entry.Invoke? && !entry.Truncated? && s.frames != [] {
      BracketedGrows(s.slices[Top(s.frames)], ids[Top(s.frames)], entry);
    }
    forall i | 0 <= i < |s'.slices|
      ensures Bracketed(s'.slices[i], ids[i], i in s'.frames)
    {
      if s.frames != [] {
        PoppedFrames(s, i);
      }
    }
  }

  lemma {:induction false} RunKeepsBrackets(ids: seq<Id>, s: State, entries: seq<LogEntry>)
    requires Wf(s) && AllBracketed(ids, s)
    ensures AllBracketed(ids, Run(s, entries).state)
    decreases |entries|
  {
    hide AllBracketed;
    if entries != [] {
      StepKeepsBrackets(ids, s, entries[0]);
      RunKeepsBrackets(ids, Step(s, entries[0]).state, entries[1..]);
    }
  }

  lemma BracketVerdict(slice: seq<LogEntry>, id: Id, open: bool)
    requires Bracketed(slice, id, open)
    ensures Audit(id.program, id.height, slice)
         == if !open && Ends(Last(slice), id.program) then Verdict.Ok else Unterminated
  {
  }

  /** Only four of the eight verdicts are reachable, and exactly these: a cut marks what is open or unopened;
      otherwise an unopened instruction is empty and an open one is unterminated. A closed one ends in the line that
      closed it, cut or no cut, and is clean exactly when that line names its own program. */
  lemma {:induction false} ReachableVerdicts(ids: seq<Id>, entries: seq<LogEntry>, i: nat)
    requires i < |ids|
    ensures |Walk(ids, entries).slices| == |ids|
    ensures var o, open := Walk(ids, entries), i in Run(Start(ids), entries).state.frames;
            var v := Audit(ids[i].program, ids[i].height, o.slices[i]);
            if o.openCount <= i then v == if o.exit == TruncatedExit then Verdict.Truncated else Empty
            else if open then v == if o.exit == TruncatedExit then Verdict.Truncated else Unterminated
            else
              && o.slices[i] != [] && (Last(o.slices[i]).Success? || Last(o.slices[i]).Failed?)
              && v == if Ends(Last(o.slices[i]), ids[i].program) then Verdict.Ok else Unterminated
  {
    var p := Run(Start(ids), entries);
    RunKeepsBrackets(ids, Start(ids), entries);
    if i < |p.state.slices| {
      BracketVerdict(p.state.slices[i], ids[i], i in p.state.frames);
      if i in p.state.frames {
        assert MarkCut(p.state)[i] == p.state.slices[i] + [LogEntry.Truncated];
      } else {
        assert MarkCut(p.state)[i] == p.state.slices[i];
      }
      assert LeaveEmpty(p.state)[i] == p.state.slices[i];
    } else {
      assert MarkCut(p.state)[i] == [LogEntry.Truncated];
      assert LeaveEmpty(p.state)[i] == [];
    }
  }

  lemma {:induction false} FourVerdicts(ids: seq<Id>, entries: seq<LogEntry>, i: nat)
    requires i < |ids|
    ensures |Walk(ids, entries).slices| == |ids|
    ensures Audit(ids[i].program, ids[i].height, Walk(ids, entries).slices[i])
            in {Verdict.Ok, Verdict.Truncated, Empty, Unterminated}
  {
    ReachableVerdicts(ids, entries, i);
  }

  // ---- Exits --------------------------------------------------------------

  function HasCut(entries: seq<LogEntry>): bool {
    exists j :: 0 <= j < |entries| && entries[j].Truncated?
  }

  // The invokes the runtime reported before its first cut.
  function Invokes(entries: seq<LogEntry>): seq<Id> {
    if entries == [] || entries[0].Truncated? then []
    else if entries[0].Invoke? then [Id(entries[0].program, entries[0].depth)] + Invokes(entries[1..])
    else Invokes(entries[1..])
  }

  function Lcp<T(==)>(a: seq<T>, b: seq<T>): (n: nat)
    ensures n <= |a| && n <= |b| && a[..n] == b[..n]
    ensures n < |a| && n < |b| ==> a[n] != b[n]
  {
    if a != [] && b != [] && a[0] == b[0] then
      var n := 1 + Lcp(a[1..], b[1..]);
      assert a[..n] == [a[0]] + a[1..][..n - 1];
      assert b[..n] == [b[0]] + b[1..][..n - 1];
      n
    else 0
  }

  function ExitOf(expected: nat, invokes: nat, matched: nat, cut: bool): Exit {
    if matched < invokes then (if matched == expected then OverrunExit else DesyncedExit)
    else if cut then TruncatedExit
    else CompleteExit
  }

  lemma {:induction false} RunClassified(s: State, entries: seq<LogEntry>)
    requires Wf(s)
    ensures var p, m := Run(s, entries), Lcp(s.pending, Invokes(entries));
            && |p.state.slices| == |s.slices| + m
            && (if p.Stop? then p.exit else CompleteExit)
               == ExitOf(|s.pending|, |Invokes(entries)|, m, HasCut(entries))
    decreases |entries|
  {
    if entries != [] {
      hide HasCut;
      HasCutStep(entries);
      var p := Step(s, entries[0]);
      if p.Continue? {
        RunClassified(p.state, entries[1..]);
      }
      InvokesStep(s, entries);
    }
  }

  lemma HasCutStep(entries: seq<LogEntry>)
    requires entries != []
    ensures HasCut(entries) == (entries[0].Truncated? || HasCut(entries[1..]))
  {
    assert forall j :: 1 <= j < |entries| ==> entries[j] == entries[1..][j - 1];
  }

  // How the matched prefix moves with one entry.
  lemma InvokesStep(s: State, entries: seq<LogEntry>)
    requires Wf(s) && entries != []
    ensures var p, invokes := Step(s, entries[0]), Invokes(entries);
            if p.Stop? then
              Lcp(s.pending, invokes) == 0
              && (p.exit.TruncatedExit? ==> invokes == [])
              && (!p.exit.TruncatedExit? ==> invokes != [] && (p.exit.OverrunExit? <==> s.pending == []))
            else
              && |invokes| - |Invokes(entries[1..])| == |s.pending| - |p.state.pending| == |p.state.slices| - |s.slices|
              && Lcp(s.pending, invokes)
                  == Lcp(p.state.pending, Invokes(entries[1..])) + |s.pending| - |p.state.pending|
  {
    hide Step, Lcp, Wf;
    var entry, rest := entries[0], Invokes(entries[1..]);
    StepByEntry(s, entry);
    if entry.Invoke? {
      assert entry == Invoke(entry.program, entry.depth);
      LcpCons(s.pending, Id(entry.program, entry.depth), rest);
    } else if entry.Truncated? {
      LcpNone(s.pending);
    }
  }

  lemma LcpCons<T>(a: seq<T>, b: T, rest: seq<T>)
    ensures ([b] + rest)[0] == b && |[b] + rest| == 1 + |rest|
    ensures a == [] || a[0] != b ==> Lcp(a, [b] + rest) == 0
    ensures a != [] && a[0] == b ==> Lcp(a, [b] + rest) == 1 + Lcp(a[1..], rest)
  {
    assert ([b] + rest)[1..] == rest;
  }

  lemma LcpNone<T>(a: seq<T>)
    ensures Lcp(a, []) == 0
  {
  }

  /** Opened instructions are the longest common prefix of the instruction list and the invokes before the
      first cut; that prefix and the presence of a cut decide the exit. */
  lemma {:induction false} WalkClassified(ids: seq<Id>, entries: seq<LogEntry>)
    ensures var o, m := Walk(ids, entries), Lcp(ids, Invokes(entries));
            && o.openCount == m
            && o.exit == ExitOf(|ids|, |Invokes(entries)|, m, HasCut(entries))
  {
    RunClassified(Start(ids), entries);
  }

  /** The complete exit says the stream matched a prefix of the list: that every instruction was opened
      is a further condition, and it fails on a stream that simply ends early. */
  lemma {:induction false} CompleteIff(ids: seq<Id>, entries: seq<LogEntry>)
    ensures Walk(ids, entries).exit == CompleteExit <==> Invokes(entries) <= ids && !HasCut(entries)
    ensures Walk(ids, entries).exit == CompleteExit && Walk(ids, entries).openCount == |ids|
       <==> Invokes(entries) == ids && !HasCut(entries)
  {
    WalkClassified(ids, entries);
    var invokes := Invokes(entries);
    assert invokes <= ids ==> forall j :: 0 <= j < |invokes| ==> ids[j] == invokes[j];
  }

  // One instruction and no log lines at all: the complete exit, with nothing opened.
  lemma {:induction false} CompleteWithUnopened(id: Id)
    ensures Walk([id], []).exit == CompleteExit && Walk([id], []).openCount == 0
  {
    WalkClassified([id], []);
  }
}
