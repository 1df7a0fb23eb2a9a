/** The attribution counters under any interleaving of concurrent walks. */
module WalkCounters {
  import opened LogWalk
  import opened Logs

  // A walk adds its list length first, then its opened count, then its exit.
  datatype Phase = Begun | OpenedAdded | ExitAdded

  datatype WalkRun = WalkRun(total: nat, openCount: nat, exit: Exit, phase: Phase)

  datatype Tally = Tally(instructions: nat, instructionsOpened: nat, exits: map<Exit, nat>, walks: seq<WalkRun>)

  predicate Init(t: Tally) {
    && t.instructions == 0 && t.instructionsOpened == 0 && t.walks == []
    && t.exits == map[CompleteExit := 0, TruncatedExit := 0, DesyncedExit := 0, OverrunExit := 0]
  }

  ghost predicate Begin(t: Tally, t': Tally, ids: seq<Id>, entries: seq<LogEntry>) {
    var o := Walk(ids, entries);
    t' == t.(instructions := t.instructions + |ids|,
             walks := t.walks + [WalkRun(|ids|, o.openCount, o.exit, Begun)])
  }

  predicate AddOpened(t: Tally, t': Tally, w: nat) {
    && w < |t.walks| && t.walks[w].phase == Begun
    && t' == t.(instructionsOpened := t.instructionsOpened + t.walks[w].openCount,
                walks := t.walks[w := t.walks[w].(phase := OpenedAdded)])
  }

  predicate AddExit(t: Tally, t': Tally, w: nat) {
    && w < |t.walks| && t.walks[w].phase == OpenedAdded
    && t.walks[w].exit in t.exits
    && t' == t.(exits := t.exits[t.walks[w].exit := t.exits[t.walks[w].exit] + 1],
                walks := t.walks[w := t.walks[w].(phase := ExitAdded)])
  }

  ghost predicate Next(t: Tally, t': Tally) {
    || (exists ids, entries :: Begin(t, t', ids, entries))
    || (exists w: nat :: AddOpened(t, t', w))
    || (exists w: nat :: AddExit(t, t', w))
  }

  ghost predicate IsRun(ts: seq<Tally>) {
    && ts != [] && Init(ts[0])
    && (forall k :: 0 <= k < |ts| - 1 ==> Next(ts[k], ts[k + 1]))
  }

  function Totals(walks: seq<WalkRun>): nat {
    if walks == [] then 0 else Totals(walks[..|walks| - 1]) + walks[|walks| - 1].total
  }

  function OpenedTotals(walks: seq<WalkRun>): nat {
    if walks == [] then 0
    else OpenedTotals(walks[..|walks| - 1])
         + if walks[|walks| - 1].phase == Begun then 0 else walks[|walks| - 1].openCount
  }

  function Exited(walks: seq<WalkRun>, exit: Exit): nat {
    if walks == [] then 0
    else Exited(walks[..|walks| - 1], exit)
         + if walks[|walks| - 1].phase == ExitAdded && walks[|walks| - 1].exit == exit then 1 else 0
  }

  // The counters are exactly what the walks have added so far, and no walk opened more than it was given.
  ghost predicate Inv(t: Tally) {
    && t.instructions == Totals(t.walks)
    && t.instructionsOpened == OpenedTotals(t.walks)
    && t.exits.Keys == {CompleteExit, TruncatedExit, DesyncedExit, OverrunExit}
    && (forall e :: e in t.exits ==> t.exits[e] == Exited(t.walks, e))
    && (forall w :: 0 <= w < |t.walks| ==> t.walks[w].openCount <= t.walks[w].total)
  }

  lemma {:induction false} SumsUpdate(walks: seq<WalkRun>, w: nat, phase: Phase, exit: Exit)
    requires w < |walks|
    ensures var was, now := walks[w], walks[w].(phase := phase); var walks' := walks[w := now];
            && Totals(walks') == Totals(walks)
            && OpenedTotals(walks') + (if was.phase == Begun then 0 else was.openCount)
               == OpenedTotals(walks) + (if phase == Begun then 0 else was.openCount)
            && Exited(walks', exit) + (if was.phase == ExitAdded && was.exit == exit then 1 else 0)
               == Exited(walks, exit) + (if phase == ExitAdded && was.exit == exit then 1 else 0)
    decreases |walks|
  {
    var walks' := walks[w := walks[w].(phase := phase)];
    var n := |walks| - 1;
    if w == n {
      assert walks'[..n] == walks[..n];
    } else {
      SumsUpdate(walks[..n], w, phase, exit);
      assert walks'[..n] == walks[..n][w := walks[w].(phase := phase)];
    }
  }

  lemma BeginKeepsInv(t: Tally, t': Tally, ids: seq<Id>, entries: seq<LogEntry>)
    requires Inv(t) && Begin(t, t', ids, entries)
    ensures Inv(t')
  {
    hide Run, MarkCut, LeaveEmpty;
    RunCounts(Start(ids), entries);
    assert t'.walks[..|t.walks|] == t.walks;
  }

  lemma AddOpenedKeepsInv(t: Tally, t': Tally, w: nat)
    requires Inv(t) && AddOpened(t, t', w)
    ensures Inv(t')
  {
    SumsUpdate(t.walks, w, OpenedAdded, CompleteExit);
    forall e: Exit
      ensures Exited(t'.walks, e) == Exited(t.walks, e)
    {
      SumsUpdate(t.walks, w, OpenedAdded, e);
    }
  }

  lemma AddExitKeepsInv(t: Tally, t': Tally, w: nat)
    requires Inv(t) && AddExit(t, t', w)
    ensures Inv(t')
  {
    SumsUpdate(t.walks, w, ExitAdded, CompleteExit);
    forall e: Exit
      ensures Exited(t'.walks, e) == Exited(t.walks, e) + if e == t.walks[w].exit then 1 else 0
    {
      SumsUpdate(t.walks, w, ExitAdded, e);
    }
  }

  lemma NextKeepsInv(t: Tally, t': Tally)
    requires Inv(t) && Next(t, t')
    ensures Inv(t')
  {
    hide Inv;
    if ids, entries :| Begin(t, t', ids, entries) {
      BeginKeepsInv(t, t', ids, entries);
    } else if w: nat :| AddOpened(t, t', w) {
      AddOpenedKeepsInv(t, t', w);
    } else {
      var w: nat :| AddExit(t, t', w);
      AddExitKeepsInv(t, t', w);
    }
  }

  function Transactions(t: Tally): nat
    requires t.exits.Keys == {CompleteExit, TruncatedExit, DesyncedExit, OverrunExit}
  {
    t.exits[CompleteExit] + t.exits[TruncatedExit] + t.exits[DesyncedExit] + t.exits[OverrunExit]
  }

  lemma {:induction false} OpenedBelowTotals(walks: seq<WalkRun>)
    requires forall w :: 0 <= w < |walks| ==> walks[w].openCount <= walks[w].total
    ensures OpenedTotals(walks) <= Totals(walks)
    decreases |walks|
  {
    if walks != [] {
      OpenedBelowTotals(walks[..|walks| - 1]);
    }
  }

  function AllExited(walks: seq<WalkRun>): nat {
    Exited(walks, CompleteExit) + Exited(walks, TruncatedExit)
    + Exited(walks, DesyncedExit) + Exited(walks, OverrunExit)
  }

  lemma {:induction false} OneExitEach(walks: seq<WalkRun>)
    ensures AllExited(walks) <= |walks|
    ensures (forall w :: 0 <= w < |walks| ==> walks[w].phase == ExitAdded) ==> AllExited(walks) == |walks|
    decreases |walks|
  {
    if walks != [] {
      OneExitEach(walks[..|walks| - 1]);
    }
  }

  lemma {:induction false} RunKeepsInv(ts: seq<Tally>, k: nat)
    requires IsRun(ts) && k < |ts|
    ensures Inv(ts[k])
  {
    if k > 0 {
      RunKeepsInv(ts, k - 1);
      assert Next(ts[k - 1], ts[k - 1 + 1]);
      NextKeepsInv(ts[k - 1], ts[k]);
    }
  }

  /** At every moment of every interleaving the opened counter is within the instruction counter; exits never
      outnumber walks, and once every walk is done there is exactly one exit each. */
  lemma {:induction false} CountersBalance(ts: seq<Tally>, k: nat)
    requires IsRun(ts) && k < |ts|
    ensures ts[k].instructionsOpened <= ts[k].instructions
    ensures ts[k].exits.Keys == {CompleteExit, TruncatedExit, DesyncedExit, OverrunExit}
    ensures Transactions(ts[k]) <= |ts[k].walks|
    ensures (forall w :: 0 <= w < |ts[k].walks| ==> ts[k].walks[w].phase == ExitAdded) ==>
            Transactions(ts[k]) == |ts[k].walks|
  {
    RunKeepsInv(ts, k);
    OpenedBelowTotals(ts[k].walks);
    OneExitEach(ts[k].walks);
  }
}
