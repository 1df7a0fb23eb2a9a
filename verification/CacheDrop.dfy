/** The last-handle save: shared handles cloned, written through and dropped in any interleaving, and what is saved. */
module CacheDrop {
  import opened Wrappers
  import opened Logs
  import opened VersionedMap
  import Q = QuoteState

  // A stored value, by identity.
  type Value = nat

  // The one field of the cache that is written to disk; every other field, and every singleton, is runtime-only.
  const BLOCKHASHES := 0

  datatype Snapshot = Snapshot(entries: map<Pubkey, Versioned<Value>>, depth: nat)

  function SnapshotOf(depths: nat -> nat, c: Q.Cache<Value>): Snapshot {
    Snapshot(map a | a in c.accounts && a.tag == BLOCKHASHES :: a.key := c.accounts[a], depths(BLOCKHASHES))
  }

  // What loading a snapshot restores: the saved field, and nothing in any other.
  function Loaded(snap: Snapshot): Q.Cache<Value> {
    Q.Cache(map k | k in snap.entries :: Q.Account(BLOCKHASHES, k) := snap.entries[k], map[])
  }

  // A drop checks the handle count, perhaps saves, and only then releases its share of the count.
  datatype Phase = Live | Checked(last: bool) | Saving | Finished | Released

  // attempts: every insertion attempted, per account, oldest first; saves: the snapshots drops have written.
  // lastCheckAlone: whether the latest drop to begin found every other handle released.
  datatype State = State(
    handles: seq<Phase>, hasPath: bool, depths: nat -> nat, persisted: bool, data: Q.Cache<Value>,
    attempts: map<Q.Account, seq<Obs<Value>>>, saves: seq<Snapshot>, lastCheckAlone: bool)

  datatype Event =
    | Clone(handle: nat)
    | Insert(handle: nat, account: Q.Account, obs: Obs<Value>)
    | SetSingleton(handle: nat, id: nat, value: Value)
    | Check(handle: nat)
    | Swap(handle: nat)
    | Save(handle: nat)
    | Release(handle: nat)

  function Attempts(s: State, a: Q.Account): seq<Obs<Value>> {
    if a in s.attempts then s.attempts[a] else []
  }

  function Fresh(hasPath: bool, depths: nat -> nat): State {
    State([Live], hasPath, depths, false, Q.Cache(map[], map[]), map[], [], false)
  }

  ghost predicate Init(s: State) {
    s == Fresh(s.hasPath, s.depths)
  }

  function Outstanding(handles: seq<Phase>): nat {
    if handles == [] then 0
    else Outstanding(handles[..|handles| - 1]) + if handles[|handles| - 1].Released? then 0 else 1
  }

  predicate Enabled(s: State, e: Event) {
    e.handle < |s.handles| &&
    var p := s.handles[e.handle];
    match e
    case Clone(_) => p.Live?
    case Insert(_, _, _) => p.Live?
    case SetSingleton(_, _, _) => p.Live?
    case Check(_) => p.Live?
    case Swap(_) => p == Checked(true) && s.hasPath
    case Save(_) => p.Saving?
    case Release(_) => p == Checked(false) || p.Finished? || (p == Checked(true) && !s.hasPath)
  }

  function Step(s: State, e: Event): State
    requires Enabled(s, e)
  {
    match e
    case Clone(_) => s.(handles := s.handles + [Live])
    case Insert(_, a, obs) =>
      s.(data := Q.Insert(s.depths, s.data, Q.Write(a, obs)), attempts := s.attempts[a := Attempts(s, a) + [obs]])
    case SetSingleton(_, id, value) => s.(data := s.data.(singletons := s.data.singletons[id := value]))
    case Check(h) =>
      var alone := Outstanding(s.handles) == 1;
      s.(handles := s.handles[h := Checked(alone)], lastCheckAlone := alone)
    case Swap(h) =>
      s.(persisted := true, handles := s.handles[h := if s.persisted then Finished else Saving])
    case Save(h) => s.(saves := s.saves + [SnapshotOf(s.depths, s.data)], handles := s.handles[h := Finished])
    case Release(h) => s.(handles := s.handles[h := Released])
  }

  ghost predicate IsRun(states: seq<State>, events: seq<Event>) {
    && |states| == |events| + 1 && Init(states[0])
    && (forall i :: 0 <= i < |events| ==> Enabled(states[i], events[i]) && states[i + 1] == Step(states[i], events[i]))
  }

  predicate AllReleased(s: State) {
    forall h :: 0 <= h < |s.handles| ==> s.handles[h].Released?
  }

  // Only h is outstanding.
  predicate Alone(s: State, h: nat) {
    forall k :: 0 <= k < |s.handles| && k != h ==> s.handles[k].Released?
  }

  lemma {:induction false} NoneOutstanding(handles: seq<Phase>)
    ensures Outstanding(handles) == 0 <==> forall k :: 0 <= k < |handles| ==> handles[k].Released?
    decreases |handles|
  {
    if handles != [] {
      NoneOutstanding(handles[..|handles| - 1]);
      assert forall k :: 0 <= k < |handles| - 1 ==> handles[k] == handles[..|handles| - 1][k];
    }
  }

  lemma {:induction false} OneOutstanding(handles: seq<Phase>, h: nat)
    requires h < |handles| && !handles[h].Released?
    ensures Outstanding(handles) == 1 <==> forall k :: 0 <= k < |handles| && k != h ==> handles[k].Released?
    ensures Outstanding(handles) >= 1
    decreases |handles|
  {
    var n := |handles| - 1;
    assert forall k :: 0 <= k < n ==> handles[k] == handles[..n][k];
    if h == n {
      NoneOutstanding(handles[..n]);
    } else {
      OneOutstanding(handles[..n], h);
    }
  }

  // The drop that found itself last: from its check on, nobody else holds the cache.
  predicate SawLast(p: Phase) {
    p == Checked(true) || p.Saving? || p.Finished?
  }

  ghost predicate Inv(s: State) {
    && |s.handles| >= 1
    && (forall h :: 0 <= h < |s.handles| && SawLast(s.handles[h]) ==> Alone(s, h))
    && |s.saves| <= 1
    && (s.saves != [] ==> s.persisted && s.saves[0] == SnapshotOf(s.depths, s.data))
    && (s.saves != [] ==> forall h :: 0 <= h < |s.handles| ==> !s.handles[h].Live?)
    && (s.persisted && s.saves == [] ==> exists h :: 0 <= h < |s.handles| && s.handles[h].Saving?)
    && (forall h :: 0 <= h < |s.handles| && s.handles[h].Saving? ==> s.persisted && s.saves == [])
    && (forall h :: 0 <= h < |s.handles| && s.handles[h].Finished? ==> s.saves != [])
    && (forall h :: 0 <= h < |s.handles| && s.handles[h] == Checked(true) ==> !s.persisted)
    && (s.persisted ==> s.lastCheckAlone)
    && (forall h :: 0 <= h < |s.handles| && SawLast(s.handles[h]) ==> s.lastCheckAlone)
    && (s.lastCheckAlone && s.hasPath && s.saves == [] ==> exists h :: 0 <= h < |s.handles| && SawLast(s.handles[h]))
  }

  lemma CheckKeepsInv(s: State, h: nat)
    requires Inv(s) && Enabled(s, Check(h))
    ensures Inv(Step(s, Check(h)))
  {
    var s' := Step(s, Check(h));
    OneOutstanding(s.handles, h);
    assert forall k :: 0 <= k < |s.handles| && SawLast(s.handles[k]) ==> s.handles[h].Released?;
    assert forall k :: 0 <= k < |s.handles| ==> !SawLast(s.handles[k]);
    assert s'.handles[h] == Checked(s'.lastCheckAlone);
  }

  lemma StepKeepsInv(s: State, e: Event)
    requires Inv(s) && Enabled(s, e)
    ensures Inv(Step(s, e))
  {
    var s', h := Step(s, e), e.handle;
    match e
    case Check(_) => CheckKeepsInv(s, h);
    case Clone(_) =>
      assert forall k :: 0 <= k < |s.handles| ==> !SawLast(s.handles[k]);
      assert forall k :: 0 <= k < |s.handles| ==> s'.handles[k] == s.handles[k];
    case Insert(_, _, _) =>
    case SetSingleton(_, _, _) =>
    case Swap(_) => assert s'.handles[h].Saving?;
    case Save(_) => assert s'.handles[h].Finished?;
    case Release(_) =>
  }

  lemma {:induction false} RunKeepsInv(states: seq<State>, events: seq<Event>, i: nat)
    requires IsRun(states, events) && i < |states|
    ensures Inv(states[i]) && states[i].hasPath == states[0].hasPath
  {
    if i > 0 {
      RunKeepsInv(states, events, i - 1);
      assert Enabled(states[i - 1], events[i - 1]) && states[i - 1 + 1] == Step(states[i - 1], events[i - 1]);
      StepKeepsInv(states[i - 1], events[i - 1]);
    }
  }

  /** At most one drop ever saves, and what it saves is the snapshot of the cache as it is then and for good. */
  lemma {:induction false} AtMostOneSave(states: seq<State>, events: seq<Event>, i: nat)
    requires IsRun(states, events) && i < |states|
    ensures |states[i].saves| <= 1
    ensures states[i].saves != [] ==> states[i].saves == [SnapshotOf(states[i].depths, states[i].data)]
    ensures !states[i].hasPath ==> states[i].saves == []
  {
    RunKeepsInv(states, events, i);
    if !states[i].hasPath {
      NoPathNoSave(states, events, i);
    }
  }

  lemma {:induction false} NoPathNoSave(states: seq<State>, events: seq<Event>, i: nat)
    requires IsRun(states, events) && i < |states| && !states[i].hasPath
    ensures !states[i].persisted && states[i].saves == []
  {
    RunKeepsInv(states, events, i);
    if i > 0 {
      RunKeepsInv(states, events, i - 1);
      NoPathNoSave(states, events, i - 1);
      assert Enabled(states[i - 1], events[i - 1]) && states[i - 1 + 1] == Step(states[i - 1], events[i - 1]);
    }
  }

  /** Once every handle is gone, the snapshot was written exactly when a path is set and the last drop to begin
      began after every other handle had been released. */
  lemma {:induction false} SavedIff(states: seq<State>, events: seq<Event>, i: nat)
    requires IsRun(states, events) && i < |states| && AllReleased(states[i])
    ensures states[i].saves == if states[i].hasPath && states[i].lastCheckAlone
                               then [SnapshotOf(states[i].depths, states[i].data)]
                               else []
  {
    RunKeepsInv(states, events, i);
    AtMostOneSave(states, events, i);
  }

  /** The persisted flag never stops a drop that found itself last: by then no other drop can have set it. */
  lemma {:induction false} FlagIsUnset(states: seq<State>, events: seq<Event>, i: nat, h: nat)
    requires IsRun(states, events) && i < |states| && Enabled(states[i], Swap(h))
    ensures !states[i].persisted && Step(states[i], Swap(h)).persisted && Step(states[i], Swap(h)).handles[h].Saving?
  {
    RunKeepsInv(states, events, i);
  }

  // ---- What a snapshot holds -----------------------------------------------

  ghost predicate Holds(s: State) {
    && s.attempts.Keys == s.data.accounts.Keys
    && forall a :: a in s.attempts ==>
         s.attempts[a] != [] && Fold(s.depths(a.tag), s.attempts[a]) == Some(s.data.accounts[a])
  }

  lemma StepHolds(s: State, e: Event)
    requires Enabled(s, e) && Holds(s)
    ensures Holds(Step(s, e)) && Step(s, e).depths == s.depths
  {
    hide Fold, Put;
    if e.Insert? {
      var ws := Attempts(s, e.account);
      FoldAppend(s.depths(e.account.tag), ws, e.obs);
      FoldEmpty<Value>(s.depths(e.account.tag));
    }
  }

  lemma FoldEmpty<T>(depth: nat)
    ensures Fold<T>(depth, []) == None
  {
  }

  lemma {:induction false} RunHolds(states: seq<State>, events: seq<Event>, i: nat)
    requires IsRun(states, events) && i < |states|
    ensures Holds(states[i]) && states[i].depths == states[0].depths
  {
    if i > 0 {
      hide Holds;
      RunHolds(states, events, i - 1);
      assert Enabled(states[i - 1], events[i - 1]) && states[i - 1 + 1] == Step(states[i - 1], events[i - 1]);
      StepHolds(states[i - 1], events[i - 1]);
    }
  }

  // An observation the cache would answer from.
  ghost predicate Retains(c: Q.Cache<Value>, a: Q.Account, o: Obs<Value>) {
    a in c.accounts && o in All(c.accounts[a])
  }

  /** A reload answers from the saved field exactly as the cache did, at every slot, and from nothing else. */
  lemma {:induction false} ReloadReads(depths: nat -> nat, c: Q.Cache<Value>, a: Q.Account, slot: nat)
    ensures Q.Read(Loaded(SnapshotOf(depths, c)), a, slot) == if a.tag == BLOCKHASHES then Q.Read(c, a, slot) else None
  {
    hide Q.Read, LookupAt, All;
    ReloadEntry(depths, c, a);
    EntryRead(c, a, slot);
    EntryRead(Loaded(SnapshotOf(depths, c)), a, slot);
  }

  // It retains what the cache did of the saved field, and nothing else.
  lemma {:induction false} ReloadRetains(depths: nat -> nat, c: Q.Cache<Value>, a: Q.Account, o: Obs<Value>)
    ensures Retains(Loaded(SnapshotOf(depths, c)), a, o) <==> a.tag == BLOCKHASHES && Retains(c, a, o)
  {
    hide All;
    ReloadEntry(depths, c, a);
  }

  // The depths after a load: the saved field's comes with the snapshot, the others' with the configuration.
  function LoadedDepths(snap: Snapshot, config: nat -> nat): nat -> nat {
    tag => if tag == BLOCKHASHES then snap.depth else config(tag)
  }

  /** A reload goes on as the cache would have: written to the saved field, it holds what the cache would hold, account
      by account, whatever depths the new configuration asks for. */
  lemma {:induction false} ReloadContinues(depths: nat -> nat, config: nat -> nat, c: Q.Cache<Value>,
                                           key: Pubkey, o: Obs<Value>, b: Q.Account)
    ensures var snap, w := SnapshotOf(depths, c), Q.Write(Q.Account(BLOCKHASHES, key), o);
            Q.Entry(Q.Insert(LoadedDepths(snap, config), Loaded(snap), w), b)
            == if b.tag == BLOCKHASHES then Q.Entry(Q.Insert(depths, c, w), b) else None
  {
    hide Put, SnapshotOf, Loaded;
    SnapshotDepth(depths, c);
    ReloadEntry(depths, c, Q.Account(BLOCKHASHES, key));
    ReloadEntry(depths, c, b);
  }

  lemma SnapshotDepth(depths: nat -> nat, c: Q.Cache<Value>)
    ensures SnapshotOf(depths, c).depth == depths(BLOCKHASHES)
  {
  }

  lemma ReloadEntry(depths: nat -> nat, c: Q.Cache<Value>, a: Q.Account)
    ensures Q.Entry(Loaded(SnapshotOf(depths, c)), a) == if a.tag == BLOCKHASHES then Q.Entry(c, a) else None
  {
    assert a == Q.Account(a.tag, a.key);
  }

  lemma EntryRead(c: Q.Cache<Value>, a: Q.Account, slot: nat)
    ensures var o := LookupAt(Q.Entry(c, a), slot);
            Q.Read(c, a, slot) == if o.None? then None else Some(o.value.state)
    ensures LookupAt<Value>(None, slot) == None
  {
  }

  /** Exactly what a save holds: of the saved field, for each key, the last value accepted at each of its newest
      depth + 1 accepted slots; of the other fields, nothing. */
  lemma {:induction false} SavedWriteIff(states: seq<State>, events: seq<Event>, i: nat, a: Q.Account, o: Obs<Value>)
    requires IsRun(states, events) && i < |states| && states[i].saves != []
    ensures Retains(Loaded(states[i].saves[0]), a, o)
       <==> a.tag == BLOCKHASHES && Kept(states[i].depths(a.tag), Attempts(states[i], a), o)
  {
    var s := states[i];
    AtMostOneSave(states, events, i);
    RunHolds(states, events, i);
    ReloadRetains(s.depths, s.data, a, o);
    if a in s.attempts {
      KeptIff(s.depths(a.tag), s.attempts[a], o);
    }
  }

  // Everything ever accepted for the account would come back.
  ghost predicate AllBack(s: State, snap: Snapshot, a: Q.Account) {
    forall n: nat :: Accepted(Attempts(s, a), n) ==> Retains(Loaded(snap), a, Attempts(s, a)[n])
  }

  // Everything ever accepted at all, and every singleton.
  ghost predicate Complete(s: State, snap: Snapshot) {
    && (forall a :: a in s.attempts ==> AllBack(s, snap, a))
    && s.data.singletons == map[]
  }

  ghost predicate SavableAccount(s: State, a: Q.Account) {
    && a.tag == BLOCKHASHES
    && |AcceptedSlots(Attempts(s, a))| <= s.depths(a.tag) + 1 && NoRewrites(Attempts(s, a))
  }

  /** A save is complete exactly when only the saved field was ever written, no key of it at more than depth + 1
      slots, no slot of a key rewritten, and no singleton set. */
  lemma {:induction false} CompleteIff(states: seq<State>, events: seq<Event>, i: nat)
    requires IsRun(states, events) && i < |states| && states[i].saves != []
    ensures Complete(states[i], states[i].saves[0])
       <==> (forall a :: a in states[i].attempts ==> SavableAccount(states[i], a)) && states[i].data.singletons == map[]
  {
    hide SavableAccount, AllBack, Holds, SnapshotOf, Inv, IsRun;
    var s := states[i];
    AtMostOneSave(states, events, i);
    RunHolds(states, events, i);
    forall a | a in s.attempts
      ensures AllBack(s, s.saves[0], a) <==> SavableAccount(s, a)
    {
      AccountComplete(s, a);
    }
  }

  lemma {:induction false} AccountComplete(s: State, a: Q.Account)
    requires Holds(s) && a in s.attempts
    ensures AllBack(s, SnapshotOf(s.depths, s.data), a) <==> SavableAccount(s, a)
  {
    hide Fold, AcceptedSlots, NoRewrites, SnapshotOf, Loaded, Retains, Accepted, AllIn;
    var ws, snap := s.attempts[a], SnapshotOf(s.depths, s.data);
    forall o: Obs<Value>
      ensures Retains(Loaded(snap), a, o) <==> a.tag == BLOCKHASHES && Retains(s.data, a, o)
    {
      ReloadRetains(s.depths, s.data, a, o);
    }
    AllKeptIff(s.depths(a.tag), ws);
    if a.tag == BLOCKHASHES {
      BackIsIn(s, snap, a);
    } else {
      FirstAccepted(ws);
      assert Attempts(s, a) == ws && ws != [];
      assert !Retains(Loaded(snap), a, Attempts(s, a)[0]);
    }
  }

  lemma BackIsIn(s: State, snap: Snapshot, a: Q.Account)
    requires a in s.data.accounts
    requires forall o :: Retains(Loaded(snap), a, o) <==> Retains(s.data, a, o)
    ensures AllBack(s, snap, a) <==> AllIn(Attempts(s, a), All(s.data.accounts[a]))
  {
    hide Loaded, All, Attempts;
    if AllBack(s, snap, a) {
      forall n: nat | Accepted(Attempts(s, a), n)
        ensures Attempts(s, a)[n] in All(s.data.accounts[a])
      {
        assert Retains(Loaded(snap), a, Attempts(s, a)[n]);
      }
    }
    if AllIn(Attempts(s, a), All(s.data.accounts[a])) {
      forall n: nat | Accepted(Attempts(s, a), n)
        ensures Retains(Loaded(snap), a, Attempts(s, a)[n])
      {
        assert Retains(s.data, a, Attempts(s, a)[n]);
      }
    }
  }

  lemma FirstAccepted<T>(ws: seq<Obs<T>>)
    requires ws != []
    ensures Accepted(ws, 0)
  {
  }

  // ---- Drops that do not overlap -------------------------------------------

  predicate Dropping(p: Phase) {
    !p.Live? && !p.Released?
  }

  ghost predicate OneDropAtATime(s: State) {
    forall h, k :: 0 <= h < k < |s.handles| ==> !(Dropping(s.handles[h]) && Dropping(s.handles[k]))
  }

  // A drop that did not find itself last still leaves a live handle behind, and the last to go was alone.
  ghost predicate OrderlyInv(s: State) {
    && (forall h :: 0 <= h < |s.handles| && s.handles[h] == Checked(false) ==>
          exists k :: 0 <= k < |s.handles| && s.handles[k].Live?)
    && (AllReleased(s) ==> s.lastCheckAlone)
  }

  lemma OrderlyStep(s: State, e: Event)
    requires Inv(s) && OrderlyInv(s) && OneDropAtATime(s) && Enabled(s, e) && OneDropAtATime(Step(s, e))
    ensures OrderlyInv(Step(s, e))
  {
    var s', h := Step(s, e), e.handle;
    match e
    case Check(_) => OrderlyCheck(s, h);
    case Release(_) =>
      if s.handles[h] == Checked(false) {
        var k :| 0 <= k < |s.handles| && s.handles[k].Live?;
        assert s'.handles[k].Live?;
      } else {
        assert SawLast(s.handles[h]);
      }
    case Clone(_) =>
      assert s'.handles[|s.handles|].Live?;
    case Insert(_, _, _) =>
    case SetSingleton(_, _, _) =>
    case Swap(_) =>
      assert Dropping(s'.handles[h]);
    case Save(_) =>
      assert Dropping(s'.handles[h]);
  }

  lemma OrderlyCheck(s: State, h: nat)
    requires OrderlyInv(s) && Enabled(s, Check(h)) && OneDropAtATime(Step(s, Check(h)))
    ensures OrderlyInv(Step(s, Check(h)))
  {
    var s' := Step(s, Check(h));
    OneOutstanding(s.handles, h);
    if s'.handles[h] == Checked(false) {
      var k :| 0 <= k < |s.handles| && k != h && !s.handles[k].Released?;
      assert Dropping(s'.handles[h]);
      assert s'.handles[k] == s.handles[k];
    }
  }

  /** When drops never overlap and a path is set, the last handle to go has written the snapshot, once. */
  lemma {:induction false} OrderlyDropsSave(states: seq<State>, events: seq<Event>, i: nat)
    requires IsRun(states, events) && i < |states| && states[i].hasPath && AllReleased(states[i])
    requires forall j :: 0 <= j < |states| ==> OneDropAtATime(states[j])
    ensures states[i].saves == [SnapshotOf(states[i].depths, states[i].data)]
  {
    OrderlyRun(states, events, i);
    SavedIff(states, events, i);
  }

  lemma {:induction false} OrderlyRun(states: seq<State>, events: seq<Event>, i: nat)
    requires IsRun(states, events) && i < |states|
    requires forall j :: 0 <= j < |states| ==> OneDropAtATime(states[j])
    ensures OrderlyInv(states[i])
  {
    if i > 0 {
      OrderlyRun(states, events, i - 1);
      RunKeepsInv(states, events, i - 1);
      assert Enabled(states[i - 1], events[i - 1]) && states[i - 1 + 1] == Step(states[i - 1], events[i - 1]);
      OrderlyStep(states[i - 1], events[i - 1]);
    } else {
      assert states[0].handles[0].Live?;
    }
  }

  // ---- Runs that lose something ---------------------------------------------

  lemma TwoOutstanding(p: Phase, q: Phase)
    ensures Outstanding([p, q]) == (if p.Released? then 0 else 1) + if q.Released? then 0 else 1
    ensures Outstanding([p]) == if p.Released? then 0 else 1
  {
    assert Outstanding([]) == 0;
    assert [p][..0] == [] && [p][0] == p;
    assert [p, q][..1] == [p] && [p, q][1] == q;
    assert Outstanding([p]) == if p.Released? then 0 else 1;
  }

  // A run, one step longer.
  lemma More(states: seq<State>, events: seq<Event>, e: Event) returns (states': seq<State>, events': seq<Event>)
    requires IsRun(states, events) && Enabled(states[|events|], e)
    ensures IsRun(states', events') && events' == events + [e]
    ensures states' == states + [Step(states[|events|], e)]
  {
    hide Enabled, Step;
    states', events' := states + [Step(states[|events|], e)], events + [e];
  }

  // Two handles dropped at once, whatever was written before.
  lemma {:induction false} BothDrop(states: seq<State>, events: seq<Event>)
    returns (states': seq<State>, events': seq<Event>)
    requires IsRun(states, events) && states[|events|].handles == [Live, Live]
    ensures events' == events + [Check(0), Check(1), Release(0), Release(1)]
    ensures IsRun(states', events') && states <= states'
    ensures var s, s' := states[|events|], states'[|events'|];
            s'.data == s.data && s'.saves == s.saves && AllReleased(s')
  {
    hide Outstanding, IsRun;
    var n := |events|;
    RunLength(states, events);
    TwoOutstanding(Live, Live);
    TwoOutstanding(Checked(false), Live);
    states', events' := More(states, events, Check(0));
    assert states'[n + 1].handles == [Checked(false), Live];
    states', events' := More(states', events', Check(1));
    assert states'[n + 2].handles == [Checked(false), Checked(false)];
    states', events' := More(states', events', Release(0));
    assert states'[n + 3].handles == [Released, Checked(false)];
    states', events' := More(states', events', Release(1));
    assert states'[n + 4].handles == [Released, Released];
  }

  /** Two overlapping drops each see the other's handle, and nobody saves. */
  lemma {:induction false} OverlappingDropsLose(depths: nat -> nat, a: Q.Account, o: Obs<Value>)
    returns (states: seq<State>, events: seq<Event>)
    ensures events == [Clone(0), Insert(0, a, o), Check(0), Check(1), Release(0), Release(1)]
    ensures IsRun(states, events) && states[0] == Fresh(true, depths)
    ensures AllReleased(states[|events|]) && Retains(states[|events|].data, a, o) && states[|events|].saves == []
  {
    hide IsRun, Q.Insert, Retains, AllReleased;
    states, events := [Fresh(true, depths)], [];
    OneState(Fresh(true, depths));
    states, events := More(states, events, Clone(0));
    assert states[1].handles == [Live, Live];
    InsertRetained(depths, a, o);
    states, events := More(states, events, Insert(0, a, o));
    states, events := BothDrop(states, events);
  }

  lemma OneState(s: State)
    requires Init(s)
    ensures IsRun([s], [])
  {
  }

  lemma InsertRetained(depths: nat -> nat, a: Q.Account, o: Obs<Value>)
    ensures Retains(Q.Insert(depths, Q.Cache(map[], map[]), Q.Write(a, o)), a, o)
  {
    assert o in [o] + [];
  }

  /** A handle that was never shared saves the snapshot when it is dropped. */
  lemma {:induction false} LoneDrop(states: seq<State>, events: seq<Event>)
    returns (states': seq<State>, events': seq<Event>)
    requires IsRun(states, events) && states[|events|].handles == [Live]
    requires states[|events|].hasPath && !states[|events|].persisted
    ensures events' == events + [Check(0), Swap(0), Save(0), Release(0)]
    ensures IsRun(states', events') && states <= states'
    ensures var s, s' := states[|events|], states'[|events'|];
            && s'.data == s.data && s'.attempts == s.attempts && AllReleased(s')
            && s'.saves == s.saves + [SnapshotOf(s.depths, s.data)]
  {
    hide Outstanding, IsRun, SnapshotOf;
    TwoOutstanding(Live, Live);
    var n := |events|;
    RunLength(states, events);
    states', events' := More(states, events, Check(0));
    assert states'[n + 1].handles == [Checked(true)];
    states', events' := More(states', events', Swap(0));
    assert states'[n + 2].handles == [Saving];
    states', events' := More(states', events', Save(0));
    assert states'[n + 3].handles == [Finished];
    states', events' := More(states', events', Release(0));
    assert states'[n + 4].handles == [Released];
  }

  lemma RunLength(states: seq<State>, events: seq<Event>)
    requires IsRun(states, events)
    ensures |states| == |events| + 1
  {
  }

  lemma {:induction false} NeverShared(states: seq<State>, events: seq<Event>, i: nat)
    requires IsRun(states, events) && i < |states| && forall j :: 0 <= j < |events| ==> !events[j].Clone?
    ensures |states[i].handles| == 1 && OneDropAtATime(states[i])
  {
    if i > 0 {
      NeverShared(states, events, i - 1);
      assert Enabled(states[i - 1], events[i - 1]) && states[i - 1 + 1] == Step(states[i - 1], events[i - 1]);
    }
  }

  /** An orderly drop saves, and the save is not complete: a write to a runtime-only field or a singleton is never in
      it, and at depth zero a second accepted slot of a key has already displaced the first. */
  lemma {:induction false} OrderlySaveLoses(key: Pubkey, runtime: Obs<Value>, older: Obs<Value>, newer: Obs<Value>,
                                            single: Value)
    returns (states: seq<State>, events: seq<Event>)
    requires older.slot < newer.slot
    ensures var saved, field := Q.Account(BLOCKHASHES, key), Q.Account(BLOCKHASHES + 1, key);
            events == [SetSingleton(0, 3, single), Insert(0, field, runtime), Insert(0, saved, older),
                       Insert(0, saved, newer), Check(0), Swap(0), Save(0), Release(0)]
    ensures IsRun(states, events) && states[0] == Fresh(true, n => 0)
    ensures forall j :: 0 <= j < |states| ==> OneDropAtATime(states[j])
    ensures var saved, field, end := Q.Account(BLOCKHASHES, key), Q.Account(BLOCKHASHES + 1, key), states[|events|];
            && AllReleased(end) && end.saves == [Snapshot(map[key := Versioned(newer, [])], 0)]
            && Retains(end.data, field, runtime) && end.data.singletons == map[3 := single]
            && Loaded(end.saves[0]).singletons == map[]
            && !Retains(Loaded(end.saves[0]), field, runtime) && !Retains(Loaded(end.saves[0]), saved, older)
            && !Complete(end, end.saves[0])
  {
    hide IsRun, SnapshotOf, Loaded, Retains, Complete, Q.Insert, AllReleased, OneDropAtATime;
    var saved, field := Q.Account(BLOCKHASHES, key), Q.Account(BLOCKHASHES + 1, key);
    var s0 := Fresh(true, n => 0);
    states, events := [s0], [];
    OneState(s0);
    states, events := More(states, events, SetSingleton(0, 3, single));
    states, events := More(states, events, Insert(0, field, runtime));
    states, events := More(states, events, Insert(0, saved, older));
    states, events := More(states, events, Insert(0, saved, newer));
    ThreeWrites(s0.depths, map[3 := single], key, runtime, older, newer);
    assert states[4].attempts[field] == [] + [runtime];
    states, events := LoneDrop(states, events);
    RunLength(states, events);
    forall j | 0 <= j < |states|
      ensures OneDropAtATime(states[j])
    {
      NeverShared(states, events, j);
    }
    TwoLost(states[8], key, runtime, older, newer);
  }

  lemma ThreeWrites(depths: nat -> nat, singletons: map<nat, Value>, key: Pubkey,
                    runtime: Obs<Value>, older: Obs<Value>, newer: Obs<Value>)
    requires depths(BLOCKHASHES) == 0 && older.slot < newer.slot
    ensures var saved, field := Q.Account(BLOCKHASHES, key), Q.Account(BLOCKHASHES + 1, key);
            var c := Q.Insert(depths, Q.Cache(map[], singletons), Q.Write(field, runtime));
            var c' := Q.Insert(depths, Q.Insert(depths, c, Q.Write(saved, older)), Q.Write(saved, newer));
            && c'.accounts == map[field := Versioned(runtime, []), saved := Versioned(newer, [])]
            && c'.singletons == singletons
            && SnapshotOf(depths, c') == Snapshot(map[key := Versioned(newer, [])], 0)
  {
    var saved, field := Q.Account(BLOCKHASHES, key), Q.Account(BLOCKHASHES + 1, key);
    var c := Q.Insert(depths, Q.Cache(map[], singletons), Q.Write(field, runtime));
    var c1 := Q.Insert(depths, c, Q.Write(saved, older));
    assert c1.accounts == map[field := Versioned(runtime, []), saved := Versioned(older, [])];
    var c2 := Q.Insert(depths, c1, Q.Write(saved, newer));
    assert c2.accounts == map[field := Versioned(runtime, []), saved := Versioned(newer, [])];
    assert SnapshotOf(depths, c2).entries == map[key := Versioned(newer, [])];
  }

  lemma TwoLost(s: State, key: Pubkey, runtime: Obs<Value>, older: Obs<Value>, newer: Obs<Value>)
    requires older.slot < newer.slot
    requires var saved, field := Q.Account(BLOCKHASHES, key), Q.Account(BLOCKHASHES + 1, key);
             && s.data.accounts == map[field := Versioned(runtime, []), saved := Versioned(newer, [])]
             && field in s.attempts && s.attempts[field] == [runtime]
             && s.saves == [Snapshot(map[key := Versioned(newer, [])], 0)]
    ensures var saved, field, c' := Q.Account(BLOCKHASHES, key), Q.Account(BLOCKHASHES + 1, key), Loaded(s.saves[0]);
            && Retains(s.data, field, runtime) && !Retains(c', field, runtime) && !Retains(c', saved, older)
            && c'.singletons == map[]
            && !Complete(s, s.saves[0])
  {
    var saved, field, c' := Q.Account(BLOCKHASHES, key), Q.Account(BLOCKHASHES + 1, key), Loaded(s.saves[0]);
    assert c'.accounts == map[saved := Versioned(newer, [])];
    assert All(s.data.accounts[field]) == [runtime] && All(c'.accounts[saved]) == [newer];
    FirstAccepted(s.attempts[field]);
    assert Attempts(s, field)[0] == runtime;
    assert !AllBack(s, s.saves[0], field);
  }
}
