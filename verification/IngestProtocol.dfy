/** Stream applies and the resolver, interleaved one send or receive at a time. */
module IngestProtocol {
  import opened Logs
  import opened Ingest

  // Between fetching a key and going idle, the resolver re-enters apply once per update.
  datatype Phase = Idle | Fetching(key: Pubkey) | Applying(pending: seq<Pubkey>)

  // streams: the sends each in-flight stream apply still has to make.
  // reported, fetched, lost and attempted are history: what was ever reported for fetching, what was fetched
  // successfully in order, what a full queue or a failed fetch let go of and nothing has reported or taken up since,
  // and how many sends were tried; sent and taken are the keys queued and received so far, in order.
  datatype State = State(
    queue: seq<Pubkey>, dropped: nat, taken: seq<Pubkey>, seen: set<Pubkey>, phase: Phase, streams: seq<seq<Pubkey>>,
    reported: set<Pubkey>, fetched: seq<Pubkey>, lost: set<Pubkey>, attempted: nat, sent: seq<Pubkey>)

  datatype Event =
    | StreamDispatch(result: HandleResult)
    | StreamSend(stream: nat)
    | Receive
    | FetchFails
    | FetchSucceeds
    | ResolverDispatch(result: HandleResult)
    | ResolverSend
    | ResolverDone

  function Keys(s: seq<Pubkey>): set<Pubkey> {
    set k | k in s
  }

  function TrySend(s: State, k: Pubkey): State {
    var tried := s.(attempted := s.attempted + 1);
    if |s.queue| < DEP_QUEUE_CAPACITY then tried.(queue := s.queue + [k], sent := s.sent + [k])
    else tried.(dropped := s.dropped + 1, lost := s.lost + ({k} - s.seen))
  }

  // A key reported again is no longer lost.
  function Report(s: State, keys: set<Pubkey>): State {
    s.(reported := s.reported + keys, lost := s.lost - keys)
  }

  predicate Init(s: State) {
    s == State([], 0, [], {}, Idle, [], {}, [], {}, 0, [])
  }

  predicate Enabled(s: State, e: Event) {
    match e
    case StreamDispatch(_) => true
    case StreamSend(i) => i < |s.streams| && s.streams[i] != []
    case Receive => s.phase.Idle? && s.queue != []
    case FetchFails => s.phase.Fetching?
    case FetchSucceeds => s.phase.Fetching?
    case ResolverDispatch(_) => s.phase == Applying([])
    case ResolverSend => s.phase.Applying? && s.phase.pending != []
    case ResolverDone => s.phase == Applying([])
  }

  function Step(s: State, e: Event): State
    requires Enabled(s, e)
  {
    match e
    case StreamDispatch(r) =>
      Report(s.(streams := s.streams + [FetchTargets(r)]), Keys(FetchTargets(r)))
    case StreamSend(i) =>
      TrySend(s.(streams := s.streams[i := s.streams[i][1..]]), s.streams[i][0])
    case Receive =>
      var k, taken := s.queue[0], s.(queue := s.queue[1..], taken := s.taken + [s.queue[0]]);
      if k in s.seen then taken else taken.(seen := s.seen + {k}, phase := Fetching(k), lost := s.lost - {k})
    case FetchFails =>
      s.(seen := s.seen - {s.phase.key}, phase := Idle, lost := s.lost + {s.phase.key})
    case FetchSucceeds =>
      s.(fetched := s.fetched + [s.phase.key], phase := Applying([]))
    case ResolverDispatch(r) =>
      Report(s.(phase := Applying(FetchTargets(r))), Keys(FetchTargets(r)))
    case ResolverSend =>
      TrySend(s.(phase := Applying(s.phase.pending[1..])), s.phase.pending[0])
    case ResolverDone =>
      s.(phase := Idle)
  }

  ghost predicate IsRun(states: seq<State>, events: seq<Event>) {
    && |states| == |events| + 1 && Init(states[0])
    && (forall i :: 0 <= i < |events| ==> Enabled(states[i], events[i]) && states[i + 1] == Step(states[i], events[i]))
  }

  ghost predicate Distinct(s: seq<Pubkey>) {
    forall i, j :: 0 <= i < j < |s| ==> s[i] != s[j]
  }

  // Keys on their way: queued, or about to be sent.
  ghost predicate InFlight(s: State, k: Pubkey) {
    || k in s.queue
    || (s.phase.Applying? && k in s.phase.pending)
    || (exists i :: 0 <= i < |s.streams| && k in s.streams[i])
  }

  ghost predicate Accounted(s: State) {
    && |s.queue| <= 1024
    && s.sent == s.taken + s.queue
    && s.attempted == |s.queue| + |s.taken| + s.dropped
  }

  // What is seen is what was fetched, plus the one key being fetched.
  ghost predicate FetchedOnce(s: State) {
    && Distinct(s.fetched)
    && (s.phase.Fetching? ==> s.phase.key !in s.fetched)
    && (forall k :: k in s.seen <==> k in s.fetched || s.phase == Fetching(k))
  }

  ghost predicate OnlyReported(s: State) {
    && s.seen <= s.reported
    && (forall k :: InFlight(s, k) ==> k in s.reported)
  }

  ghost predicate NothingForgotten(s: State) {
    && (forall k :: k in s.reported ==> k in s.seen || k in s.lost || InFlight(s, k))
    && s.lost !! s.seen
  }

  predicate Names(e: Event, k: Pubkey) {
    (e.StreamDispatch? || e.ResolverDispatch?) && k in FetchTargets(e.result)
  }

  // The two ways a key is let go of: refused by a full queue, or not fetched.
  predicate LetsGo(s: State, e: Event, k: Pubkey)
    requires Enabled(s, e)
  {
    match e
    case StreamSend(i) => |s.queue| >= DEP_QUEUE_CAPACITY && k == s.streams[i][0]
    case ResolverSend => |s.queue| >= DEP_QUEUE_CAPACITY && k == s.phase.pending[0]
    case FetchFails => k == s.phase.key
    case _ => false
  }

  lemma StepAccounted(s: State, e: Event)
    requires Enabled(s, e) && Accounted(s)
    ensures Accounted(Step(s, e))
  {
  }

  lemma StepFetchedOnce(s: State, e: Event)
    requires Enabled(s, e) && FetchedOnce(s)
    ensures FetchedOnce(Step(s, e))
  {
  }

  // Popping a send and trying it keeps every other key in flight.
  lemma PoppedStream(streams: seq<seq<Pubkey>>, i: nat, k: Pubkey)
    requires i < |streams| && streams[i] != []
    ensures var rest := streams[i := streams[i][1..]];
            (exists j :: 0 <= j < |streams| && k in streams[j])
            <==> k == streams[i][0] || exists j :: 0 <= j < |rest| && k in rest[j]
  {
    var rest := streams[i := streams[i][1..]];
    assert streams[i] == [streams[i][0]] + streams[i][1..];
    assert k in streams[i] <==> k == streams[i][0] || k in rest[i];
    if j :| 0 <= j < |streams| && k in streams[j] && k != streams[i][0] {
      assert k in rest[j];
    }
    if j :| 0 <= j < |rest| && k in rest[j] {
      assert k in streams[j];
    }
  }

  lemma StepInFlight(s: State, e: Event, k: Pubkey)
    requires Enabled(s, e)
    ensures var s' := Step(s, e);
            && (InFlight(s', k) ==> InFlight(s, k) || Names(e, k))
            && (InFlight(s, k) ==> InFlight(s', k) || k in s'.lost || k in s'.seen)
            && (Names(e, k) ==> InFlight(s', k))
  {
    var s' := Step(s, e);
    match e
    case StreamDispatch(r) =>
      assert s'.streams[|s.streams|] == FetchTargets(r);
      assert forall j :: 0 <= j < |s.streams| ==> s'.streams[j] == s.streams[j];
    case StreamSend(i) =>
      PoppedStream(s.streams, i, k);
      assert InFlight(s, k) <==> k in s.queue || (s.phase.Applying? && k in s.phase.pending)
                                 || k == s.streams[i][0] || exists j :: 0 <= j < |s'.streams| && k in s'.streams[j];
    case Receive =>
      assert s.queue == [s.queue[0]] + s.queue[1..];
    case ResolverSend =>
      assert s.phase.pending == [s.phase.pending[0]] + s.phase.pending[1..];
    case _ =>
  }

  lemma StepReported(s: State, e: Event)
    requires Enabled(s, e) && OnlyReported(s)
    ensures OnlyReported(Step(s, e))
  {
    var s' := Step(s, e);
    forall k | InFlight(s', k)
      ensures k in s'.reported
    {
      StepInFlight(s, e, k);
    }
    if e.Receive? {
      assert InFlight(s, s.queue[0]);
    }
  }

  lemma StepForgetsNothing(s: State, e: Event)
    requires Enabled(s, e) && FetchedOnce(s) && NothingForgotten(s)
    ensures NothingForgotten(Step(s, e))
  {
    var s' := Step(s, e);
    forall k | k in s'.reported
      ensures k in s'.seen || k in s'.lost || InFlight(s', k)
    {
      StepInFlight(s, e, k);
    }
  }

  /** In every interleaving: the queue is bounded and every send is accounted for; no key is fetched successfully
      twice; only reported infrequent keys are fetched; and a reported key is fetched, being fetched, on its way, or
      was let go of by a full queue or a failed fetch. */
  lemma {:induction false} EveryInterleaving(states: seq<State>, events: seq<Event>, i: nat)
    requires IsRun(states, events) && i < |states|
    ensures Accounted(states[i]) && FetchedOnce(states[i]) && OnlyReported(states[i]) && NothingForgotten(states[i])
  {
    if i > 0 {
      EveryInterleaving(states, events, i - 1);
      assert Enabled(states[i - 1], events[i - 1]) && states[i - 1 + 1] == Step(states[i - 1], events[i - 1]);
      StepAccounted(states[i - 1], events[i - 1]);
      StepFetchedOnce(states[i - 1], events[i - 1]);
      StepReported(states[i - 1], events[i - 1]);
      StepForgetsNothing(states[i - 1], events[i - 1]);
    }
  }

  // Where a reported key came from: a dispatch that named it infrequent in its fetch or subscribe list.
  lemma {:induction false} ReportedByDispatch(states: seq<State>, events: seq<Event>, i: nat, k: Pubkey)
    requires IsRun(states, events) && i < |states| && k in states[i].reported
    ensures exists j :: 0 <= j < i && (events[j].StreamDispatch? || events[j].ResolverDispatch?)
                        && (Dependency(k, Infrequent) in events[j].result.accountsToFetch
                            || Dependency(k, Infrequent) in events[j].result.accountsToSubscribe)
  {
    assert 0 < i;
    var e := events[i - 1];
    assert Enabled(states[i - 1], e) && states[i - 1 + 1] == Step(states[i - 1], e);
    if k in states[i - 1].reported {
      ReportedByDispatch(states, events, i - 1, k);
    } else {
      FetchTargetsMember(e.result, k);
    }
  }

  ghost predicate Quiet(s: State) {
    && s.queue == [] && s.phase.Idle?
    && (forall j :: 0 <= j < |s.streams| ==> s.streams[j] == [])
  }

  /** When all is quiet, a reported key has been fetched once, or else never and it is lost. */
  lemma {:induction false} QuietMeansFetched(states: seq<State>, events: seq<Event>, i: nat, k: Pubkey)
    requires IsRun(states, events) && i < |states| && Quiet(states[i]) && k in states[i].reported
    ensures multiset(states[i].fetched)[k] == if k in states[i].lost then 0 else 1
  {
    EveryInterleaving(states, events, i);
    OnceInDistinct(states[i].fetched, k);
  }

  // Event j lets go of k, and no dispatch from there up to state i reports it.
  ghost predicate LostAt(states: seq<State>, events: seq<Event>, j: nat, i: nat, k: Pubkey) {
    && j < i <= |events| && j < |states|
    && Enabled(states[j], events[j]) && LetsGo(states[j], events[j], k)
    && (forall m :: j <= m < i ==> !Names(events[m], k))
  }

  // A lost key was let go of, and nothing has reported it since.
  lemma {:induction false} LostSince(states: seq<State>, events: seq<Event>, i: nat, k: Pubkey) returns (j: nat)
    requires IsRun(states, events) && i < |states| && k in states[i].lost
    ensures LostAt(states, events, j, i, k)
  {
    hide FetchTargets;
    assert 0 < i;
    assert Enabled(states[i - 1], events[i - 1]) && states[i - 1 + 1] == Step(states[i - 1], events[i - 1]);
    LostStep(states[i - 1], events[i - 1], k);
    if LetsGo(states[i - 1], events[i - 1], k) {
      j := i - 1;
    } else {
      j := LostSince(states, events, i - 1, k);
    }
  }

  lemma LostStep(s: State, e: Event, k: Pubkey)
    requires Enabled(s, e) && k in Step(s, e).lost
    ensures !Names(e, k) && (LetsGo(s, e, k) || k in s.lost)
  {
    hide FetchTargets;
  }

  lemma {:induction false} ReportStays(states: seq<State>, events: seq<Event>, m: nat, i: nat, k: Pubkey)
    requires IsRun(states, events) && m < i < |states| && Names(events[m], k)
    ensures k in states[i].reported
  {
    assert Enabled(states[i - 1], events[i - 1]) && states[i - 1 + 1] == Step(states[i - 1], events[i - 1]);
    if m < i - 1 {
      ReportStays(states, events, m, i - 1, k);
    }
  }

  /** Losing a key is never for good: reported again, and not let go of since that report, it has been fetched once
      all is quiet, whatever became of it before. */
  lemma {:induction false} ReportedAgainIsFetched(states: seq<State>, events: seq<Event>, m: nat, i: nat, k: Pubkey)
    requires IsRun(states, events) && m < i < |states| && Quiet(states[i]) && Names(events[m], k)
    requires forall j :: m <= j < i ==> !LetsGo(states[j], events[j], k)
    ensures multiset(states[i].fetched)[k] == 1
  {
    ReportStays(states, events, m, i, k);
    QuietMeansFetched(states, events, i, k);
    if k in states[i].lost {
      var j := LostSince(states, events, i, k);
      assert false;
    }
  }

  lemma {:induction false} OnceInDistinct(s: seq<Pubkey>, k: Pubkey)
    requires Distinct(s)
    ensures multiset(s)[k] == if k in s then 1 else 0
    decreases |s|
  {
    if s != [] {
      var n := |s| - 1;
      assert s == s[..n] + [s[n]];
      OnceInDistinct(s[..n], k);
    }
  }
}
