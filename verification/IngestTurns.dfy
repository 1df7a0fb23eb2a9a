/** The protocol and the sequential resolver are the same thing: each of its turns is a run of protocol events. */
module IngestTurns {
  import opened Wrappers
  import opened Logs
  import opened Ingest
  import P = IngestProtocol

  // The state after the events, if each is enabled in its turn.
  function Play(s: P.State, events: seq<P.Event>): Option<P.State>
    decreases |events|
  {
    if events == [] then Some(s)
    else if !P.Enabled(s, events[0]) then None
    else Play(P.Step(s, events[0]), events[1..])
  }

  lemma {:induction false} PlayAppend(s: P.State, a: seq<P.Event>, b: seq<P.Event>)
    requires Play(s, a).Some?
    ensures Play(s, a + b) == Play(Play(s, a).value, b)
    decreases |a|
  {
    hide P.Enabled, P.Step;
    if a == [] {
      assert a + b == b;
    } else {
      assert (a + b)[0] == a[0] && (a + b)[1..] == a[1..] + b;
      PlayAppend(P.Step(s, a[0]), a[1..], b);
    }
  }

  lemma PlayOne(s: P.State, e: P.Event)
    requires P.Enabled(s, e)
    ensures Play(s, [e]) == Some(P.Step(s, e))
  {
    assert [e][1..] == [];
  }

  // What the sequential resolver sees of a protocol state.
  function View(s: P.State, calls: seq<Pubkey>): Status {
    Status(s.queue, s.dropped, s.seen, calls)
  }

  // Nothing but the resolver has moved.
  predicate OnlyResolver(s: P.State, s': P.State) {
    s'.streams == s.streams && s'.taken == s.taken && s'.fetched == s.fetched
  }

  lemma SendViews(s: P.State, k: Pubkey, calls: seq<Pubkey>)
    ensures View(P.TrySend(s, k), calls) == SendOne(View(s, calls), k)
    ensures P.TrySend(s, k).phase == s.phase && OnlyResolver(s, P.TrySend(s, k))
  {
  }

  // The resolver's sends, one event each, are the sends of apply.
  lemma {:induction false} SendEvents(s: P.State, calls: seq<Pubkey>) returns (events: seq<P.Event>)
    requires s.phase.Applying?
    ensures Play(s, events).Some?
    ensures var s' := Play(s, events).value;
            && s'.phase == P.Applying([]) && OnlyResolver(s, s')
            && View(s', calls) == SendAll(View(s, calls), s.phase.pending)
    decreases |s.phase.pending|
  {
    hide Play, SendOne;
    if s.phase.pending == [] {
      events := [];
      PlayNothing(s);
    } else {
      var popped := s.(phase := P.Applying(s.phase.pending[1..]));
      var s1 := P.TrySend(popped, s.phase.pending[0]);
      SendViews(popped, s.phase.pending[0], calls);
      assert P.Enabled(s, P.ResolverSend) && P.Step(s, P.ResolverSend) == s1;
      PlayOne(s, P.ResolverSend);
      var more := SendEvents(s1, calls);
      events := [P.ResolverSend] + more;
      PlayAppend(s, [P.ResolverSend], more);
      assert View(popped, calls) == View(s, calls);
    }
  }

  lemma PlayNothing(s: P.State)
    ensures Play(s, []) == Some(s)
  {
  }

  // Applying what a fetch returned, account by account.
  lemma {:induction false} ApplyEvents(w: World, s: P.State, updates: seq<Option<AccountUpdate>>, calls: seq<Pubkey>)
    returns (events: seq<P.Event>)
    requires s.phase == P.Applying([])
    ensures Play(s, events).Some?
    ensures var s' := Play(s, events).value;
            && s'.phase == P.Applying([]) && OnlyResolver(s, s')
            && View(s', calls) == SendAll(View(s, calls), ReportsAll(w, updates))
    decreases |updates|
  {
    hide Play, SendAll;
    if updates == [] {
      events := [];
      PlayNothing(s);
      SendNothing(View(s, calls));
    } else {
      var first, s1 := UpdateEvents(w, s, updates[0], calls);
      var more := ApplyEvents(w, s1, updates[1..], calls);
      events := first + more;
      PlayAppend(s, first, more);
      ReportsFirst(w, updates);
      SendAllAppend(View(s, calls), ReportsAll(w, [updates[0]]), ReportsAll(w, updates[1..]));
    }
  }

  lemma SendNothing(s: Status)
    ensures SendAll(s, []) == s
  {
  }

  lemma ReportsFirst(w: World, updates: seq<Option<AccountUpdate>>)
    requires updates != []
    ensures ReportsAll(w, updates) == ReportsAll(w, [updates[0]]) + ReportsAll(w, updates[1..])
  {
    assert updates == [updates[0]] + updates[1..];
    ReportsAllAppend(w, [updates[0]], updates[1..]);
  }

  lemma {:induction false} UpdateEvents(w: World, s: P.State, update: Option<AccountUpdate>, calls: seq<Pubkey>)
    returns (events: seq<P.Event>, s': P.State)
    requires s.phase == P.Applying([])
    ensures Play(s, events) == Some(s') && s'.phase == P.Applying([]) && OnlyResolver(s, s')
    ensures View(s', calls) == SendAll(View(s, calls), ReportsAll(w, [update]))
  {
    hide Play, SendAll, FetchTargets;
    assert [update][1..] == [];
    if update.Some? && w.dispatch(update.value).Ok? {
      var r := w.dispatch(update.value).value;
      var e := P.ResolverDispatch(r);
      PlayOne(s, e);
      var s1 := P.Step(s, e);
      var sends := SendEvents(s1, calls);
      events := [e] + sends;
      PlayAppend(s, [e], sends);
      s' := Play(s1, sends).value;
      assert View(s1, calls) == View(s, calls);
      ReportsOne(w, update);
    } else {
      events, s' := [], s;
      PlayNothing(s);
      SendNothing(View(s, calls));
      ReportsOne(w, update);
    }
  }

  /** One received key: whatever the fetch does, some run of protocol events does to queue, drops and seen keys exactly
      what the sequential resolver does, and leaves the resolver idle and every stream where it was. */
  lemma {:induction false} ResolverTurn(w: World, s: P.State, calls: seq<Pubkey>)
    returns (events: seq<P.Event>, s': P.State)
    requires s.phase.Idle? && s.queue != []
    ensures Play(s, events) == Some(s') && s'.phase.Idle? && s'.streams == s.streams
    ensures s'.taken == s.taken + [s.queue[0]]
    ensures var was := View(s, calls).(queue := s.queue[1..]);
            var r := Resolve(w, was, s.queue[0]);
            && View(s', r.calls) == r
            && s'.fetched == if |r.calls| > |calls| && !w.fails(|calls|) then s.fetched + [s.queue[0]] else s.fetched
  {
    hide Play, SendAll;
    var k := s.queue[0];
    PlayOne(s, P.Receive);
    var s1 := P.Step(s, P.Receive);
    if k in s.seen {
      events, s' := [P.Receive], s1;
    } else if w.fails(|calls|) {
      PlayOne(s1, P.FetchFails);
      events, s' := [P.Receive] + [P.FetchFails], P.Step(s1, P.FetchFails);
      PlayAppend(s, [P.Receive], [P.FetchFails]);
      assert s.seen + {k} - {k} == s.seen;
    } else {
      PlayOne(s1, P.FetchSucceeds);
      var s2 := P.Step(s1, P.FetchSucceeds);
      var applied := ApplyEvents(w, s2, w.response(k), calls + [k]);
      var s3 := Play(s2, applied).value;
      PlayOne(s3, P.ResolverDone);
      s' := P.Step(s3, P.ResolverDone);
      events := [P.Receive] + ([P.FetchSucceeds] + (applied + [P.ResolverDone]));
      PlayAppend(s2, applied, [P.ResolverDone]);
      PlayAppend(s1, [P.FetchSucceeds], applied + [P.ResolverDone]);
      PlayAppend(s, [P.Receive], [P.FetchSucceeds] + (applied + [P.ResolverDone]));
    }
  }

  // A stream's remaining sends, uninterrupted.
  lemma {:induction false} StreamSends(s: P.State, i: nat, calls: seq<Pubkey>)
    returns (events: seq<P.Event>, s': P.State)
    requires i < |s.streams|
    ensures Play(s, events) == Some(s') && s'.phase == s.phase
    ensures View(s', calls) == SendAll(View(s, calls), s.streams[i])
    ensures s'.streams == s.streams[i := []]
    decreases |s.streams[i]|
  {
    hide Play, SendOne;
    if s.streams[i] == [] {
      events, s' := [], s;
      PlayNothing(s);
    } else {
      var e, k := P.StreamSend(i), s.streams[i][0];
      var popped := s.(streams := s.streams[i := s.streams[i][1..]]);
      SendViews(popped, k, calls);
      PlayOne(s, e);
      var more;
      more, s' := StreamSends(P.TrySend(popped, k), i, calls);
      events := [e] + more;
      PlayAppend(s, [e], more);
      assert View(popped, calls) == View(s, calls);
    }
  }

  /** One apply on a stream, uninterrupted, sends what the sequential apply sends and leaves the resolver alone. */
  lemma {:induction false} StreamTurn(s: P.State, r: HandleResult, calls: seq<Pubkey>)
    returns (events: seq<P.Event>, s': P.State)
    ensures Play(s, events) == Some(s') && s'.phase == s.phase
    ensures View(s', calls) == SendAll(View(s, calls), FetchTargets(r))
    ensures s'.streams == s.streams + [[]]
  {
    hide Play, SendAll, FetchTargets;
    PlayOne(s, P.StreamDispatch(r));
    var s1 := P.Step(s, P.StreamDispatch(r));
    var more;
    more, s' := StreamSends(s1, |s.streams|, calls);
    events := [P.StreamDispatch(r)] + more;
    PlayAppend(s, [P.StreamDispatch(r)], more);
  }
}
