/** What a drain computes: reachability through reported infrequent dependencies. */
module DrainReach {
  import opened Wrappers
  import opened Logs
  import opened Ingest

  // A chain of reports whose reporting keys were all still unseen.
  ghost predicate IsPath(w: World, from: seq<Pubkey>, seen: set<Pubkey>, path: seq<Pubkey>) {
    && path != [] && path[0] in from
    && (forall i :: 0 <= i < |path| - 1 ==> path[i] !in seen && path[i + 1] in Leads(w, path[i]))
  }

  ghost predicate Reachable(w: World, from: seq<Pubkey>, seen: set<Pubkey>, k: Pubkey) {
    exists path: seq<Pubkey> :: IsPath(w, from, seen, path) && path[|path| - 1] == k
  }

  lemma ReachableStart(w: World, from: seq<Pubkey>, seen: set<Pubkey>, k: Pubkey)
    requires k in from
    ensures Reachable(w, from, seen, k)
  {
    assert IsPath(w, from, seen, [k]);
  }

  lemma ReachableStep(w: World, from: seq<Pubkey>, seen: set<Pubkey>, k: Pubkey, d: Pubkey)
    requires Reachable(w, from, seen, k) && k !in seen && d in Leads(w, k)
    ensures Reachable(w, from, seen, d)
  {
    var path :| IsPath(w, from, seen, path) && path[|path| - 1] == k;
    assert IsPath(w, from, seen, path + [d]);
  }

  lemma {:induction false} SendAllQueue(s: Status, keys: seq<Pubkey>)
    ensures var r := SendAll(s, keys);
            && s.queue <= r.queue
            && (forall k :: k in r.queue ==> k in s.queue || k in keys)
            && (r.dropped == s.dropped ==> r.queue == s.queue + keys)
    decreases |keys|
  {
    if keys == [] {
      assert s.queue + keys == s.queue;
    } else {
      var s1 := SendOne(s, keys[0]);
      SendAllQueue(s1, keys[1..]);
      if s1.dropped == s.dropped {
        assert s1.queue + keys[1..] == s.queue + keys;
      }
    }
  }

  // Every key ever touched is reachable from where the drain began.
  ghost predicate Sound(w: World, s0: Status, s: Status) {
    && s0.seen <= s.seen
    && (forall k :: k in s.seen ==> k in s0.seen || Reachable(w, s0.queue, s0.seen, k))
    && (forall k :: k in s.queue ==> Reachable(w, s0.queue, s0.seen, k))
  }

  // Nothing reported has been forgotten.
  ghost predicate Complete(w: World, s0: Status, s: Status) {
    && (forall k :: k in s0.queue ==> k in s.seen || k in s.queue)
    && (forall k, d :: k in s.seen && k !in s0.seen && d in Leads(w, k) ==> d in s.seen || d in s.queue)
  }

  function Popped(s: Status): Status
    requires s.queue != []
  {
    s.(queue := s.queue[1..])
  }

  lemma StepSound(w: World, s0: Status, s: Status)
    requires s.queue != [] && Sound(w, s0, s)
    ensures Sound(w, s0, Resolve(w, Popped(s), s.queue[0]))
  {
    var k, r := s.queue[0], Resolve(w, Popped(s), s.queue[0]);
    assert k in s.queue;
    assert forall q :: q in s.queue[1..] ==> q in s.queue;
    if k !in s.seen && !w.fails(|s.calls|) {
      SendAllQueue(Popped(s).(calls := s.calls + [k], seen := s.seen + {k}), Leads(w, k));
      forall d | d in r.queue
        ensures Reachable(w, s0.queue, s0.seen, d)
      {
        if d !in s.queue[1..] {
          ReachableStep(w, s0.queue, s0.seen, k, d);
        }
      }
    }
  }

  ghost predicate NoFailures(w: World, s: Status, s': Status) {
    forall i: nat :: |s.calls| <= i < |s'.calls| ==> !w.fails(i)
  }

  lemma StepComplete(w: World, s0: Status, s: Status)
    requires s.queue != [] && Complete(w, s0, s)
    requires Resolve(w, Popped(s), s.queue[0]).dropped == s.dropped
    requires NoFailures(w, s, Resolve(w, Popped(s), s.queue[0]))
    ensures Complete(w, s0, Resolve(w, Popped(s), s.queue[0]))
  {
    hide SendAll, Leads, Complete;
    var k := s.queue[0];
    if k !in s.seen {
      assert !w.fails(|s.calls|);
      SendAllQueue(Popped(s).(calls := s.calls + [k], seen := s.seen + {k}), Leads(w, k));
    }
    MoreComplete(w, s0, s, Resolve(w, Popped(s), k));
  }

  lemma MoreComplete(w: World, s0: Status, s: Status, r: Status)
    requires s.queue != [] && Complete(w, s0, s)
    requires r.seen == s.seen + {s.queue[0]}
    requires r.queue == s.queue[1..] + (if s.queue[0] in s.seen then [] else Leads(w, s.queue[0]))
    ensures Complete(w, s0, r)
  {
    hide Leads;
    var k := s.queue[0];
    assert s.queue == [k] + s.queue[1..];
    forall q | q in s.seen || q in s.queue
      ensures q in r.seen || q in r.queue
    {
    }
  }

  lemma {:induction false} DrainCalls(w: World, s: Status, universe: set<Pubkey>)
    requires Closed(w, universe) && Within(s, universe)
    ensures s.calls <= Drain(w, s, universe).calls
    decreases |universe - s.seen|, |s.queue|
  {
    if s.queue != [] {
      var k := s.queue[0];
      assert k in universe;
      ResolveWithin(w, Popped(s), k, universe);
      ResolveProgress(w, Popped(s), k, universe);
      DrainCalls(w, Resolve(w, Popped(s), k), universe);
    }
  }

  lemma {:induction false} DrainInvariants(w: World, s0: Status, s: Status, universe: set<Pubkey>)
    requires Closed(w, universe) && Within(s, universe) && Sound(w, s0, s)
    ensures var r := Drain(w, s, universe);
            && Sound(w, s0, r)
            && (Complete(w, s0, s) && r.dropped == s.dropped && NoFailures(w, s, r) ==> Complete(w, s0, r))
    decreases |universe - s.seen|, |s.queue|
  {
    if s.queue != [] {
      var k := s.queue[0];
      assert k in universe;
      ResolveWithin(w, Popped(s), k, universe);
      ResolveProgress(w, Popped(s), k, universe);
      var s1 := Resolve(w, Popped(s), k);
      StepSound(w, s0, s);
      DrainInvariants(w, s0, s1, universe);
      DrainCalls(w, s1, universe);
      var r := Drain(w, s1, universe);
      assert r == Drain(w, s, universe);
      if Complete(w, s0, s) && r.dropped == s.dropped && NoFailures(w, s, r) {
        StepComplete(w, s0, s);
      }
    }
  }

  lemma {:induction false} ClosedContains(w: World, from: seq<Pubkey>, seen: set<Pubkey>, all: set<Pubkey>,
                                          path: seq<Pubkey>)
    requires IsPath(w, from, seen, path) && seen <= all
    requires forall k :: k in from ==> k in all
    requires forall k, d :: k in all && k !in seen && d in Leads(w, k) ==> d in all
    ensures path[|path| - 1] in all
    decreases |path|
  {
    if |path| > 1 {
      var shorter := path[..|path| - 1];
      assert IsPath(w, from, seen, shorter);
      ClosedContains(w, from, seen, all, shorter);
      assert path[|path| - 2] in all && path[|path| - 2 + 1] in Leads(w, path[|path| - 2]);
    }
  }

  /** A drain ends with an empty queue and touches only what is reachable; with nothing dropped and no fetch
      failing it ends having seen all of it. */
  lemma {:induction false} DrainIsReachability(w: World, s: Status, universe: set<Pubkey>)
    requires Closed(w, universe) && Within(s, universe)
    ensures var r := Drain(w, s, universe);
            && r.queue == []
            && (forall k :: k in r.seen ==> k in s.seen || Reachable(w, s.queue, s.seen, k))
            && (r.dropped == s.dropped && NoFailures(w, s, r) ==>
                  forall k :: k in r.seen <==> k in s.seen || Reachable(w, s.queue, s.seen, k))
  {
    var r := Drain(w, s, universe);
    forall k | k in s.queue
      ensures Reachable(w, s.queue, s.seen, k)
    {
      ReachableStart(w, s.queue, s.seen, k);
    }
    DrainInvariants(w, s, s, universe);
    if r.dropped == s.dropped && NoFailures(w, s, r) {
      CompleteSeesAll(w, s, r);
    }
  }

  lemma CompleteSeesAll(w: World, s: Status, r: Status)
    requires Complete(w, s, r) && r.queue == [] && s.seen <= r.seen
    ensures forall k :: Reachable(w, s.queue, s.seen, k) ==> k in r.seen
  {
    forall k | Reachable(w, s.queue, s.seen, k)
      ensures k in r.seen
    {
      var path :| IsPath(w, s.queue, s.seen, path) && path[|path| - 1] == k;
      ClosedContains(w, s.queue, s.seen, r.seen, path);
    }
  }

  // Keys already seen that report something the drain would not otherwise come to.
  ghost predicate HidesNothing(w: World, s: Status) {
    forall k, d :: k in s.seen && Reachable(w, s.queue, {}, k) && d in Leads(w, k) ==>
      d in s.seen || Reachable(w, s.queue, s.seen, d)
  }

  /** With nothing dropped and no fetch failing, the drain is plain reachability exactly when no key already seen, and
      itself reachable, reports a key that is neither seen nor reachable around the seen ones. */
  lemma {:induction false} DrainIsPlainIff(w: World, s: Status, universe: set<Pubkey>)
    requires Closed(w, universe) && Within(s, universe)
    requires Drain(w, s, universe).dropped == s.dropped && NoFailures(w, s, Drain(w, s, universe))
    ensures (forall k :: k in Drain(w, s, universe).seen <==> k in s.seen || Reachable(w, s.queue, {}, k))
       <==> HidesNothing(w, s)
  {
    var r := Drain(w, s, universe);
    DrainIsReachability(w, s, universe);
    if HidesNothing(w, s) {
      forall k
        ensures k in r.seen <==> k in s.seen || Reachable(w, s.queue, {}, k)
      {
        if Reachable(w, s.queue, s.seen, k) {
          ForgetSeen(w, s.queue, s.seen, k);
        }
        if Reachable(w, s.queue, {}, k) {
          PlainIsSeen(w, s, r.seen, k);
        }
      }
    } else if forall k :: k in r.seen <==> k in s.seen || Reachable(w, s.queue, {}, k) {
      forall k, d | k in s.seen && Reachable(w, s.queue, {}, k) && d in Leads(w, k)
        ensures d in s.seen || Reachable(w, s.queue, s.seen, d)
      {
        ReachableStep(w, s.queue, {}, k, d);
        assert d in r.seen;
      }
    }
  }

  lemma ForgetSeen(w: World, from: seq<Pubkey>, seen: set<Pubkey>, k: Pubkey)
    requires Reachable(w, from, seen, k)
    ensures Reachable(w, from, {}, k)
  {
    var path :| IsPath(w, from, seen, path) && path[|path| - 1] == k;
    assert IsPath(w, from, {}, path);
  }

  lemma PlainIsSeen(w: World, s: Status, all: set<Pubkey>, k: Pubkey)
    requires HidesNothing(w, s) && Reachable(w, s.queue, {}, k)
    requires forall q :: q in all <==> q in s.seen || Reachable(w, s.queue, s.seen, q)
    ensures k in all
  {
    var met := set q | q in all && Reachable(w, s.queue, {}, q);
    forall q | q in s.queue
      ensures q in met
    {
      ReachableStart(w, s.queue, s.seen, q);
      ReachableStart(w, s.queue, {}, q);
    }
    forall q, d | q in met && d in Leads(w, q)
      ensures d in met
    {
      ReachableStep(w, s.queue, {}, q, d);
      if q !in s.seen {
        ReachableStep(w, s.queue, s.seen, q, d);
      }
    }
    var path :| IsPath(w, s.queue, {}, path) && path[|path| - 1] == k;
    ClosedContains(w, s.queue, {}, met, path);
  }

  // Every seen key's reports are seen or queued.
  ghost predicate Settled(w: World, s: Status) {
    forall k, d :: k in s.seen && d in Leads(w, k) ==> d in s.seen || d in s.queue
  }

  /** A fresh resolver is settled, and stays so under dispatches and resolved keys that drop nothing and fail nothing:
      only a full queue or a failed fetch unsettles it. */
  lemma {:induction false} SettledKept(w: World, s: Status, keys: seq<Pubkey>)
    ensures s.seen == {} ==> Settled(w, s)
    ensures Settled(w, s) ==> Settled(w, SendAll(s, keys))
    ensures Settled(w, s) && s.queue != [] ==>
              var r := Resolve(w, Popped(s), s.queue[0]);
              r.dropped == s.dropped && NoFailures(w, s, r) ==> Settled(w, r)
  {
    SendAllQueue(s, keys);
    if Settled(w, s) && s.queue != [] && NoFailures(w, s, Resolve(w, Popped(s), s.queue[0])) {
      ResolveSettles(w, s);
    }
  }

  lemma ResolveSettles(w: World, s: Status)
    requires s.queue != [] && Settled(w, s) && NoFailures(w, s, Resolve(w, Popped(s), s.queue[0]))
    ensures var r := Resolve(w, Popped(s), s.queue[0]); r.dropped == s.dropped ==> Settled(w, r)
  {
    hide SendAll, Leads;
    var k := s.queue[0];
    assert s.queue == [k] + s.queue[1..];
    if k !in s.seen {
      assert !w.fails(|s.calls|);
      SendAllQueue(Popped(s).(calls := s.calls + [k], seen := s.seen + {k}), Leads(w, k));
    }
  }

  /** From a settled state, skipping keys already seen costs nothing: the drain sees everything reachable at all,
      and is settled again. */
  lemma {:induction false} SettledDrain(w: World, s: Status, universe: set<Pubkey>)
    requires Closed(w, universe) && Within(s, universe) && Settled(w, s)
    requires Drain(w, s, universe).dropped == s.dropped && NoFailures(w, s, Drain(w, s, universe))
    ensures var r := Drain(w, s, universe);
            && Settled(w, r)
            && (forall k :: k in r.seen <==> k in s.seen || Reachable(w, s.queue, {}, k))
  {
    var r := Drain(w, s, universe);
    DrainIsReachability(w, s, universe);
    forall k, d | k in r.seen && d in Leads(w, k)
      ensures d in s.seen || Reachable(w, s.queue, s.seen, d)
    {
      if k !in s.seen {
        ReachableStep(w, s.queue, s.seen, k, d);
      } else if d !in s.seen {
        ReachableStart(w, s.queue, s.seen, d);
      }
    }
    DrainIsPlainIff(w, s, universe);
  }

  // An update of stream names config, whose own account names nested; the second fetch attempt fails.
  function Nested(stream: Pubkey, config: Pubkey, nested: Pubkey): World {
    World((u: AccountUpdate) =>
            Result.Ok(HandleResult(if u.pubkey == stream then [Dependency(config, Infrequent)]
                                   else if u.pubkey == config then [Dependency(nested, Infrequent)]
                                   else [], [], [])),
          (k: Pubkey) => [Some(AccountUpdate(k, DEFAULT_KEY, [], 0))],
          (n: nat) => n == 1)
  }

  lemma NestedReports(stream: Pubkey, config: Pubkey, nested: Pubkey, u: AccountUpdate)
    ensures Reports(Nested(stream, config, nested), u)
         == if u.pubkey == stream then [config] else if u.pubkey == config then [nested] else []
  {
    var r := Nested(stream, config, nested).dispatch(u).value;
    assert r.accountsToFetch + r.accountsToSubscribe == r.accountsToFetch;
    OneInfrequent(config);
    OneInfrequent(nested);
  }

  lemma OneInfrequent(k: Pubkey)
    ensures InfrequentKeys([Dependency(k, Infrequent)]) == [k]
  {
    assert [Dependency(k, Infrequent)][1..] == [];
  }

  lemma NestedLeads(stream: Pubkey, config: Pubkey, nested: Pubkey, k: Pubkey)
    ensures Leads(Nested(stream, config, nested), k)
         == if k == stream then [config] else if k == config then [nested] else []
  {
    var w, u := Nested(stream, config, nested), AccountUpdate(k, DEFAULT_KEY, [], 0);
    NestedReports(stream, config, nested, u);
    var updates: seq<Option<AccountUpdate>> := [Some(u)];
    assert w.response(k) == updates && updates[1..] == [];
    assert ReportsAll(w, updates) == Reports(w, u) + [];
  }

  /** A failed fetch does unsettle it, and the next drain pays: a fresh resolver drains an update's config and fails to
      fetch what that config names; the same update, applied again, then drains with nothing dropped and nothing
      failing, and misses it. */
  lemma {:induction false} SeenHidesReports(stream: Pubkey, config: Pubkey, nested: Pubkey, u: AccountUpdate)
    requires stream != config && config != nested && stream != nested && u.pubkey == stream
    ensures var w, universe := Nested(stream, config, nested), {config, nested};
            var queued := SendAll(Status([], 0, {}, []), Reports(w, u));
            && Closed(w, universe) && Within(queued, universe)
            && var drained := Drain(w, queued, universe);
            var again := SendAll(drained, Reports(w, u));
            && drained == Status([], 0, {config}, [config, nested])
            && Within(again, universe)
            && Drain(w, again, universe) == drained
            && drained.dropped == again.dropped && NoFailures(w, again, drained)
            && Reachable(w, again.queue, {}, nested)
            && !HidesNothing(w, again)
  {
    var w, universe := Nested(stream, config, nested), {config, nested};
    hide Drain, Resolve, SendAll, Leads, Reports, HidesNothing;
    NestedReports(stream, config, nested, u);
    NestedLeads(stream, config, nested, config);
    var again := Status([config], 0, {config}, [config, nested]);
    OneSend(0, {}, [], config);
    OneSend(0, {config}, [config, nested], config);
    NestedDrain(stream, config, nested);
    NestedSkips(stream, config, nested);
    assert IsPath(w, again.queue, {}, [config, nested]);
    assert [config, nested][|[config, nested]| - 1] == nested;
    DrainIsPlainIff(w, again, universe);
  }

  lemma OneSend(dropped: nat, seen: set<Pubkey>, calls: seq<Pubkey>, k: Pubkey)
    ensures SendAll(Status([], dropped, seen, calls), [k]) == Status([k], dropped, seen, calls)
  {
    assert [k][1..] == [];
  }

  lemma NestedDrain(stream: Pubkey, config: Pubkey, nested: Pubkey)
    requires stream != config && config != nested && stream != nested
    ensures var w, universe, s := Nested(stream, config, nested), {config, nested}, Status([config], 0, {}, []);
            && Closed(w, universe) && Within(s, universe)
            && Drain(w, s, universe) == Status([], 0, {config}, [config, nested])
  {
    hide Drain, Resolve, SendAll, Leads;
    var w, universe := Nested(stream, config, nested), {config, nested};
    var s0, s1 := Status([config], 0, {}, []), Status([nested], 0, {config}, [config]);
    var s2 := Status([], 0, {config}, [config, nested]);
    NestedLeads(stream, config, nested, config);
    NestedLeads(stream, config, nested, nested);
    OneSend(0, {config}, [config], nested);
    Fetched(w, s0, config, [nested]);
    assert {} + {config} == {config} && [] + [config] == [config] && [config] + [nested] == [config, nested];
    NotFetched(w, s1, nested);
    DrainOnce(w, s0, universe);
    DrainOnce(w, s1, universe);
    DrainOnce(w, s2, universe);
  }

  lemma DrainOnce(w: World, s: Status, universe: set<Pubkey>)
    requires Closed(w, universe) && Within(s, universe)
    ensures s.queue == [] ==> Drain(w, s, universe) == s
    ensures s.queue != [] ==>
              var r := Resolve(w, Popped(s), s.queue[0]);
              Within(r, universe) && Drain(w, s, universe) == Drain(w, r, universe)
  {
    if s.queue != [] {
      assert s.queue[0] in universe;
      ResolveWithin(w, Popped(s), s.queue[0], universe);
    }
  }

  lemma Fetched(w: World, s: Status, k: Pubkey, leads: seq<Pubkey>)
    requires s.queue == [k] && k !in s.seen && !w.fails(|s.calls|) && Leads(w, k) == leads
    ensures Resolve(w, Popped(s), k) == SendAll(Status([], s.dropped, s.seen + {k}, s.calls + [k]), leads)
  {
  }

  lemma NotFetched(w: World, s: Status, k: Pubkey)
    requires s.queue == [k] && k !in s.seen && w.fails(|s.calls|)
    ensures Resolve(w, Popped(s), k) == Status([], s.dropped, s.seen, s.calls + [k])
  {
  }

  lemma NestedSkips(stream: Pubkey, config: Pubkey, nested: Pubkey)
    requires stream != config && config != nested && stream != nested
    ensures var w, universe := Nested(stream, config, nested), {config, nested};
            var s := Status([config], 0, {config}, [config, nested]);
            && Closed(w, universe) && Within(s, universe)
            && Drain(w, s, universe) == Status([], 0, {config}, [config, nested])
  {
    hide Drain, Leads;
    NestedLeads(stream, config, nested, config);
    NestedLeads(stream, config, nested, nested);
    var w, universe := Nested(stream, config, nested), {config, nested};
    var s, s2 := Status([config], 0, {config}, [config, nested]), Status([], 0, {config}, [config, nested]);
    assert Resolve(w, Popped(s), config) == s2;
    DrainOnce(w, s, universe);
    DrainOnce(w, s2, universe);
  }
}
