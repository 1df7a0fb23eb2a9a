/** Synchronous dispatch with a lossy queue, and the resolver that drains it. */
module Ingest {
  import opened Wrappers
  import opened Logs
  import opened Filters

  datatype Delivery = Frequent | Infrequent | Dynamic

  datatype Dependency = Dependency(pubkey: Pubkey, expectation: Delivery)

  datatype HandleResult = HandleResult(
    accountsToFetch: seq<Dependency>,
    accountsToSubscribe: seq<Dependency>,
    accountsPendingGrpc: seq<Dependency>)

  datatype AccountUpdate = AccountUpdate(pubkey: Pubkey, owner: Pubkey, data: seq<nat>, slot: nat)

  datatype HandlerError = HandlerError

  const DEP_QUEUE_CAPACITY := 1024

  function InfrequentKeys(deps: seq<Dependency>): seq<Pubkey> {
    if deps == [] then []
    else (if deps[0].expectation.Infrequent? then [deps[0].pubkey] else []) + InfrequentKeys(deps[1..])
  }

  function FetchTargets(r: HandleResult): seq<Pubkey> {
    InfrequentKeys(r.accountsToFetch + r.accountsToSubscribe)
  }

  lemma {:induction false} InfrequentKeysMember(deps: seq<Dependency>, k: Pubkey)
    ensures k in InfrequentKeys(deps) <==> Dependency(k, Infrequent) in deps
    decreases |deps|
  {
    if deps != [] {
      assert deps == [deps[0]] + deps[1..];
      InfrequentKeysMember(deps[1..], k);
    }
  }

  /** Only the infrequent class is ever fetched, from the fetch and subscribe lists and never the pending one. */
  lemma {:induction false} FetchTargetsMember(r: HandleResult, k: Pubkey)
    ensures k in FetchTargets(r) <==>
            Dependency(k, Infrequent) in r.accountsToFetch || Dependency(k, Infrequent) in r.accountsToSubscribe
  {
    InfrequentKeysMember(r.accountsToFetch + r.accountsToSubscribe, k);
  }

  function IsInfrequent(): Dependency -> bool {
    (d: Dependency) => d.expectation == Infrequent
  }

  function KeyOf(): Dependency -> Pubkey {
    (d: Dependency) => d.pubkey
  }

  lemma {:induction false} InfrequentInOrder(deps: seq<Dependency>)
    ensures Filtered(deps, IsInfrequent(), KeyOf(), InfrequentKeys(deps))
    decreases |deps|
  {
    if deps == [] {
      FilteredNone(IsInfrequent(), KeyOf());
    } else {
      InfrequentInOrder(deps[1..]);
      FilteredCons(deps, IsInfrequent(), KeyOf(), InfrequentKeys(deps[1..]));
    }
  }

  /** The targets are the keys of the infrequent entries, the fetch list's and then the subscribe list's, each entry
      once and in its place. */
  lemma {:induction false} TargetsInOrder(r: HandleResult)
    ensures Filtered(r.accountsToFetch + r.accountsToSubscribe, IsInfrequent(), KeyOf(), FetchTargets(r))
    ensures |FetchTargets(r)| == |Positions(r.accountsToFetch + r.accountsToSubscribe, IsInfrequent())|
  {
    var deps := r.accountsToFetch + r.accountsToSubscribe;
    InfrequentInOrder(deps);
    FilteredSize(deps, IsInfrequent(), KeyOf(), FetchTargets(r));
  }

  lemma {:induction false} InfrequentCount(deps: seq<Dependency>, k: Pubkey)
    ensures multiset(InfrequentKeys(deps))[k] == multiset(deps)[Dependency(k, Infrequent)]
    decreases |deps|
  {
    if deps != [] {
      assert deps == [deps[0]] + deps[1..];
      InfrequentCount(deps[1..], k);
    }
  }

  /** A key is targeted as often as the two lists name it infrequent. */
  lemma {:induction false} TargetsCount(r: HandleResult, k: Pubkey)
    ensures multiset(FetchTargets(r))[k]
         == multiset(r.accountsToFetch)[Dependency(k, Infrequent)]
            + multiset(r.accountsToSubscribe)[Dependency(k, Infrequent)]
  {
    InfrequentCount(r.accountsToFetch + r.accountsToSubscribe, k);
  }

  // The outside: handlers, what an account holds, and which fetch attempts fail.
  datatype World = World(
    dispatch: AccountUpdate -> Result<HandleResult, HandlerError>,
    response: Pubkey -> seq<Option<AccountUpdate>>,
    fails: nat -> bool)

  datatype Status = Status(queue: seq<Pubkey>, dropped: nat, seen: set<Pubkey>, calls: seq<Pubkey>)

  // try_send: a full queue drops and counts.
  function SendOne(s: Status, key: Pubkey): Status {
    if |s.queue| < DEP_QUEUE_CAPACITY then s.(queue := s.queue + [key]) else s.(dropped := s.dropped + 1)
  }

  // Each key in turn.
  function SendAll(s: Status, keys: seq<Pubkey>): (r: Status)
    ensures r.dropped >= s.dropped && r.seen == s.seen && r.calls == s.calls
    ensures |s.queue| <= DEP_QUEUE_CAPACITY ==> |r.queue| <= DEP_QUEUE_CAPACITY
    decreases |keys|
  {
    if keys == [] then s else SendAll(SendOne(s, keys[0]), keys[1..])
  }

  /** What fits is queued in order, and exactly the rest is dropped and counted. */
  lemma {:induction false} SendAllExact(s: Status, keys: seq<Pubkey>)
    requires |s.queue| <= DEP_QUEUE_CAPACITY
    ensures var room := 1024 - |s.queue|;
            var n := if |keys| <= room then |keys| else room;
            SendAll(s, keys) == s.(queue := s.queue + keys[..n], dropped := s.dropped + (|keys| - n))
    decreases |keys|
  {
    if keys == [] {
      assert s.queue + [] == s.queue;
    } else {
      SendAllExact(SendOne(s, keys[0]), keys[1..]);
      var room := DEP_QUEUE_CAPACITY - |s.queue|;
      var n := if |keys| <= room then |keys| else room;
      if n > 0 {
        assert s.queue + [keys[0]] + keys[1..][..n - 1] == s.queue + keys[..n];
      }
    }
  }

  function Reports(w: World, update: AccountUpdate): seq<Pubkey> {
    match w.dispatch(update)
    case Ok(r) => FetchTargets(r)
    case Err(_) => []
  }

  function ReportsAll(w: World, updates: seq<Option<AccountUpdate>>): seq<Pubkey> {
    if updates == [] then []
    else (if updates[0].Some? then Reports(w, updates[0].value) else []) + ReportsAll(w, updates[1..])
  }

  // The keys a successful fetch of k leads to.
  function Leads(w: World, k: Pubkey): seq<Pubkey> {
    ReportsAll(w, w.response(k))
  }

  lemma {:induction false} ReportsAllAppend(w: World, a: seq<Option<AccountUpdate>>, b: seq<Option<AccountUpdate>>)
    ensures ReportsAll(w, a + b) == ReportsAll(w, a) + ReportsAll(w, b)
    decreases |a|
  {
    if a == [] {
      assert a + b == b;
    } else {
      assert (a + b)[1..] == a[1..] + b;
      ReportsAllAppend(w, a[1..], b);
    }
  }

  /** Every returned account is dispatched, in order: a missing one contributes nothing and ends nothing, and a failed
      dispatch reports nothing. */
  lemma {:induction false} ReportsEach(w: World, before: seq<Option<AccountUpdate>>, u: Option<AccountUpdate>,
                                       after: seq<Option<AccountUpdate>>)
    ensures u == None ==>
              ReportsAll(w, before + [u] + after) == ReportsAll(w, before) + ReportsAll(w, after)
    ensures forall update :: u == Some(update) && w.dispatch(update).Err? ==>
              ReportsAll(w, before + [u] + after) == ReportsAll(w, before) + ReportsAll(w, after)
    ensures forall update, r :: u == Some(update) && w.dispatch(update) == Result.Ok(r) ==>
              ReportsAll(w, before + [u] + after) == ReportsAll(w, before) + FetchTargets(r) + ReportsAll(w, after)
  {
    hide ReportsAll, FetchTargets;
    ReportsAllAppend(w, before + [u], after);
    ReportsAllAppend(w, before, [u]);
    ReportsOne(w, u);
    assert ReportsAll(w, before) + [] == ReportsAll(w, before);
  }

  lemma ReportsOne(w: World, u: Option<AccountUpdate>)
    ensures ReportsAll(w, [u])
         == if u == None || w.dispatch(u.value).Err? then [] else FetchTargets(w.dispatch(u.value).value)
  {
    hide FetchTargets;
    assert [u][1..] == [];
  }

  // One received key.
  function Resolve(w: World, s: Status, k: Pubkey): Status {
    if k in s.seen then s
    else
      var called := s.(calls := s.calls + [k]);
      if w.fails(|s.calls|) then called
      else SendAll(called.(seen := s.seen + {k}), Leads(w, k))
  }

  ghost predicate Closed(w: World, universe: set<Pubkey>) {
    forall k :: k in universe ==> forall d :: d in Leads(w, k) ==> d in universe
  }

  ghost predicate Within(s: Status, universe: set<Pubkey>) {
    (forall k :: k in s.queue ==> k in universe) && s.seen <= universe
  }

  lemma {:induction false} SendAllWithin(s: Status, keys: seq<Pubkey>, universe: set<Pubkey>)
    requires Within(s, universe) && forall k :: k in keys ==> k in universe
    ensures Within(SendAll(s, keys), universe)
    decreases |keys|
  {
    if keys != [] {
      SendAllWithin(SendOne(s, keys[0]), keys[1..], universe);
    }
  }

  lemma ResolveWithin(w: World, s: Status, k: Pubkey, universe: set<Pubkey>)
    requires Closed(w, universe) && Within(s, universe) && k in universe
    ensures Within(Resolve(w, s, k), universe)
  {
    if k !in s.seen && !w.fails(|s.calls|) {
      SendAllWithin(s.(calls := s.calls + [k], seen := s.seen + {k}), Leads(w, k), universe);
    }
  }

  // Either a new key is seen for good, or the queue only got shorter.
  lemma ResolveProgress(w: World, s: Status, k: Pubkey, universe: set<Pubkey>)
    requires k in universe && s.seen <= universe
    ensures var r := Resolve(w, s, k);
            s.seen <= r.seen && s.dropped <= r.dropped
            && (|universe - r.seen| < |universe - s.seen| || (r.seen == s.seen && r.queue == s.queue))
  {
    if k !in s.seen && !w.fails(|s.calls|) {
      var r := Resolve(w, s, k);
      assert universe - s.seen == (universe - r.seen) + {k};
    }
  }

  /** Drain as a function: it terminates over any finite closed universe, whatever fails or is dropped. */
  ghost function Drain(w: World, s: Status, universe: set<Pubkey>): (r: Status)
    requires Closed(w, universe) && Within(s, universe)
    ensures r.queue == [] && s.seen <= r.seen <= universe && s.dropped <= r.dropped
    decreases |universe - s.seen|, |s.queue|
  {
    if s.queue == [] then s
    else
      var k, s1 := s.queue[0], s.(queue := s.queue[1..]);
      assert k in universe;
      ResolveWithin(w, s1, k, universe);
      ResolveProgress(w, s1, k, universe);
      Drain(w, Resolve(w, s1, k), universe)
  }

  lemma SendNext(s: Status, keys: seq<Pubkey>, i: nat)
    requires i < |keys|
    ensures SendAll(s, keys[i..]) == SendAll(SendOne(s, keys[i]), keys[i + 1..])
  {
    hide SendOne;
    assert keys[i..][0] == keys[i] && keys[i..][1..] == keys[i + 1..];
  }

  lemma SendDone(s: Status, keys: seq<Pubkey>)
    ensures SendAll(s, keys[|keys|..]) == s
  {
  }

  // ---- The same, as the objects the source runs ---------------------------

  class Fetcher {
    const world: World
    var calls: seq<Pubkey>

    constructor (world: World)
      ensures this.world == world && calls == []
    {
      this.world := world;
      calls := [];
    }

    method Fetch(key: Pubkey) returns (r: Option<seq<Option<AccountUpdate>>>)
      modifies this
      ensures calls == old(calls) + [key]
      ensures r == if world.fails(|old(calls)|) then None else Some(world.response(key))
    {
      r := if world.fails(|calls|) then None else Some(world.response(key));
      calls := calls + [key];
    }
  }

  class IngestCore {
    const fetcher: Fetcher
    var queue: seq<Pubkey>
    var depsDropped: nat

    constructor (fetcher: Fetcher)
      ensures this.fetcher == fetcher && queue == [] && depsDropped == 0
    {
      this.fetcher := fetcher;
      queue, depsDropped := [], 0;
    }

    ghost predicate Valid()
      reads this
    {
      |queue| <= DEP_QUEUE_CAPACITY
    }

    method TrySend(key: Pubkey) returns (sent: bool)
      requires Valid()
      modifies this`queue
      ensures Valid()
      ensures sent <==> |old(queue)| < 1024
      ensures queue == if sent then old(queue) + [key] else old(queue)
    {
      sent := |queue| < DEP_QUEUE_CAPACITY;
      if sent {
        queue := queue + [key];
      }
    }

    // Never blocks: a key the queue refuses is counted instead.
    method Offer(key: Pubkey, ghost now: Status)
      requires Valid() && now.queue == queue && now.dropped == depsDropped
      modifies this
      ensures Valid()
      ensures queue == SendOne(now, key).queue && depsDropped == SendOne(now, key).dropped
    {
      var sent := TrySend(key);
      if !sent {
        depsDropped := depsDropped + 1;
      }
    }

    /** Dispatch and queue: a full queue drops and counts, and a failed dispatch queues nothing. */
    method Apply(update: AccountUpdate, ghost seen: set<Pubkey>) returns (r: Result<HandleResult, HandlerError>)
      requires Valid()
      modifies this
      ensures Valid()
      ensures r == fetcher.world.dispatch(update)
      ensures Status(queue, depsDropped, seen, fetcher.calls)
           == SendAll(Status(old(queue), old(depsDropped), seen, fetcher.calls), Reports(fetcher.world, update))
      ensures |queue| + depsDropped - |old(queue)| - old(depsDropped)
           == if r.Err? then 0
              else |Positions(r.value.accountsToFetch + r.value.accountsToSubscribe, IsInfrequent())|
      ensures fetcher.calls == old(fetcher.calls)
    {
      hide FetchTargets, InfrequentKeys, SendAll;
      r := fetcher.world.dispatch(update);
      ghost var start := Status(queue, depsDropped, seen, fetcher.calls);
      if r.Err? {
        SendDone(start, []);
        return;
      }
      var targets := FetchTargets(r.value);
      ghost var now := start;
      assert targets[0..] == targets;
      for i := 0 to |targets|
        invariant Valid() && now.queue == queue && now.dropped == depsDropped
        invariant SendAll(start, targets) == SendAll(now, targets[i..])
        invariant fetcher.calls == old(fetcher.calls)
      {
        SendNext(now, targets, i);
        Offer(targets[i], now);
        now := SendOne(now, targets[i]);
      }
      SendDone(now, targets);
      SendAllExact(start, targets);
      TargetsInOrder(r.value);
    }
  }

  lemma {:induction false} SendAllAppend(s: Status, a: seq<Pubkey>, b: seq<Pubkey>)
    ensures SendAll(s, a + b) == SendAll(SendAll(s, a), b)
    decreases |a|
  {
    if a == [] {
      assert a + b == b;
    } else {
      assert (a + b)[1..] == a[1..] + b;
      SendAllAppend(SendOne(s, a[0]), a[1..], b);
    }
  }

  class DepResolver {
    const ingest: IngestCore
    var seen: set<Pubkey>

    constructor (ingest: IngestCore)
      ensures this.ingest == ingest && seen == {}
    {
      this.ingest := ingest;
      seen := {};
    }

    ghost function Now(): Status
      reads this, ingest, ingest.fetcher
    {
      Status(ingest.queue, ingest.depsDropped, seen, ingest.fetcher.calls)
    }

    method ResolveKey(key: Pubkey)
      requires ingest.Valid()
      modifies this, ingest, ingest.fetcher
      ensures ingest.Valid()
      ensures Now() == Resolve(ingest.fetcher.world, old(Now()), key)
    {
      if key in seen {
        return;
      }
      var was := seen;
      seen := seen + {key};
      var fetched := ingest.fetcher.Fetch(key);
      if fetched.None? {
        seen := seen - {key};
        assert seen == was;
        return;
      }
      var updates := fetched.value;
      ghost var w, all := ingest.fetcher.world, SendAll(Now(), ReportsAll(ingest.fetcher.world, updates));
      for i := 0 to |updates|
        invariant ingest.Valid() && seen == was + {key}
        invariant all == SendAll(Now(), ReportsAll(w, updates[i..]))
      {
        assert updates[i..][0] == updates[i] && updates[i..][1..] == updates[i + 1..];
        assert [] + ReportsAll(w, updates[i + 1..]) == ReportsAll(w, updates[i + 1..]);
        if updates[i].Some? {
          SendAllAppend(Now(), Reports(w, updates[i].value), ReportsAll(w, updates[i + 1..]));
          var _ := ingest.Apply(updates[i].value, seen);
        }
      }
    }

    /** Resolve everything queued, including what resolving queues. */
    method DrainQueue(ghost universe: set<Pubkey>)
      requires ingest.Valid() && Closed(ingest.fetcher.world, universe) && Within(Now(), universe)
      modifies this, ingest, ingest.fetcher
      ensures ingest.Valid()
      ensures Now() == Drain(ingest.fetcher.world, old(Now()), universe)
    {
      ghost var w := ingest.fetcher.world;
      while ingest.queue != []
        invariant ingest.Valid() && Within(Now(), universe)
        invariant Drain(w, Now(), universe) == Drain(w, old(Now()), universe)
        decreases |universe - seen|, |ingest.queue|
      {
        var key := ingest.queue[0];
        assert key in universe;
        ingest.queue := ingest.queue[1..];
        ResolveWithin(w, Now(), key, universe);
        ResolveProgress(w, Now(), key, universe);
        ResolveKey(key);
      }
    }
  }
}
