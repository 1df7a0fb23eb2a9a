/** A slot-versioned map with a bounded history per key. */
module VersionedMap {
  import opened Wrappers

  datatype Obs<T> = Obs(state: T, slot: nat)

  datatype Versioned<T> = Versioned(current: Obs<T>, history: seq<Obs<T>>)

  datatype InsertOutcome = Inserted | UpdatedSameSlot | Advanced | Stale

  // ---- One key ------------------------------------------------------------

  function Put<T>(depth: nat, entry: Option<Versioned<T>>, w: Obs<T>): Versioned<T> {
    match entry
    case None => Versioned(w, [])
    case Some(v) =>
      if w.slot < v.current.slot then v
      else if w.slot == v.current.slot then v.(current := w)
      else
        var longer := [v.current] + v.history;
        Versioned(w, if |longer| <= depth then longer else longer[..depth])
  }

  function FirstAtOrBefore<T>(obs: seq<Obs<T>>, slot: nat): Option<Obs<T>> {
    if obs == [] then None
    else if obs[0].slot <= slot then Some(obs[0])
    else FirstAtOrBefore(obs[1..], slot)
  }

  function LookupAt<T>(entry: Option<Versioned<T>>, slot: nat): Option<Obs<T>> {
    match entry
    case None => None
    case Some(v) => if v.current.slot <= slot then Some(v.current) else FirstAtOrBefore(v.history, slot)
  }

  // The entry after a list of insertion attempts, oldest first.
  function Fold<T>(depth: nat, ws: seq<Obs<T>>): Option<Versioned<T>> {
    if ws == [] then None
    else Some(Put(depth, Fold(depth, ws[..|ws| - 1]), ws[|ws| - 1]))
  }

  // ---- What the history of attempts says, independently of the map ----------

  // An attempt is accepted when no earlier attempt was at a later slot.
  ghost predicate Accepted<T>(ws: seq<Obs<T>>, i: nat) {
    i < |ws| && forall j :: 0 <= j < i ==> ws[j].slot <= ws[i].slot
  }

  ghost function AcceptedSlots<T>(ws: seq<Obs<T>>): set<nat> {
    set i | 0 <= i < |ws| && Accepted(ws, i) :: ws[i].slot
  }

  ghost function NewerSlots<T>(ws: seq<Obs<T>>, slot: nat): set<nat> {
    set s | s in AcceptedSlots(ws) && slot < s
  }

  // The last accepted attempt at or before the slot.
  ghost predicate LastAt<T>(ws: seq<Obs<T>>, slot: nat, i: nat) {
    && Accepted(ws, i) && ws[i].slot <= slot
    && (forall j :: i < j < |ws| && Accepted(ws, j) ==> slot < ws[j].slot)
  }

  // ---- Unbounded history --------------------------------------------------

  // Every distinct accepted slot with its last value, newest first.
  function Timeline<T>(ws: seq<Obs<T>>): (r: seq<Obs<T>>)
    ensures ws != [] ==> r != []
  {
    if ws == [] then []
    else
      var was, w := Timeline(ws[..|ws| - 1]), ws[|ws| - 1];
      if was == [] || was[0].slot < w.slot then [w] + was
      else if was[0].slot == w.slot then [w] + was[1..]
      else was
  }

  ghost predicate Descending<T>(obs: seq<Obs<T>>) {
    forall i, j :: 0 <= i < j < |obs| ==> obs[j].slot < obs[i].slot
  }

  function All<T>(v: Versioned<T>): seq<Obs<T>> {
    [v.current] + v.history
  }

  function Newest<T>(obs: seq<Obs<T>>, n: nat): seq<Obs<T>> {
    if |obs| <= n then obs else obs[..n]
  }

  // The map keeps the newest depth + 1 observations of the timeline.
  lemma {:induction false} FoldIsNewest<T>(depth: nat, ws: seq<Obs<T>>)
    requires ws != []
    ensures Fold(depth, ws).Some? && All(Fold(depth, ws).value) == Newest(Timeline(ws), depth + 1)
    decreases |ws|
  {
    var before, w := ws[..|ws| - 1], ws[|ws| - 1];
    if before == [] {
      assert Timeline(ws) == [w];
    } else {
      FoldIsNewest(depth, before);
      var v, was := Fold(depth, before).value, Timeline(before);
      assert was[0] == v.current;
      if v.current.slot < w.slot {
        assert Newest([w] + was, depth + 1) == [w] + Newest(was, depth);
        assert Newest(All(v), depth) == Newest(was, depth);
      } else if v.current.slot == w.slot {
        assert All(v)[1..] == Newest(was, depth + 1)[1..];
        assert Newest([w] + was[1..], depth + 1) == [w] + Newest(was, depth + 1)[1..];
      }
    }
  }

  ghost predicate Recorded<T>(ws: seq<Obs<T>>, o: Obs<T>) {
    exists i: nat :: LastAt(ws, o.slot, i) && ws[i] == o
  }

  ghost predicate HasSlot<T>(obs: seq<Obs<T>>, slot: nat) {
    exists k :: 0 <= k < |obs| && obs[k].slot == slot
  }

  // The timeline's slots are the accepted slots; each carries the value of its last accepted attempt.
  ghost predicate Records<T>(ws: seq<Obs<T>>, obs: seq<Obs<T>>) {
    && Descending(obs)
    && (forall k :: 0 <= k < |obs| ==> Recorded(ws, obs[k]))
    && (forall i :: 0 <= i < |ws| && Accepted(ws, i) ==> HasSlot(obs, ws[i].slot))
  }

  // Some accepted attempt is at slot top, and no attempt is later.
  ghost predicate TopsOut<T>(ws: seq<Obs<T>>, top: nat) {
    && (forall j :: 0 <= j < |ws| ==> ws[j].slot <= top)
    && (exists i: nat :: Accepted(ws, i) && ws[i].slot == top)
  }

  lemma {:induction false} TopIsMax<T>(ws: seq<Obs<T>>)
    requires ws != []
    ensures TopsOut(ws, Timeline(ws)[0].slot)
    decreases |ws|
  {
    var n := |ws| - 1;
    if n == 0 {
      assert Accepted(ws, 0);
    } else {
      TopIsMax(ws[..n]);
      TopExtends(ws, Timeline(ws[..n])[0].slot);
    }
  }

  lemma TopExtends<T>(ws: seq<Obs<T>>, top: nat)
    requires |ws| > 1 && TopsOut(ws[..|ws| - 1], top)
    ensures TopsOut(ws, if top <= ws[|ws| - 1].slot then ws[|ws| - 1].slot else top)
  {
    var n := |ws| - 1;
    var before := ws[..n];
    assert forall j :: 0 <= j < n ==> ws[j] == before[j];
    if top <= ws[n].slot {
      assert Accepted(ws, n);
    } else {
      var i: nat :| Accepted(before, i) && before[i].slot == top;
      assert Accepted(ws, i);
    }
  }

  lemma AcceptedBefore<T>(ws: seq<Obs<T>>, i: nat)
    requires ws != [] && i < |ws| - 1
    ensures Accepted(ws, i) <==> Accepted(ws[..|ws| - 1], i)
  {
    assert forall j :: 0 <= j <= i ==> ws[j] == ws[..|ws| - 1][j];
  }

  lemma AcceptedLast<T>(ws: seq<Obs<T>>)
    requires |ws| > 1
    ensures Accepted(ws, |ws| - 1) <==> Timeline(ws[..|ws| - 1])[0].slot <= ws[|ws| - 1].slot
  {
    var before := ws[..|ws| - 1];
    TopIsMax(before);
    assert forall j :: 0 <= j < |before| ==> ws[j] == before[j];
    var i: nat :| Accepted(before, i) && before[i].slot == Timeline(before)[0].slot;
    assert ws[i].slot == Timeline(before)[0].slot;
  }

  lemma LastAtExtends<T>(ws: seq<Obs<T>>, slot: nat, i: nat)
    requires |ws| > 1 && LastAt(ws[..|ws| - 1], slot, i)
    requires Accepted(ws, |ws| - 1) ==> slot < ws[|ws| - 1].slot
    ensures LastAt(ws, slot, i) && ws[i] == ws[..|ws| - 1][i]
  {
    var before := ws[..|ws| - 1];
    AcceptedBefore(ws, i);
    forall j | i < j < |ws| && Accepted(ws, j)
      ensures slot < ws[j].slot
    {
      if j < |before| {
        AcceptedBefore(ws, j);
        assert ws[j] == before[j];
      }
    }
  }

  lemma RecordedExtends<T>(ws: seq<Obs<T>>, o: Obs<T>)
    requires |ws| > 1 && Recorded(ws[..|ws| - 1], o)
    requires Accepted(ws, |ws| - 1) ==> o.slot < ws[|ws| - 1].slot
    ensures Recorded(ws, o)
  {
    var i: nat :| LastAt(ws[..|ws| - 1], o.slot, i) && ws[..|ws| - 1][i] == o;
    LastAtExtends(ws, o.slot, i);
  }

  // Earlier observations still in place, the newest attempt on top if it was accepted.
  lemma RecordsExtend<T>(ws: seq<Obs<T>>, was: seq<Obs<T>>, kept: seq<Obs<T>>, obs: seq<Obs<T>>)
    requires |ws| > 1 && Records(ws[..|ws| - 1], was) && Descending(obs)
    requires obs == if Accepted(ws, |ws| - 1) then [ws[|ws| - 1]] + kept else kept
    requires forall o :: o in kept ==> o in was && (Accepted(ws, |ws| - 1) ==> o.slot < ws[|ws| - 1].slot)
    requires forall k :: 0 <= k < |was| ==> HasSlot(obs, was[k].slot)
    ensures Records(ws, obs)
  {
    forall k | 0 <= k < |obs|
      ensures Recorded(ws, obs[k])
    {
      if Accepted(ws, |ws| - 1) && k == 0 {
        assert LastAt(ws, ws[|ws| - 1].slot, |ws| - 1);
      } else {
        assert obs[k] in kept;
        RecordedExtends(ws, obs[k]);
      }
    }
    forall i | 0 <= i < |ws| && Accepted(ws, i)
      ensures HasSlot(obs, ws[i].slot)
    {
      SlotExtends(ws, was, obs, i);
    }
  }

  lemma SlotExtends<T>(ws: seq<Obs<T>>, was: seq<Obs<T>>, obs: seq<Obs<T>>, i: nat)
    requires |ws| > 1 && Records(ws[..|ws| - 1], was) && Accepted(ws, i)
    requires Accepted(ws, |ws| - 1) ==> obs != [] && obs[0] == ws[|ws| - 1]
    requires forall k :: 0 <= k < |was| ==> HasSlot(obs, was[k].slot)
    ensures HasSlot(obs, ws[i].slot)
  {
    if i < |ws| - 1 {
      AcceptedBefore(ws, i);
      assert ws[..|ws| - 1][i] == ws[i];
      var k :| 0 <= k < |was| && was[k].slot == ws[i].slot;
      assert HasSlot(obs, was[k].slot);
    }
  }

  lemma {:induction false} TimelineRecords<T>(ws: seq<Obs<T>>)
    ensures Records(ws, Timeline(ws))
    decreases |ws|
  {
    if |ws| == 1 {
      assert ws[..0] == [] && Timeline(ws) == [ws[0]];
      assert LastAt(ws, ws[0].slot, 0);
      assert Timeline(ws)[0].slot == ws[0].slot;
    } else if |ws| > 1 {
      var n := |ws| - 1;
      var was, w, obs := Timeline(ws[..n]), ws[n], Timeline(ws);
      TimelineRecords(ws[..n]);
      AcceptedLast(ws);
      var kept := if was[0].slot == w.slot then was[1..] else was;
      SlotsKept(was, w, kept, obs);
      RecordsExtend(ws, was, kept, obs);
    }
  }

  lemma SlotsKept<T>(was: seq<Obs<T>>, w: Obs<T>, kept: seq<Obs<T>>, obs: seq<Obs<T>>)
    requires was != [] && Descending(was)
    requires kept == if was[0].slot == w.slot then was[1..] else was
    requires obs == if was[0].slot <= w.slot then [w] + kept else kept
    ensures Descending(obs)
    ensures forall o :: o in kept ==> o in was && (was[0].slot <= w.slot ==> o.slot < w.slot)
    ensures forall k :: 0 <= k < |was| ==> HasSlot(obs, was[k].slot)
  {
    hide Descending, HasSlot;
    KeptBelow(was, w, kept);
    KeptDescends(was, w, kept, obs);
    forall k | 0 <= k < |was|
      ensures HasSlot(obs, was[k].slot)
    {
      SlotThere(was, w, kept, obs, k);
    }
  }

  lemma KeptBelow<T>(was: seq<Obs<T>>, w: Obs<T>, kept: seq<Obs<T>>)
    requires was != [] && Descending(was)
    requires kept == if was[0].slot == w.slot then was[1..] else was
    ensures forall o :: o in kept ==> o in was && (was[0].slot <= w.slot ==> o.slot < w.slot)
  {
  }

  lemma KeptDescends<T>(was: seq<Obs<T>>, w: Obs<T>, kept: seq<Obs<T>>, obs: seq<Obs<T>>)
    requires Descending(was) && was != []
    requires kept == if was[0].slot == w.slot then was[1..] else was
    requires obs == if was[0].slot <= w.slot then [w] + kept else kept
    ensures Descending(obs)
  {
    assert Descending(kept);
    if was[0].slot <= w.slot {
      KeptBelow(was, w, kept);
      OnTop(w, kept);
    }
  }

  lemma OnTop<T>(w: Obs<T>, kept: seq<Obs<T>>)
    requires Descending(kept) && forall o :: o in kept ==> o.slot < w.slot
    ensures Descending([w] + kept)
  {
  }

  lemma SlotThere<T>(was: seq<Obs<T>>, w: Obs<T>, kept: seq<Obs<T>>, obs: seq<Obs<T>>, k: nat)
    requires k < |was|
    requires kept == if was[0].slot == w.slot then was[1..] else was
    requires obs == if was[0].slot <= w.slot then [w] + kept else kept
    ensures HasSlot(obs, was[k].slot)
  {
    var k' := if was[0].slot < w.slot then k + 1 else k;
    assert obs[k'].slot == was[k].slot;
  }

  // ---- Lookup refines the history -----------------------------------------

  ghost predicate AllNewer<T>(obs: seq<Obs<T>>, slot: nat) {
    forall j :: 0 <= j < |obs| ==> slot < obs[j].slot
  }

  lemma {:induction false} FirstSkipsNewer<T>(newer: seq<Obs<T>>, rest: seq<Obs<T>>, slot: nat)
    requires AllNewer(newer, slot)
    ensures FirstAtOrBefore(newer + rest, slot) == FirstAtOrBefore(rest, slot)
    decreases |newer|
  {
    if newer == [] {
      assert newer + rest == rest;
    } else {
      assert (newer + rest)[1..] == newer[1..] + rest;
      FirstSkipsNewer(newer[1..], rest, slot);
    }
  }

  lemma {:induction false} FirstMember<T>(obs: seq<Obs<T>>, slot: nat)
    requires FirstAtOrBefore(obs, slot).Some?
    ensures FirstAtOrBefore(obs, slot).value in obs && FirstAtOrBefore(obs, slot).value.slot <= slot
    decreases |obs|
  {
    if slot < obs[0].slot {
      FirstMember(obs[1..], slot);
    }
  }

  lemma LookupIsFirst<T>(v: Versioned<T>, slot: nat)
    ensures LookupAt(Some(v), slot) == FirstAtOrBefore(All(v), slot)
  {
    assert All(v)[1..] == v.history;
  }

  lemma LastAtUnique<T>(ws: seq<Obs<T>>, slot: nat, i: nat, j: nat)
    requires LastAt(ws, slot, i) && LastAt(ws, slot, j)
    ensures i == j
  {
  }

  // The k-th newest observation has exactly k newer slots.
  lemma {:induction false} NewerThan<T>(ws: seq<Obs<T>>, obs: seq<Obs<T>>, k: nat)
    requires Records(ws, obs) && k < |obs|
    ensures |NewerSlots(ws, obs[k].slot)| == k
  {
    var newer := SlotsOf(obs[..k]);
    forall s | s in newer
      ensures s in NewerSlots(ws, obs[k].slot)
    {
      var j :| 0 <= j < k && obs[..k][j].slot == s;
      assert Recorded(ws, obs[j]);
    }
    forall s | s in NewerSlots(ws, obs[k].slot)
      ensures s in newer
    {
      var i :| 0 <= i < |ws| && Accepted(ws, i) && ws[i].slot == s;
      var j :| 0 <= j < |obs| && obs[j].slot == ws[i].slot;
      assert j < k && obs[..k][j] == obs[j];
    }
    assert newer == NewerSlots(ws, obs[k].slot);
    DescendingSize(obs[..k]);
  }

  ghost function SlotsOf<T>(obs: seq<Obs<T>>): set<nat> {
    set j | 0 <= j < |obs| :: obs[j].slot
  }

  lemma {:induction false} DescendingSize<T>(obs: seq<Obs<T>>)
    requires Descending(obs)
    ensures |SlotsOf(obs)| == |obs|
    decreases |obs|
  {
    if obs != [] {
      var n := |obs| - 1;
      DescendingSize(obs[..n]);
      SlotsOfLast(obs);
      assert obs[n].slot !in SlotsOf(obs[..n]);
    }
  }

  lemma SlotsOfLast<T>(obs: seq<Obs<T>>)
    requires obs != []
    ensures SlotsOf(obs) == SlotsOf(obs[..|obs| - 1]) + {obs[|obs| - 1].slot}
  {
    var n := |obs| - 1;
    forall s | s in SlotsOf(obs)
      ensures s in SlotsOf(obs[..n]) + {obs[n].slot}
    {
      var j :| 0 <= j < |obs| && obs[j].slot == s;
      if j < n {
        assert obs[..n][j] == obs[j];
      }
    }
    forall s | s in SlotsOf(obs[..n])
      ensures s in SlotsOf(obs)
    {
      var j :| 0 <= j < n && obs[..n][j].slot == s;
      assert obs[j] == obs[..n][j];
    }
  }

  // Where in the timeline the answer for a slot sits.
  lemma {:induction false} LastInTimeline<T>(ws: seq<Obs<T>>, obs: seq<Obs<T>>, slot: nat, i: nat) returns (k: nat)
    requires Records(ws, obs) && LastAt(ws, slot, i)
    ensures k < |obs| && obs[k] == ws[i] && AllNewer(obs[..k], slot)
  {
    assert HasSlot(obs, ws[i].slot);
    k :| k < |obs| && obs[k].slot == ws[i].slot;
    assert Recorded(ws, obs[k]);
    var i': nat :| LastAt(ws, obs[k].slot, i') && ws[i'] == obs[k];
    assert LastAt(ws, obs[k].slot, i);
    LastAtUnique(ws, obs[k].slot, i, i');
    forall j | 0 <= j < k
      ensures slot < obs[..k][j].slot
    {
      EarlierIsNewer(ws, obs, slot, i, k, j);
    }
  }

  // Whatever stands before the answer in the timeline is past the slot.
  lemma EarlierIsNewer<T>(ws: seq<Obs<T>>, obs: seq<Obs<T>>, slot: nat, i: nat, k: nat, j: nat)
    requires Records(ws, obs) && LastAt(ws, slot, i) && j < k < |obs| && obs[k].slot == ws[i].slot
    ensures slot < obs[j].slot
  {
    hide HasSlot;
    assert obs[k].slot < obs[j].slot;
    assert Recorded(ws, obs[j]);
    var m: nat :| LastAt(ws, obs[j].slot, m) && ws[m] == obs[j];
    AcceptedInOrder(ws, i, m);
  }

  lemma AcceptedInOrder<T>(ws: seq<Obs<T>>, i: nat, m: nat)
    requires Accepted(ws, i) && Accepted(ws, m) && ws[i].slot < ws[m].slot
    ensures i < m
  {
  }

  /** A read at a slot returns the last value written at the greatest accepted slot up to it, exactly while that
      slot is among the newest depth + 1 distinct accepted slots; otherwise it returns nothing. */
  lemma {:induction false} LookupRefinesHistory<T>(depth: nat, ws: seq<Obs<T>>, slot: nat, i: nat)
    requires LastAt(ws, slot, i)
    ensures LookupAt(Fold(depth, ws), slot) == if |NewerSlots(ws, ws[i].slot)| <= depth then Some(ws[i]) else None
  {
    var obs := Timeline(ws);
    TimelineRecords(ws);
    FoldIsNewest(depth, ws);
    LookupIsFirst(Fold(depth, ws).value, slot);
    var k := LastInTimeline(ws, obs, slot, i);
    NewerThan(ws, obs, k);
    LookupNewest(obs, depth + 1, slot, k);
  }

  // The last value accepted at its slot, with at most depth accepted slots above it.
  ghost predicate Kept<T>(depth: nat, ws: seq<Obs<T>>, o: Obs<T>) {
    Recorded(ws, o) && |NewerSlots(ws, o.slot)| <= depth
  }

  /** What an entry holds of its attempts, exactly. */
  lemma {:induction false} KeptIff<T>(depth: nat, ws: seq<Obs<T>>, o: Obs<T>)
    requires ws != []
    ensures Fold(depth, ws).Some? && (o in All(Fold(depth, ws).value) <==> Kept(depth, ws, o))
  {
    hide Fold, Timeline, NewerSlots;
    var obs := Timeline(ws);
    TimelineRecords(ws);
    FoldIsNewest(depth, ws);
    var kept := Newest(obs, depth + 1);
    if k :| 0 <= k < |kept| && kept[k] == o {
      assert obs[k] == o && Recorded(ws, obs[k]);
      NewerThan(ws, obs, k);
    }
    if Kept(depth, ws, o) {
      var i: nat :| LastAt(ws, o.slot, i) && ws[i] == o;
      var k := LastInTimeline(ws, obs, o.slot, i);
      NewerThan(ws, obs, k);
      assert kept[k] == o;
    }
  }

  // No accepted value was replaced by another at its slot.
  ghost predicate NoRewrites<T>(ws: seq<Obs<T>>) {
    forall i: nat, j: nat :: Accepted(ws, i) && Accepted(ws, j) && ws[i].slot == ws[j].slot ==> ws[i] == ws[j]
  }

  ghost predicate AllIn<T>(ws: seq<Obs<T>>, kept: seq<Obs<T>>) {
    forall i: nat :: Accepted(ws, i) ==> ws[i] in kept
  }

  /** An entry holds everything it ever accepted exactly when that is at most depth + 1 slots, none rewritten. */
  lemma {:induction false} AllKeptIff<T>(depth: nat, ws: seq<Obs<T>>)
    requires ws != []
    ensures Fold(depth, ws).Some?
    ensures AllIn(ws, All(Fold(depth, ws).value)) <==> |AcceptedSlots(ws)| <= depth + 1 && NoRewrites(ws)
  {
    hide Fold, Timeline, All;
    KeptIff(depth, ws, ws[0]);
    if |AcceptedSlots(ws)| <= depth + 1 && NoRewrites(ws) {
      forall i: nat | Accepted(ws, i)
        ensures ws[i] in All(Fold(depth, ws).value)
      {
        KeptIff(depth, ws, ws[i]);
        FewAreKept(depth, ws, i);
      }
    } else if AllIn(ws, All(Fold(depth, ws).value)) {
      forall i: nat | Accepted(ws, i)
        ensures Kept(depth, ws, ws[i])
      {
        KeptIff(depth, ws, ws[i]);
      }
      KeptAreFew(depth, ws);
    }
  }

  lemma {:induction false} FewAreKept<T>(depth: nat, ws: seq<Obs<T>>, i: nat)
    requires Accepted(ws, i) && |AcceptedSlots(ws)| <= depth + 1 && NoRewrites(ws)
    ensures Kept(depth, ws, ws[i])
  {
    LastOf(ws, ws[i].slot, i);
    var m: nat :| LastAt(ws, ws[i].slot, m);
    assert ws[m].slot == ws[i].slot;
    assert Recorded(ws, ws[i]);
    FewerAbove(ws, i);
  }

  lemma FewerAbove<T>(ws: seq<Obs<T>>, i: nat)
    requires Accepted(ws, i)
    ensures |NewerSlots(ws, ws[i].slot)| < |AcceptedSlots(ws)|
  {
    var newer, all := NewerSlots(ws, ws[i].slot), AcceptedSlots(ws);
    assert ws[i].slot in all - newer;
    assert all == newer + (all - newer);
  }

  lemma {:induction false} KeptAreFew<T>(depth: nat, ws: seq<Obs<T>>)
    requires ws != [] && forall i: nat :: Accepted(ws, i) ==> Kept(depth, ws, ws[i])
    ensures |AcceptedSlots(ws)| <= depth + 1 && NoRewrites(ws)
  {
    forall i: nat, j: nat | Accepted(ws, i) && Accepted(ws, j) && ws[i].slot == ws[j].slot
      ensures ws[i] == ws[j]
    {
      var m: nat :| LastAt(ws, ws[i].slot, m) && ws[m] == ws[i];
      var n: nat :| LastAt(ws, ws[j].slot, n) && ws[n] == ws[j];
      LastAtUnique(ws, ws[i].slot, m, n);
    }
    var obs := Timeline(ws);
    TimelineRecords(ws);
    AcceptedAreTimeline(ws, obs);
    var k := |obs| - 1;
    assert Recorded(ws, obs[k]);
    var i: nat :| LastAt(ws, obs[k].slot, i) && ws[i] == obs[k];
    assert Kept(depth, ws, ws[i]);
    NewerThan(ws, obs, k);
  }

  lemma {:induction false} AcceptedAreTimeline<T>(ws: seq<Obs<T>>, obs: seq<Obs<T>>)
    requires Records(ws, obs)
    ensures |AcceptedSlots(ws)| == |obs|
  {
    forall s | s in AcceptedSlots(ws)
      ensures s in SlotsOf(obs)
    {
      var i :| 0 <= i < |ws| && Accepted(ws, i) && ws[i].slot == s;
      var j :| 0 <= j < |obs| && obs[j].slot == ws[i].slot;
    }
    forall s | s in SlotsOf(obs)
      ensures s in AcceptedSlots(ws)
    {
      var j :| 0 <= j < |obs| && obs[j].slot == s;
      assert Recorded(ws, obs[j]);
    }
    assert AcceptedSlots(ws) == SlotsOf(obs);
    DescendingSize(obs);
  }

  lemma LookupNewest<T>(obs: seq<Obs<T>>, n: nat, slot: nat, k: nat)
    requires k < |obs| && AllNewer(obs[..k], slot) && obs[k].slot <= slot
    ensures FirstAtOrBefore(Newest(obs, n), slot) == if k < n then Some(obs[k]) else None
  {
    var kept := Newest(obs, n);
    if k < n {
      assert kept == obs[..k] + kept[k..];
      FirstSkipsNewer(obs[..k], kept[k..], slot);
    } else {
      assert kept == obs[..k][..n];
      assert AllNewer(kept, slot);
      FirstSkipsNewer(kept, [], slot);
      assert kept + [] == kept;
    }
  }

  lemma {:induction false} LookupBeforeHistory<T>(depth: nat, ws: seq<Obs<T>>, slot: nat)
    requires forall i: nat :: !LastAt(ws, slot, i)
    ensures LookupAt(Fold(depth, ws), slot) == None
  {
    if ws != [] {
      var obs, v := Timeline(ws), Fold(depth, ws).value;
      TimelineRecords(ws);
      FoldIsNewest(depth, ws);
      LookupIsFirst(v, slot);
      if FirstAtOrBefore(All(v), slot).Some? {
        FirstMember(All(v), slot);
        var o := FirstAtOrBefore(All(v), slot).value;
        assert o in obs;
        assert Recorded(ws, o);
        var i: nat :| LastAt(ws, o.slot, i) && ws[i] == o;
        LastOf(ws, slot, i);
      }
    }
  }

  // If something was accepted by slot, then something was accepted last by it.
  lemma {:induction false} LastOf<T>(ws: seq<Obs<T>>, slot: nat, j: nat)
    requires Accepted(ws, j) && ws[j].slot <= slot
    ensures exists m: nat :: LastAt(ws, slot, m)
    decreases |ws| - j
  {
    if m :| j < m < |ws| && Accepted(ws, m) && ws[m].slot <= slot {
      LastOf(ws, slot, m);
    } else {
      assert LastAt(ws, slot, j);
    }
  }

  /** The retained history is strictly descending, below the current slot, and within depth. */
  lemma {:induction false} HistoryShape<T>(depth: nat, ws: seq<Obs<T>>)
    requires ws != []
    ensures Fold(depth, ws).Some?
    ensures var v := Fold(depth, ws).value;
            && |v.history| <= depth
            && Descending(v.history)
            && (forall k :: 0 <= k < |v.history| ==> v.history[k].slot < v.current.slot)
            && (forall j :: 0 <= j < |ws| ==> ws[j].slot <= v.current.slot)
  {
    FoldIsNewest(depth, ws);
    TopIsMax(ws);
    TimelineRecords(ws);
    DescendingNewest(Timeline(ws), depth + 1, Fold(depth, ws).value);
  }

  lemma DescendingNewest<T>(obs: seq<Obs<T>>, n: nat, v: Versioned<T>)
    requires Descending(obs) && n > 0 && obs != [] && All(v) == Newest(obs, n)
    ensures v.current == obs[0] && |v.history| < n && Descending(v.history)
    ensures forall k :: 0 <= k < |v.history| ==> v.history[k].slot < v.current.slot
  {
    var kept := Newest(obs, n);
    assert forall k :: 0 <= k < |kept| ==> kept[k] == obs[k];
    assert v.current == All(v)[0] == obs[0];
    forall k | 0 <= k < |v.history|
      ensures v.history[k] == obs[k + 1]
    {
      assert v.history[k] == All(v)[k + 1];
    }
  }

  // ---- Reads below the current slot are repeatable --------------------------

  lemma {:induction false} FirstInPrefix<T>(obs: seq<Obs<T>>, n: nat, slot: nat)
    requires n <= |obs|
    ensures FirstAtOrBefore(obs[..n], slot) == FirstAtOrBefore(obs, slot) || FirstAtOrBefore(obs[..n], slot) == None
    decreases n
  {
    if n > 0 && slot < obs[0].slot {
      FirstInPrefix(obs[1..], n - 1, slot);
      assert obs[..n][1..] == obs[1..][..n - 1];
    }
  }

  /** A slot already below the current one: any insertion leaves the answer as it was, or evicts it. */
  lemma {:induction false} PastReadRepeats<T>(depth: nat, v: Versioned<T>, w: Obs<T>, slot: nat)
    requires slot < v.current.slot
    ensures var v' := Put(depth, Some(v), w);
            && slot < v'.current.slot
            && (LookupAt(Some(v'), slot) == LookupAt(Some(v), slot) || LookupAt(Some(v'), slot) == None)
  {
    var longer := [v.current] + v.history;
    assert longer[1..] == v.history;
    if depth < |longer| {
      FirstInPrefix(longer, depth, slot);
    }
  }

  ghost predicate SameOrGone<T>(depth: nat, v: Versioned<T>, w: Obs<T>, slot: nat) {
    var r := LookupAt(Some(Put(depth, Some(v), w)), slot);
    r == LookupAt(Some(v), slot) || r == None
  }

  /** A read is repeatable under every insertion exactly when its slot is below the current one. */
  lemma {:induction false} RepeatableIff<T(!new)>(depth: nat, v: Versioned<T>, other: T, slot: nat)
    requires other != v.current.state
    ensures (forall w: Obs<T> :: SameOrGone(depth, v, w, slot)) <==> slot < v.current.slot
  {
    if slot < v.current.slot {
      forall w: Obs<T>
        ensures SameOrGone(depth, v, w, slot)
      {
        PastReadRepeats(depth, v, w, slot);
      }
    } else {
      var w := Obs(other, v.current.slot);
      assert LookupAt(Some(Put(depth, Some(v), w)), slot) == Some(w);
      assert !SameOrGone(depth, v, w, slot);
    }
  }

  // ---- The map ------------------------------------------------------------

  // An occupied entry, updated in place: the displaced observation goes to the front, the oldest fall off the back.
  method PutEntry<T>(depth: nat, v: Versioned<T>, state: T, slot: nat)
    returns (v': Versioned<T>, outcome: InsertOutcome)
    ensures v' == Put(depth, Some(v), Obs(state, slot))
    ensures outcome == if slot < v.current.slot then Stale
                       else if slot == v.current.slot then UpdatedSameSlot
                       else Advanced
    ensures outcome.Stale? ==> v' == v
  {
    if slot < v.current.slot {
      return v, Stale;
    } else if slot == v.current.slot {
      return v.(current := Obs(state, slot)), UpdatedSameSlot;
    }
    var longer := [v.current] + v.history;
    var history := [];
    if depth > 0 {
      history := longer;
      while |history| > depth
        invariant history == longer || depth <= |history| < |longer|
        invariant |history| <= |longer| && history == longer[..|history|]
      {
        history := history[..|history| - 1];
      }
    }
    return Versioned(Obs(state, slot), history), Advanced;
  }

  lemma CurrentIsMax<T>(depth: nat, ws: seq<Obs<T>>, v: Versioned<T>)
    requires ws != [] && Fold(depth, ws) == Some(v)
    ensures forall j :: 0 <= j < |ws| ==> ws[j].slot <= v.current.slot
    ensures exists j :: 0 <= j < |ws| && ws[j].slot == v.current.slot
  {
    FoldIsNewest(depth, ws);
    TopIsMax(ws);
    assert v.current == All(v)[0] == Timeline(ws)[0];
    var i: nat :| Accepted(ws, i) && ws[i].slot == Timeline(ws)[0].slot;
  }

  lemma FoldFirst<T>(depth: nat, w: Obs<T>)
    ensures Fold(depth, [w]) == Some(Versioned(w, []))
  {
    assert [w][..0] == [];
  }

  lemma FoldAppend<T>(depth: nat, ws: seq<Obs<T>>, w: Obs<T>)
    ensures Fold(depth, ws + [w]) == Some(Put(depth, Fold(depth, ws), w))
  {
    assert (ws + [w])[..|ws|] == ws;
  }

  class VersionedStateMap<K(==), T(==)> {
    const depth: nat
    var inner: map<K, Versioned<T>>
    // Every insertion attempted for a key since its entry was created.
    ghost var attempts: map<K, seq<Obs<T>>>

    ghost predicate Valid()
      reads this
    {
      && inner.Keys == attempts.Keys
      && forall k :: k in inner ==> attempts[k] != [] && Fold(depth, attempts[k]) == Some(inner[k])
    }

    constructor WithDepth(depth: nat)
      ensures Valid() && this.depth == depth && attempts == map[]
    {
      this.depth := depth;
      inner, attempts := map[], map[];
    }

    ghost function Attempts(key: K): seq<Obs<T>>
      reads this
    {
      if key in attempts then attempts[key] else []
    }

    method Insert(key: K, state: T, slot: nat) returns (outcome: InsertOutcome)
      requires Valid()
      modifies this
      ensures Valid()
      ensures attempts == old(attempts)[key := old(Attempts(key)) + [Obs(state, slot)]]
      ensures forall k :: k != key ==> (k in inner <==> k in old(inner)) && (k in inner ==> inner[k] == old(inner)[k])
      ensures outcome.Inserted? <==> key !in old(inner)
      ensures outcome.Stale? <==>
              key in old(inner)
              && exists i :: 0 <= i < |old(Attempts(key))| && slot < old(Attempts(key))[i].slot
      ensures outcome.UpdatedSameSlot? <==> key in old(inner) && slot == old(inner)[key].current.slot
      ensures outcome.Stale? ==> inner == old(inner)
    {
      hide Fold, Put;
      ghost var ws, w := Attempts(key), Obs(state, slot);
      FoldAppend(depth, ws, w);
      FoldFirst(depth, w);
      if key !in inner {
        assert ws + [w] == [w];
        inner := inner[key := Versioned(Obs(state, slot), [])];
        outcome := Inserted;
      } else {
        CurrentIsMax(depth, ws, inner[key]);
        var v;
        v, outcome := PutEntry(depth, inner[key], state, slot);
        inner := inner[key := v];
      }
      attempts := attempts[key := ws + [w]];
    }

    /** A read answers from the whole history of attempts, as far back as depth reaches. */
    method GetAtSlot(key: K, slot: nat) returns (r: Option<Obs<T>>)
      requires Valid()
      ensures r == LookupAt(if key in inner then Some(inner[key]) else None, slot)
      ensures forall i: nat :: LastAt(Attempts(key), slot, i) ==>
                r == if |NewerSlots(Attempts(key), Attempts(key)[i].slot)| <= depth
                     then Some(Attempts(key)[i])
                     else None
      ensures (forall i: nat :: !LastAt(Attempts(key), slot, i)) ==> r == None
    {
      r := None;
      if key in inner {
        var v := inner[key];
        if v.current.slot <= slot {
          r := Some(v.current);
        } else {
          r := FirstAtOrBefore(v.history, slot);
        }
      }
      forall i: nat | LastAt(Attempts(key), slot, i)
        ensures r == if |NewerSlots(Attempts(key), Attempts(key)[i].slot)| <= depth
                     then Some(Attempts(key)[i])
                     else None
      {
        LookupRefinesHistory(depth, Attempts(key), slot, i);
      }
      if forall i: nat :: !LastAt(Attempts(key), slot, i) {
        LookupBeforeHistory(depth, Attempts(key), slot);
      }
    }

    method Remove(key: K) returns (r: Option<T>)
      requires Valid()
      modifies this
      ensures Valid()
      ensures attempts == old(attempts) - {key} && inner == old(inner) - {key}
      ensures r == if key in old(inner) then Some(old(inner)[key].current.state) else None
    {
      r := if key in inner then Some(inner[key].current.state) else None;
      inner := inner - {key};
      attempts := attempts - {key};
    }

    method Clear()
      requires Valid()
      modifies this
      ensures Valid() && inner == map[] && attempts == map[]
    {
      inner, attempts := map[], map[];
    }
  }
}
