/** Filtering a sequence, said by positions instead of by a walk over it. */
module Filters {
  ghost predicate Rising(ps: seq<nat>) {
    forall i, j :: 0 <= i < j < |ps| ==> ps[i] < ps[j]
  }

  // ps lists, in order, exactly the positions whose element is kept.
  ghost predicate Picks<A(!new)>(s: seq<A>, keep: A -> bool, ps: seq<nat>) {
    && Rising(ps)
    && (forall i :: 0 <= i < |ps| ==> ps[i] < |s| && keep(s[ps[i]]))
    && (forall p: nat :: p < |s| && keep(s[p]) ==> p in ps)
  }

  ghost predicate Maps<A(!new), B(!new)>(s: seq<A>, to: A -> B, ps: seq<nat>, out: seq<B>)
    requires forall i :: 0 <= i < |ps| ==> ps[i] < |s|
  {
    |out| == |ps| && forall q :: 0 <= q < |ps| ==> out[q] == to(s[ps[q]])
  }

  // out is, in order, what the kept elements become: one each, and nothing else.
  ghost predicate Filtered<A(!new), B(!new)>(s: seq<A>, keep: A -> bool, to: A -> B, out: seq<B>) {
    exists ps :: Picks(s, keep, ps) && Maps(s, to, ps, out)
  }

  lemma FilteredNone<A(!new), B(!new)>(keep: A -> bool, to: A -> B)
    ensures Filtered([], keep, to, [])
  {
    assert Picks([], keep, []);
  }

  lemma {:induction false} FilteredCons<A(!new), B(!new)>(s: seq<A>, keep: A -> bool, to: A -> B, out: seq<B>)
    requires s != [] && Filtered(s[1..], keep, to, out)
    ensures Filtered(s, keep, to, (if keep(s[0]) then [to(s[0])] else []) + out)
  {
    var ps :| Picks(s[1..], keep, ps) && Maps(s[1..], to, ps, out);
    var all := PicksShift(s, keep, ps);
    MapsShift(s, keep, to, ps, all, out);
  }

  function Shift(ps: seq<nat>): (r: seq<nat>)
    ensures |r| == |ps| && forall i :: 0 <= i < |ps| ==> r[i] == ps[i] + 1
  {
    seq(|ps|, i requires 0 <= i < |ps| => ps[i] + 1)
  }

  lemma PicksShift<A(!new)>(s: seq<A>, keep: A -> bool, ps: seq<nat>) returns (all: seq<nat>)
    requires s != [] && Picks(s[1..], keep, ps)
    ensures all == (if keep(s[0]) then [0] else []) + Shift(ps)
    ensures Picks(s, keep, all)
  {
    hide Shift;
    all := (if keep(s[0]) then [0] else []) + Shift(ps);
    ShiftKept(s, keep, ps);
    assert Shift(ps) == [] + Shift(ps);
    forall p: nat | p < |s| && keep(s[p])
      ensures p in all
    {
      if p == 0 {
        assert all[0] == 0;
      } else {
        assert p in Shift(ps);
      }
    }
  }

  lemma ShiftKept<A(!new)>(s: seq<A>, keep: A -> bool, ps: seq<nat>)
    requires s != [] && Picks(s[1..], keep, ps)
    ensures Rising(Shift(ps)) && Rising([0] + Shift(ps))
    ensures forall i :: 0 <= i < |ps| ==> 0 < Shift(ps)[i] < |s| && keep(s[Shift(ps)[i]])
    ensures forall p: nat :: 0 < p < |s| && keep(s[p]) ==> p in Shift(ps)
  {
    hide Picks;
    ShiftRises(s[1..], keep, ps);
    forall i | 0 <= i < |ps|
      ensures 0 < Shift(ps)[i] < |s| && keep(s[Shift(ps)[i]])
    {
      PickedAt(s[1..], keep, ps, i);
    }
    forall p: nat | 0 < p < |s| && keep(s[p])
      ensures p in Shift(ps)
    {
      var i := PickOf(s[1..], keep, ps, p - 1);
      assert Shift(ps)[i] == p;
    }
  }

  lemma ShiftRises<A(!new)>(s: seq<A>, keep: A -> bool, ps: seq<nat>)
    requires Picks(s, keep, ps)
    ensures Rising(Shift(ps)) && Rising([0] + Shift(ps))
  {
  }

  lemma PickedAt<A(!new)>(s: seq<A>, keep: A -> bool, ps: seq<nat>, i: nat)
    requires Picks(s, keep, ps) && i < |ps|
    ensures ps[i] < |s| && keep(s[ps[i]])
  {
  }

  lemma PickOf<A(!new)>(s: seq<A>, keep: A -> bool, ps: seq<nat>, p: nat) returns (i: nat)
    requires Picks(s, keep, ps) && p < |s| && keep(s[p])
    ensures i < |ps| && ps[i] == p
  {
    assert p in ps;
    i :| 0 <= i < |ps| && ps[i] == p;
  }

  lemma MapsShift<A(!new), B(!new)>(s: seq<A>, keep: A -> bool, to: A -> B, ps: seq<nat>, all: seq<nat>, out: seq<B>)
    requires s != [] && Picks(s[1..], keep, ps) && Picks(s, keep, all) && Maps(s[1..], to, ps, out)
    requires all == (if keep(s[0]) then [0] else []) + Shift(ps)
    ensures Maps(s, to, all, (if keep(s[0]) then [to(s[0])] else []) + out)
  {
    var n := if keep(s[0]) then 1 else 0;
    forall q | 0 <= q < |all|
      ensures ((if keep(s[0]) then [to(s[0])] else []) + out)[q] == to(s[all[q]])
    {
      if q >= n {
        assert all[q] == ps[q - n] + 1 && s[1..][ps[q - n]] == s[all[q]];
      }
    }
  }

  /** The positions, and with them the result, are determined. */
  lemma {:induction false} FilteredOnce<A(!new), B(!new)>(s: seq<A>, keep: A -> bool, to: A -> B, a: seq<B>, b: seq<B>)
    requires Filtered(s, keep, to, a) && Filtered(s, keep, to, b)
    ensures a == b
  {
    var ps :| Picks(s, keep, ps) && Maps(s, to, ps, a);
    var qs :| Picks(s, keep, qs) && Maps(s, to, qs, b);
    forall p
      ensures p in ps <==> p in qs
    {
    }
    SamePositions(ps, qs);
  }

  lemma {:induction false} SamePositions(ps: seq<nat>, qs: seq<nat>)
    requires Rising(ps) && Rising(qs) && forall p :: p in ps <==> p in qs
    ensures ps == qs
    decreases |ps|
  {
    BothEmpty(ps, qs);
    if ps != [] {
      assert ps[|ps| - 1] in qs;
      var m, n := |ps| - 1, |qs| - 1;
      assert qs[n] in ps;
      assert ps[m] == qs[n];
      assert ps == ps[..m] + [ps[m]] && qs == qs[..n] + [qs[n]];
      forall p
        ensures p in ps[..m] <==> p in qs[..n]
      {
        assert p in ps[..m] <==> p in ps && p != ps[m];
        assert p in qs[..n] <==> p in qs && p != qs[n];
      }
      SamePositions(ps[..m], qs[..n]);
    }
  }

  lemma BothEmpty(ps: seq<nat>, qs: seq<nat>)
    requires forall p :: p in ps <==> p in qs
    ensures ps == [] <==> qs == []
  {
    if ps != [] {
      assert ps[0] in ps;
    }
    if qs != [] {
      assert qs[0] in qs;
    }
  }

  ghost function Positions<A(!new)>(s: seq<A>, keep: A -> bool): set<nat> {
    set p: nat | p < |s| && keep(s[p])
  }

  /** As many as there are kept elements. */
  lemma {:induction false} FilteredSize<A(!new), B(!new)>(s: seq<A>, keep: A -> bool, to: A -> B, out: seq<B>)
    requires Filtered(s, keep, to, out)
    ensures |out| == |Positions(s, keep)|
  {
    var ps :| Picks(s, keep, ps) && Maps(s, to, ps, out);
    RisingSize(ps);
    assert Positions(s, keep) == Elements(ps);
  }

  ghost function Elements(ps: seq<nat>): set<nat> {
    set p | p in ps
  }

  lemma ElementsLast(ps: seq<nat>)
    requires Rising(ps) && ps != []
    ensures var n := |ps| - 1;
            Rising(ps[..n]) && Elements(ps) == Elements(ps[..n]) + {ps[n]} && ps[n] !in Elements(ps[..n])
  {
    assert ps == ps[..|ps| - 1] + [ps[|ps| - 1]];
  }

  lemma {:induction false} RisingSize(ps: seq<nat>)
    requires Rising(ps)
    ensures |Elements(ps)| == |ps|
    decreases |ps|
  {
    hide Rising, Elements;
    if ps == [] {
      NoElements();
    } else {
      ElementsLast(ps);
      RisingSize(ps[..|ps| - 1]);
    }
  }

  lemma NoElements()
    ensures Elements([]) == {}
  {
  }
}
