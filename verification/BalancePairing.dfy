/** Pre and post token balances of one transaction, paired by account index. */
module BalancePairing {
  import opened Wrappers
  import opened Logs

  datatype Entry = Entry(accountIndex: nat, program: Pubkey, owner: Pubkey, mint: Pubkey, raw: nat, decimals: nat)

  datatype Change = Change(owner: Pubkey, mint: Pubkey, program: Pubkey, preRaw: Option<nat>, postRaw: Option<nat>,
                           decimals: nat)

  function OrZero(raw: Option<nat>): nat {
    match raw
    case None => 0
    case Some(n) => n
  }

  function DeltaRaw(c: Change): int {
    OrZero(c.postRaw) - OrZero(c.preRaw)
  }

  function PreOnly(q: Entry): Change {
    Change(q.owner, q.mint, q.program, Some(q.raw), None, q.decimals)
  }

  function PostOnly(p: Entry): Change {
    Change(p.owner, p.mint, p.program, None, Some(p.raw), p.decimals)
  }

  function TwoSided(q: Entry, p: Entry): Change {
    Change(p.owner, p.mint, p.program, Some(q.raw), Some(p.raw), p.decimals)
  }

  // ---- Which entry meets which ---------------------------------------------

  // Entries at an account index.
  function Count(s: seq<Entry>, x: nat): nat {
    if s == [] then 0 else Count(s[..|s| - 1], x) + if s[|s| - 1].accountIndex == x then 1 else 0
  }

  // How many earlier entries share entry i's account index.
  function Rank(s: seq<Entry>, i: nat): nat
    requires i < |s|
  {
    Count(s[..i], s[i].accountIndex)
  }

  lemma CountNext(s: seq<Entry>, i: nat, x: nat)
    requires i < |s|
    ensures Count(s[..i + 1], x) == Count(s[..i], x) + if s[i].accountIndex == x then 1 else 0
  {
    assert s[..i + 1][..i] == s[..i];
  }

  lemma {:induction false} CountGrows(s: seq<Entry>, i: nat, j: nat, x: nat)
    requires i <= j <= |s|
    ensures Count(s[..i], x) <= Count(s[..j], x)
    decreases j - i
  {
    if i < j {
      CountNext(s, i, x);
      CountGrows(s, i + 1, j, x);
    }
  }

  // The k-th post entry at an index meets the k-th pre entry there, if there is one.
  predicate Meets(pre: seq<Entry>, post: seq<Entry>, i: nat, j: nat)
    requires i < |pre| && j < |post|
  {
    pre[i].accountIndex == post[j].accountIndex && Rank(pre, i) == Rank(post, j)
  }

  lemma MeetsOnce(pre: seq<Entry>, post: seq<Entry>, i: nat, i': nat, j: nat)
    requires i < i' < |pre| && j < |post| && Meets(pre, post, i, j)
    ensures !Meets(pre, post, i', j)
  {
    CountNext(pre, i, pre[i].accountIndex);
    CountGrows(pre, i + 1, i', pre[i].accountIndex);
  }

  function PartnerFrom(pre: seq<Entry>, post: seq<Entry>, j: nat, i: nat): (r: Option<nat>)
    requires j < |post| && i <= |pre|
    ensures r.Some? ==> r.value < |pre| && Meets(pre, post, r.value, j)
    ensures r.None? ==> forall k :: i <= k < |pre| ==> !Meets(pre, post, k, j)
    decreases |pre| - i
  {
    if i == |pre| then None
    else if Meets(pre, post, i, j) then Some(i)
    else PartnerFrom(pre, post, j, i + 1)
  }

  function Partner(pre: seq<Entry>, post: seq<Entry>, j: nat): (r: Option<nat>)
    requires j < |post|
    ensures r.Some? ==> r.value < |pre| && Meets(pre, post, r.value, j)
    ensures r.None? ==> forall k :: 0 <= k < |pre| ==> !Meets(pre, post, k, j)
  {
    PartnerFrom(pre, post, j, 0)
  }

  lemma PartnerUnique(pre: seq<Entry>, post: seq<Entry>, i: nat, j: nat)
    requires i < |pre| && j < |post| && Meets(pre, post, i, j)
    ensures Partner(pre, post, j) == Some(i)
  {
    var k := Partner(pre, post, j).value;
    if k < i {
      MeetsOnce(pre, post, k, i, j);
    } else if i < k {
      MeetsOnce(pre, post, i, k, j);
    }
  }

  // ---- The expected output --------------------------------------------------

  function ChangesFor(pre: seq<Entry>, post: seq<Entry>, j: nat): seq<Change>
    requires j < |post|
  {
    match Partner(pre, post, j)
    case None => [PostOnly(post[j])]
    case Some(i) =>
      if pre[i].owner == post[j].owner && pre[i].mint == post[j].mint then [TwoSided(pre[i], post[j])]
      else [PreOnly(pre[i]), PostOnly(post[j])]
  }

  function PostChanges(pre: seq<Entry>, post: seq<Entry>, j: nat): seq<Change>
    requires j <= |post|
  {
    if j == 0 then [] else PostChanges(pre, post, j - 1) + ChangesFor(pre, post, j - 1)
  }

  // Entry i has met one of the first j post entries.
  predicate Met(pre: seq<Entry>, post: seq<Entry>, i: nat, j: nat)
    requires i < |pre| && j <= |post|
  {
    Rank(pre, i) < Count(post[..j], pre[i].accountIndex)
  }

  function LeftoverChanges(pre: seq<Entry>, post: seq<Entry>, i: nat): seq<Change>
    requires i <= |pre|
  {
    if i == 0 then []
    else LeftoverChanges(pre, post, i - 1) + if Met(pre, post, i - 1, |post|) then [] else [PreOnly(pre[i - 1])]
  }

  function Paired(pre: seq<Entry>, post: seq<Entry>): seq<Change> {
    PostChanges(pre, post, |post|) + LeftoverChanges(pre, post, |pre|)
  }

  // ---- The loops ----------------------------------------------------------

  // If everything at x before i has rank below r, there are at most r of them.
  lemma {:induction false} RanksBound(s: seq<Entry>, i: nat, x: nat, r: nat)
    requires i <= |s|
    requires forall k :: 0 <= k < i && s[k].accountIndex == x ==> Rank(s, k) < r
    ensures Count(s[..i], x) <= r
  {
    if i > 0 {
      CountNext(s, i - 1, x);
      if s[i - 1].accountIndex == x {
        assert Rank(s, i - 1) < r;
      } else {
        RanksBound(s, i - 1, x, r);
      }
    }
  }

  method FindUnconsumed(pre: seq<Entry>, consumed: array<bool>, x: nat, ghost r: nat) returns (found: Option<nat>)
    requires consumed.Length == |pre|
    requires forall i :: 0 <= i < |pre| && pre[i].accountIndex == x ==> (consumed[i] <==> Rank(pre, i) < r)
    ensures found.Some? ==> found.value < |pre| && pre[found.value].accountIndex == x && Rank(pre, found.value) == r
    ensures found.None? ==> forall i :: 0 <= i < |pre| && pre[i].accountIndex == x ==> Rank(pre, i) != r
  {
    for i := 0 to |pre|
      invariant forall k :: 0 <= k < i && pre[k].accountIndex == x ==> consumed[k]
    {
      if !consumed[i] && pre[i].accountIndex == x {
        RanksBound(pre, i, x, r);
        return Some(i);
      }
    }
    return None;
  }

  lemma MetNext(pre: seq<Entry>, post: seq<Entry>, i: nat, j: nat)
    requires i < |pre| && j < |post|
    ensures Met(pre, post, i, j + 1) <==> Met(pre, post, i, j) || Meets(pre, post, i, j)
    ensures Met(pre, post, i, j) ==> !Meets(pre, post, i, j)
  {
    CountNext(post, j, pre[i].accountIndex);
  }

  // After post entry j: its partner, and nobody else, has newly been met.
  lemma MetAfter(pre: seq<Entry>, post: seq<Entry>, j: nat, matched: Option<nat>)
    requires j < |post|
    requires matched.Some? ==> matched.value < |pre| && Meets(pre, post, matched.value, j)
    requires matched.None? ==> forall i :: 0 <= i < |pre| ==> !Meets(pre, post, i, j)
    ensures Partner(pre, post, j) == matched
    ensures forall i :: 0 <= i < |pre| ==> (Met(pre, post, i, j + 1) <==> Met(pre, post, i, j) || matched == Some(i))
  {
    hide Meets, Met;
    if matched.Some? {
      PartnerUnique(pre, post, matched.value, j);
    }
    forall i | 0 <= i < |pre|
      ensures Met(pre, post, i, j + 1) <==> Met(pre, post, i, j) || matched == Some(i)
    {
      MetNext(pre, post, i, j);
      if Meets(pre, post, i, j) {
        PartnerUnique(pre, post, i, j);
      }
    }
  }

  /** The nested loops with their consumed array produce the k-th-meets-k-th pairing, in arrival order. */
  method Pair(pre: seq<Entry>, post: seq<Entry>) returns (out: seq<Change>)
    ensures out == Paired(pre, post)
  {
    var consumed := new bool[|pre|](i => false);
    out := [];
    for j := 0 to |post|
      invariant forall i :: 0 <= i < |pre| ==> (consumed[i] <==> Met(pre, post, i, j))
      invariant out == PostChanges(pre, post, j)
    {
      var p := post[j];
      var matched := FindUnconsumed(pre, consumed, p.accountIndex, Rank(post, j));
      MetAfter(pre, post, j, matched);
      hide Met, Meets, Partner, Rank, Count;
      if matched.Some? {
        var i := matched.value;
        consumed[i] := true;
        if pre[i].owner == p.owner && pre[i].mint == p.mint {
          out := out + [TwoSided(pre[i], p)];
        } else {
          out := out + [PreOnly(pre[i]), PostOnly(p)];
        }
      } else {
        out := out + [PostOnly(p)];
      }
    }
    ghost var fromPost := out;
    assert fromPost + [] == out;
    for i := 0 to |pre|
      invariant out == fromPost + LeftoverChanges(pre, post, i)
    {
      hide Met;
      if !consumed[i] {
        out := out + [PreOnly(pre[i])];
      }
    }
  }

  // ---- Conservation -------------------------------------------------------

  // What an entry says about a holding.
  datatype Holding = Holding(owner: Pubkey, mint: Pubkey, raw: nat)

  type Weight = Holding -> int

  function EntryWeight(s: seq<Entry>, w: Weight): int {
    if s == [] then 0
    else EntryWeight(s[..|s| - 1], w) + w(Holding(s[|s| - 1].owner, s[|s| - 1].mint, s[|s| - 1].raw))
  }

  // The pre side of a change; alone, with its program and decimals, when there is no post side.
  datatype Side = Side(owner: Pubkey, mint: Pubkey, raw: nat, alone: Option<(Pubkey, nat)>)

  type Scale = Side -> int

  function SideOf(c: Change): Side
    requires c.preRaw.Some?
  {
    Side(c.owner, c.mint, c.preRaw.value, if c.postRaw.None? then Some((c.program, c.decimals)) else None)
  }

  // Entry i is paired with a post entry of its own account.
  ghost predicate Joined(pre: seq<Entry>, post: seq<Entry>, i: nat)
    requires i < |pre|
  {
    exists j :: 0 <= j < |post| && Meets(pre, post, i, j)
                && pre[i].owner == post[j].owner && pre[i].mint == post[j].mint
  }

  ghost function EntrySide(pre: seq<Entry>, post: seq<Entry>, i: nat): Side
    requires i < |pre|
  {
    var e := pre[i];
    Side(e.owner, e.mint, e.raw, if Joined(pre, post, i) then None else Some((e.program, e.decimals)))
  }

  lemma JoinedIff(pre: seq<Entry>, post: seq<Entry>, i: nat, j: nat)
    requires i < |pre| && j < |post| && Meets(pre, post, i, j)
    ensures Joined(pre, post, i) <==> pre[i].owner == post[j].owner && pre[i].mint == post[j].mint
  {
    if k :| 0 <= k < |post| && Meets(pre, post, i, k) && k != j {
      assert Meets(post, pre, j, i) && Meets(post, pre, k, i);
      MeetsOnce(post, pre, if j < k then j else k, if j < k then k else j, i);
    }
  }

  lemma UnmetAlone(pre: seq<Entry>, post: seq<Entry>, i: nat)
    requires i < |pre| && !Met(pre, post, i, |post|)
    ensures !Joined(pre, post, i)
  {
    if j :| 0 <= j < |post| && Meets(pre, post, i, j) {
      MetNext(pre, post, i, j);
      CountGrows(post, j + 1, |post|, pre[i].accountIndex);
    }
  }

  ghost function PreTotal(pre: seq<Entry>, post: seq<Entry>, n: nat, w: Scale): int
    requires n <= |pre|
  {
    if n == 0 then 0 else PreTotal(pre, post, n - 1, w) + w(EntrySide(pre, post, n - 1))
  }

  function SideWeight(c: Change, w: Scale): int {
    if c.preRaw.None? then 0 else w(SideOf(c))
  }

  function PreWeight(cs: seq<Change>, w: Scale): int {
    if cs == [] then 0 else PreWeight(cs[..|cs| - 1], w) + SideWeight(cs[|cs| - 1], w)
  }

  lemma {:induction false} PreWeightAppend(a: seq<Change>, b: seq<Change>, w: Scale)
    ensures PreWeight(a + b, w) == PreWeight(a, w) + PreWeight(b, w)
    decreases |b|
  {
    if b == [] {
      assert a + b == a;
    } else {
      assert (a + b)[..|a + b| - 1] == a + b[..|b| - 1];
      PreWeightAppend(a, b[..|b| - 1], w);
    }
  }

  // The weight of the first n pre entries that have met one of the first j post entries.
  ghost function MetWeight(pre: seq<Entry>, post: seq<Entry>, n: nat, j: nat, w: Scale): int
    requires n <= |pre| && j <= |post|
  {
    if n == 0 then 0
    else MetWeight(pre, post, n - 1, j, w)
         + if Met(pre, post, n - 1, j) then w(EntrySide(pre, post, n - 1)) else 0
  }

  ghost function PartnerWeight(pre: seq<Entry>, post: seq<Entry>, n: nat, j: nat, w: Scale): int
    requires n <= |pre| && j < |post|
  {
    match Partner(pre, post, j)
    case None => 0
    case Some(i) => if i < n then w(EntrySide(pre, post, i)) else 0
  }

  lemma {:induction false} MetWeightNext(pre: seq<Entry>, post: seq<Entry>, n: nat, j: nat, w: Scale)
    requires n <= |pre| && j < |post|
    ensures MetWeight(pre, post, n, j + 1, w) == MetWeight(pre, post, n, j, w) + PartnerWeight(pre, post, n, j, w)
    decreases n
  {
    if n > 0 {
      MetWeightNext(pre, post, n - 1, j, w);
      MetNext(pre, post, n - 1, j);
      if Meets(pre, post, n - 1, j) {
        PartnerUnique(pre, post, n - 1, j);
      }
    }
  }

  lemma {:induction false} NothingMet(pre: seq<Entry>, post: seq<Entry>, n: nat, w: Scale)
    requires n <= |pre|
    ensures MetWeight(pre, post, n, 0, w) == 0
  {
    if n > 0 {
      NothingMet(pre, post, n - 1, w);
    }
  }

  lemma ChangesForWeight(pre: seq<Entry>, post: seq<Entry>, j: nat, w: Scale)
    requires j < |post|
    ensures PreWeight(ChangesFor(pre, post, j), w) == PartnerWeight(pre, post, |pre|, j, w)
  {
    var partner := Partner(pre, post, j);
    PreWeightOne(PostOnly(post[j]), w);
    if partner.Some? {
      var q, p := pre[partner.value], post[j];
      JoinedIff(pre, post, partner.value, j);
      PreWeightOne(TwoSided(q, p), w);
      PreWeightOne(PreOnly(q), w);
      PreWeightAppend([PreOnly(q)], [PostOnly(p)], w);
      assert [PreOnly(q), PostOnly(p)] == [PreOnly(q)] + [PostOnly(p)];
    }
  }

  lemma PreWeightOne(c: Change, w: Scale)
    ensures PreWeight([c], w) == SideWeight(c, w)
  {
    assert [c][..0] == [];
  }

  lemma {:induction false} PostChangesWeight(pre: seq<Entry>, post: seq<Entry>, j: nat, w: Scale)
    requires j <= |post|
    ensures PreWeight(PostChanges(pre, post, j), w) == MetWeight(pre, post, |pre|, j, w)
  {
    hide ChangesFor, MetWeight;
    if j == 0 {
      NothingMet(pre, post, |pre|, w);
    } else {
      PostChangesWeight(pre, post, j - 1, w);
      PostChangesStep(pre, post, j - 1, w);
    }
  }

  lemma PostChangesStep(pre: seq<Entry>, post: seq<Entry>, j: nat, w: Scale)
    requires j < |post| && PreWeight(PostChanges(pre, post, j), w) == MetWeight(pre, post, |pre|, j, w)
    ensures PreWeight(PostChanges(pre, post, j + 1), w) == MetWeight(pre, post, |pre|, j + 1, w)
  {
    hide ChangesFor, MetWeight, PreWeight, PartnerWeight;
    MetWeightNext(pre, post, |pre|, j, w);
    ChangesForWeight(pre, post, j, w);
    PreWeightAppend(PostChanges(pre, post, j), ChangesFor(pre, post, j), w);
  }

  lemma {:induction false} LeftoverWeight(pre: seq<Entry>, post: seq<Entry>, i: nat, w: Scale)
    requires i <= |pre|
    ensures PreWeight(LeftoverChanges(pre, post, i), w) + MetWeight(pre, post, i, |post|, w)
         == PreTotal(pre, post, i, w)
  {
    hide PreWeight, MetWeight, PreTotal, LeftoverChanges, Met, EntrySide;
    if i == 0 {
      NothingLeftOver(pre, post, w);
    } else {
      LeftoverWeight(pre, post, i - 1, w);
      LeftoverNext(pre, post, i - 1, w);
      MetWeightLast(pre, post, i - 1, w);
      PreTotalNext(pre, post, i - 1, w);
    }
  }

  lemma NothingLeftOver(pre: seq<Entry>, post: seq<Entry>, w: Scale)
    ensures LeftoverChanges(pre, post, 0) == []
    ensures PreWeight([], w) == MetWeight(pre, post, 0, |post|, w) == PreTotal(pre, post, 0, w) == 0
  {
    hide Met;
  }

  lemma LeftoverNext(pre: seq<Entry>, post: seq<Entry>, i: nat, w: Scale)
    requires i < |pre|
    ensures PreWeight(LeftoverChanges(pre, post, i + 1), w)
         == PreWeight(LeftoverChanges(pre, post, i), w)
            + if Met(pre, post, i, |post|) then 0 else w(EntrySide(pre, post, i))
  {
    hide PreWeight, Met;
    if Met(pre, post, i, |post|) {
      assert LeftoverChanges(pre, post, i) + [] == LeftoverChanges(pre, post, i);
    } else {
      PreWeightAppend(LeftoverChanges(pre, post, i), [PreOnly(pre[i])], w);
      PreWeightOne(PreOnly(pre[i]), w);
      UnmetAlone(pre, post, i);
    }
  }

  lemma MetWeightLast(pre: seq<Entry>, post: seq<Entry>, i: nat, w: Scale)
    requires i < |pre|
    ensures MetWeight(pre, post, i + 1, |post|, w)
         == MetWeight(pre, post, i, |post|, w)
            + if Met(pre, post, i, |post|) then w(EntrySide(pre, post, i)) else 0
  {
    hide Met;
  }

  lemma PreTotalNext(pre: seq<Entry>, post: seq<Entry>, i: nat, w: Scale)
    requires i < |pre|
    ensures PreTotal(pre, post, i + 1, w) == PreTotal(pre, post, i, w) + w(EntrySide(pre, post, i))
  {
  }

  /** Whatever is weighed, the pre sides of the output weigh what the pre entries weigh. */
  lemma {:induction false} PreSidesWeigh(pre: seq<Entry>, post: seq<Entry>, w: Scale)
    ensures PreWeight(Paired(pre, post), w) == PreTotal(pre, post, |pre|, w)
  {
    PostChangesWeight(pre, post, |post|, w);
    LeftoverWeight(pre, post, |pre|, w);
    PreWeightAppend(PostChanges(pre, post, |post|), LeftoverChanges(pre, post, |pre|), w);
  }

  // The pre sides, in output order.
  function PreSides(cs: seq<Change>): seq<Side> {
    if cs == [] then []
    else
      var c := cs[|cs| - 1];
      PreSides(cs[..|cs| - 1]) + if c.preRaw.Some? then [SideOf(c)] else []
  }

  ghost function EntrySides(pre: seq<Entry>, post: seq<Entry>, n: nat): seq<Side>
    requires n <= |pre|
  {
    if n == 0 then [] else EntrySides(pre, post, n - 1) + [EntrySide(pre, post, n - 1)]
  }

  function Is(side: Side): Scale {
    (s: Side) => if s == side then 1 else 0
  }

  lemma {:induction false} SidesCount(cs: seq<Change>, side: Side)
    ensures PreWeight(cs, Is(side)) == multiset(PreSides(cs))[side]
    decreases |cs|
  {
    if cs != [] {
      SidesCount(cs[..|cs| - 1], side);
    }
  }

  lemma {:induction false} EntriesCount(pre: seq<Entry>, post: seq<Entry>, n: nat, side: Side)
    requires n <= |pre|
    ensures PreTotal(pre, post, n, Is(side)) == multiset(EntrySides(pre, post, n))[side]
  {
    hide EntrySide;
    if n > 0 {
      EntriesCount(pre, post, n - 1, side);
    }
  }

  /** The pre sides of the output are the pre entries, each once, with any duplicate indices: one that met its own
      account is joined to that post entry, and any other stands alone with its owner, mint, program, amount and
      decimals unchanged. */
  lemma {:induction false} PreSidesConserved(pre: seq<Entry>, post: seq<Entry>)
    ensures multiset(PreSides(Paired(pre, post))) == multiset(EntrySides(pre, post, |pre|))
  {
    forall side: Side
      ensures multiset(PreSides(Paired(pre, post)))[side] == multiset(EntrySides(pre, post, |pre|))[side]
    {
      PreSidesWeigh(pre, post, Is(side));
      SidesCount(Paired(pre, post), side);
      EntriesCount(pre, post, |pre|, side);
    }
  }

  // A weight that does not look at how the side stands.
  function Lift(w: Weight): Scale {
    (s: Side) => w(Holding(s.owner, s.mint, s.raw))
  }

  lemma {:induction false} LiftedTotal(pre: seq<Entry>, post: seq<Entry>, n: nat, w: Weight)
    requires n <= |pre|
    ensures PreTotal(pre, post, n, Lift(w)) == EntryWeight(pre[..n], w)
  {
    if n > 0 {
      LiftedTotal(pre, post, n - 1, w);
      assert pre[..n][..n - 1] == pre[..n - 1];
    }
  }

  // The post sides, in output order.
  function PostSides(cs: seq<Change>): seq<Entry> {
    if cs == [] then []
    else
      var c := cs[|cs| - 1];
      PostSides(cs[..|cs| - 1])
      + if c.postRaw.Some? then [Entry(0, c.program, c.owner, c.mint, c.postRaw.value, c.decimals)] else []
  }

  function WithoutIndex(s: seq<Entry>): seq<Entry> {
    if s == [] then [] else WithoutIndex(s[..|s| - 1]) + [s[|s| - 1].(accountIndex := 0)]
  }

  lemma {:induction false} PostSidesAppend(a: seq<Change>, b: seq<Change>)
    ensures PostSides(a + b) == PostSides(a) + PostSides(b)
    decreases |b|
  {
    if b == [] {
      assert a + b == a;
    } else {
      assert (a + b)[..|a + b| - 1] == a + b[..|b| - 1];
      PostSidesAppend(a, b[..|b| - 1]);
    }
  }

  lemma ChangesForPost(pre: seq<Entry>, post: seq<Entry>, j: nat)
    requires j < |post|
    ensures PostSides(ChangesFor(pre, post, j)) == [post[j].(accountIndex := 0)]
  {
    var partner := Partner(pre, post, j);
    PostSidesOne(PostOnly(post[j]));
    if partner.Some? {
      var q, p := pre[partner.value], post[j];
      PostSidesOne(TwoSided(q, p));
      PostSidesOne(PreOnly(q));
      PostSidesAppend([PreOnly(q)], [PostOnly(p)]);
      assert [PreOnly(q), PostOnly(p)] == [PreOnly(q)] + [PostOnly(p)];
    }
  }

  lemma PostSidesOne(c: Change)
    ensures PostSides([c])
         == if c.postRaw.Some? then [Entry(0, c.program, c.owner, c.mint, c.postRaw.value, c.decimals)] else []
  {
    assert [c][..0] == [];
  }

  lemma {:induction false} PostChangesPost(pre: seq<Entry>, post: seq<Entry>, j: nat)
    requires j <= |post|
    ensures PostSides(PostChanges(pre, post, j)) == WithoutIndex(post[..j])
  {
    hide ChangesFor, PostSides, WithoutIndex, PostChanges;
    if j > 0 {
      PostChangesPost(pre, post, j - 1);
      PostChangesPostStep(pre, post, j - 1);
    } else {
      NoPostSides(pre, post);
    }
  }

  lemma NoPostSides(pre: seq<Entry>, post: seq<Entry>)
    ensures PostSides(PostChanges(pre, post, 0)) == WithoutIndex(post[..0]) == []
  {
  }

  lemma PostChangesPostStep(pre: seq<Entry>, post: seq<Entry>, j: nat)
    requires j < |post| && PostSides(PostChanges(pre, post, j)) == WithoutIndex(post[..j])
    ensures PostSides(PostChanges(pre, post, j + 1)) == WithoutIndex(post[..j + 1])
  {
    hide ChangesFor, PostSides;
    assert post[..j + 1][..j] == post[..j];
    ChangesForPost(pre, post, j);
    PostSidesAppend(PostChanges(pre, post, j), ChangesFor(pre, post, j));
  }

  lemma {:induction false} LeftoverPost(pre: seq<Entry>, post: seq<Entry>, i: nat)
    requires i <= |pre|
    ensures PostSides(LeftoverChanges(pre, post, i)) == []
  {
    if i > 0 {
      LeftoverPost(pre, post, i - 1);
      var c: seq<Change> := if Met(pre, post, i - 1, |post|) then [] else [PreOnly(pre[i - 1])];
      assert c != [] ==> c[..0] == [];
      PostSidesAppend(LeftoverChanges(pre, post, i - 1), c);
    }
  }

  /** The post sides of the output are the post entries, each once, in arrival order. */
  lemma {:induction false} PostSidesInOrder(pre: seq<Entry>, post: seq<Entry>)
    ensures PostSides(Paired(pre, post)) == WithoutIndex(post)
  {
    PostChangesPost(pre, post, |post|);
    LeftoverPost(pre, post, |pre|);
    PostSidesAppend(PostChanges(pre, post, |post|), LeftoverChanges(pre, post, |pre|));
    assert post[..|post|] == post;
  }

  // ---- Totals -------------------------------------------------------------

  // The summed delta of the changes a holder filter selects.
  function DeltaSum(cs: seq<Change>, who: (Pubkey, Pubkey) -> bool): int {
    if cs == [] then 0
    else DeltaSum(cs[..|cs| - 1], who)
         + if who(cs[|cs| - 1].owner, cs[|cs| - 1].mint) then DeltaRaw(cs[|cs| - 1]) else 0
  }

  function RawOf(who: (Pubkey, Pubkey) -> bool): Weight {
    (h: Holding) => if who(h.owner, h.mint) then h.raw else 0
  }

  lemma {:induction false} DeltaSplits(cs: seq<Change>, who: (Pubkey, Pubkey) -> bool)
    ensures DeltaSum(cs, who) == EntryWeight(PostSides(cs), RawOf(who)) - PreWeight(cs, Lift(RawOf(who)))
    decreases |cs|
  {
    if cs != [] {
      DeltaSplits(cs[..|cs| - 1], who);
      DeltaOfLast(cs[..|cs| - 1], cs[|cs| - 1], who);
      assert cs == cs[..|cs| - 1] + [cs[|cs| - 1]];
    }
  }

  lemma DeltaOfLast(cs: seq<Change>, c: Change, who: (Pubkey, Pubkey) -> bool)
    ensures DeltaSum(cs + [c], who) == DeltaSum(cs, who) + if who(c.owner, c.mint) then DeltaRaw(c) else 0
    ensures EntryWeight(PostSides(cs + [c]), RawOf(who)) - PreWeight(cs + [c], Lift(RawOf(who)))
         == EntryWeight(PostSides(cs), RawOf(who)) - PreWeight(cs, Lift(RawOf(who)))
             + if who(c.owner, c.mint) then DeltaRaw(c) else 0
  {
    assert (cs + [c])[..|cs|] == cs;
    PreWeightAppend(cs, [c], Lift(RawOf(who)));
    PreWeightOne(c, Lift(RawOf(who)));
    PostSidesAppend(cs, [c]);
    PostSidesOne(c);
    EntryWeightAppend(PostSides(cs), PostSides([c]), RawOf(who));
    if c.postRaw.Some? {
      EntryWeightOne(PostSides([c])[0], RawOf(who));
    }
  }

  lemma EntryWeightOne(e: Entry, w: Weight)
    ensures EntryWeight([e], w) == w(Holding(e.owner, e.mint, e.raw))
  {
    assert [e][..0] == [];
  }

  lemma {:induction false} EntryWeightAppend(a: seq<Entry>, b: seq<Entry>, w: Weight)
    ensures EntryWeight(a + b, w) == EntryWeight(a, w) + EntryWeight(b, w)
    decreases |b|
  {
    if b == [] {
      assert a + b == a;
    } else {
      assert (a + b)[..|a + b| - 1] == a + b[..|b| - 1];
      EntryWeightAppend(a, b[..|b| - 1], w);
    }
  }

  lemma {:induction false} IndexWeighsNothing(s: seq<Entry>, w: Weight)
    ensures EntryWeight(WithoutIndex(s), w) == EntryWeight(s, w)
    decreases |s|
  {
    if s != [] {
      IndexWeighsNothing(s[..|s| - 1], w);
      assert WithoutIndex(s)[..|WithoutIndex(s)| - 1] == WithoutIndex(s[..|s| - 1]);
    }
  }

  /** For any choice of holders, one owner and mint or all of them: the summed deltas are exactly the post total
      less the pre total. */
  lemma {:induction false} DeltasConserve(pre: seq<Entry>, post: seq<Entry>, who: (Pubkey, Pubkey) -> bool)
    ensures DeltaSum(Paired(pre, post), who) == EntryWeight(post, RawOf(who)) - EntryWeight(pre, RawOf(who))
  {
    DeltaSplits(Paired(pre, post), who);
    PostSidesInOrder(pre, post);
    IndexWeighsNothing(post, RawOf(who));
    PreSidesWeigh(pre, post, Lift(RawOf(who)));
    LiftedTotal(pre, post, |pre|, RawOf(who));
    assert pre[..|pre|] == pre;
  }

  /** A two-sided change joins one pre and one post entry of the same index, owner and mint. */
  lemma {:induction false} TwoSidedAgree(pre: seq<Entry>, post: seq<Entry>, c: Change)
    requires c in Paired(pre, post) && c.preRaw.Some? && c.postRaw.Some?
    ensures exists i, j :: 0 <= i < |pre| && 0 <= j < |post| && Meets(pre, post, i, j)
                           && pre[i].owner == post[j].owner == c.owner && pre[i].mint == post[j].mint == c.mint
                           && c == TwoSided(pre[i], post[j])
  {
    if c in LeftoverChanges(pre, post, |pre|) {
      LeftoversOneSided(pre, post, |pre|, c);
    }
    TwoSidedFrom(pre, post, |post|, c);
  }

  lemma {:induction false} LeftoversOneSided(pre: seq<Entry>, post: seq<Entry>, i: nat, c: Change)
    requires i <= |pre| && c in LeftoverChanges(pre, post, i)
    ensures c.postRaw.None?
  {
    if c in LeftoverChanges(pre, post, i - 1) {
      LeftoversOneSided(pre, post, i - 1, c);
    }
  }

  lemma {:induction false} TwoSidedFrom(pre: seq<Entry>, post: seq<Entry>, j: nat, c: Change)
    requires j <= |post| && c in PostChanges(pre, post, j) && c.preRaw.Some? && c.postRaw.Some?
    ensures exists i, j' :: 0 <= i < |pre| && 0 <= j' < |post| && Meets(pre, post, i, j')
                            && pre[i].owner == post[j'].owner == c.owner && pre[i].mint == post[j'].mint == c.mint
                            && c == TwoSided(pre[i], post[j'])
  {
    if c in PostChanges(pre, post, j - 1) {
      TwoSidedFrom(pre, post, j - 1, c);
    } else {
      assert c in ChangesFor(pre, post, j - 1);
      var i := Partner(pre, post, j - 1).value;
      assert Meets(pre, post, i, j - 1);
    }
  }
}
