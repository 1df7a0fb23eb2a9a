/** What the account parser and builder promise each other, over every layout. */
module AccountRoundTrip {
  import opened Wrappers
  import opened Logs
  import opened AccountLayout
  import opened Filters

  // An optional account holding the program's own id cannot be told from an absent one.
  ghost predicate NoSentinel(l: Layout, v: Accounts) {
    forall i :: 0 <= i < |v.declared| ==> v.declared[i] != Maybe(Some(l.programId))
  }

  // Every present resolved account is at its derived address; no absent one's address is among what follows.
  ghost predicate Derived(derivations: seq<Resolved>, declared: seq<FieldValue>, earlier: seq<Conditional>,
                          resolved: seq<Conditional>, rest: seq<Pubkey>)
    requires |derivations| == |resolved|
    decreases |derivations|
  {
    derivations == [] ||
    var want := derivations[0].derive(declared, earlier);
    && (if resolved[0].Present? then resolved[0].key == want else want !in Presents(resolved[1..]) + rest)
    && Derived(derivations[1..], declared, earlier + [resolved[0]], resolved[1..], rest)
  }

  // ---- Pieces -------------------------------------------------------------

  lemma DeclaredRoundTrip(l: Layout, v: Accounts, more: seq<Pubkey>)
    requires WellTyped(l, v)
    ensures ReadDeclared(l, WriteDeclared(l.programId, v.declared) + more) == v.declared <==> NoSentinel(l, v)
  {
    var keys := WriteDeclared(l.programId, v.declared) + more;
    var read := ReadDeclared(l, keys);
    forall i | 0 <= i < |l.declared|
      ensures read[i] == v.declared[i] <==> v.declared[i] != Maybe(Some(l.programId))
    {
      assert keys[i] == WriteField(l.programId, v.declared[i]);
    }
  }

  lemma DeclaredRereads(l: Layout, keys: seq<Pubkey>)
    requires |l.declared| <= |keys|
    ensures WriteDeclared(l.programId, ReadDeclared(l, keys)) == keys[..|l.declared|]
    ensures forall i :: 0 <= i < |l.declared| ==> ReadDeclared(l, keys)[i] != Maybe(Some(l.programId))
  {
  }

  ghost predicate PrefixOnly(cs: seq<Conditional>) {
    forall e, n :: 0 <= e < n < |cs| && cs[n].Present? ==> cs[e].Present?
  }

  ghost predicate AllPresent(cs: seq<Conditional>) {
    forall e :: 0 <= e < |cs| ==> cs[e].Present?
  }

  // Taking back what was emitted gives the conditionals exactly when they are a prefix in front of the rest.
  lemma {:induction false} TakePresents(cs: seq<Conditional>, rest: seq<Pubkey>)
    ensures (Take(|cs|, Presents(cs) + rest) == cs && Drop(|cs|, Presents(cs) + rest) == rest)
       <==> PrefixOnly(cs) && (rest != [] ==> AllPresent(cs))
    decreases |cs|
  {
    if cs == [] {
      assert Drop(0, Presents(cs) + rest) == rest;
    } else if cs[0].Present? {
      TakePresents(cs[1..], rest);
      PresentHead(cs, rest);
      PrefixTail(cs);
    } else {
      AbsentFirst(cs, rest);
    }
  }

  lemma PresentHead(cs: seq<Conditional>, rest: seq<Pubkey>)
    requires cs != [] && cs[0].Present?
    ensures Take(|cs|, Presents(cs) + rest) == cs <==> Take(|cs| - 1, Presents(cs[1..]) + rest) == cs[1..]
    ensures Drop(|cs|, Presents(cs) + rest) == Drop(|cs| - 1, Presents(cs[1..]) + rest)
  {
    hide Take, Drop, Presents;
    var tail1 := Presents(cs[1..]) + rest;
    PresentsHead(cs);
    assert [cs[0].key] + Presents(cs[1..]) + rest == [cs[0].key] + tail1;
    TakeCons(|cs| - 1, cs[0].key, tail1);
    assert cs[0] == Present(cs[0].key);
    SameTail(cs, Take(|cs| - 1, tail1));
  }

  lemma PresentsHead(cs: seq<Conditional>)
    requires cs != [] && cs[0].Present?
    ensures Presents(cs) == [cs[0].key] + Presents(cs[1..])
  {
  }

  lemma SameTail(cs: seq<Conditional>, t: seq<Conditional>)
    requires cs != []
    ensures [cs[0]] + t == cs <==> t == cs[1..]
  {
    assert ([cs[0]] + t)[1..] == t;
    assert cs == [cs[0]] + cs[1..];
  }

  // A present head changes neither question about the tail.
  lemma PrefixTail(cs: seq<Conditional>)
    requires cs != [] && cs[0].Present?
    ensures PrefixOnly(cs) <==> PrefixOnly(cs[1..])
    ensures AllPresent(cs) <==> AllPresent(cs[1..])
  {
    assert forall e :: 1 <= e < |cs| ==> cs[e] == cs[1..][e - 1];
    if PrefixOnly(cs) {
      forall e, n | 0 <= e < n < |cs[1..]| && cs[1..][n].Present?
        ensures cs[1..][e].Present?
      {
        assert cs[n + 1].Present?;
      }
    }
    if PrefixOnly(cs[1..]) {
      forall e, n | 0 <= e < n < |cs| && cs[n].Present?
        ensures cs[e].Present?
      {
        if 0 < e {
          assert cs[1..][n - 1].Present?;
        }
      }
    }
  }

  lemma TakeCons(n: nat, key: Pubkey, tail: seq<Pubkey>)
    ensures Take(n + 1, [key] + tail) == [Present(key)] + Take(n, tail)
    ensures Drop(n + 1, [key] + tail) == Drop(n, tail)
  {
    if n <= |tail| {
      assert ([key] + tail)[n + 1..] == tail[n..];
    }
  }

  lemma {:induction false} AbsentFirst(cs: seq<Conditional>, rest: seq<Pubkey>)
    requires cs != [] && cs[0].Absent?
    ensures (Take(|cs|, Presents(cs) + rest) == cs && Drop(|cs|, Presents(cs) + rest) == rest)
       <==> PrefixOnly(cs) && (rest != [] ==> AllPresent(cs))
  {
    var tail := Presents(cs) + rest;
    if tail == [] {
      NothingPresent(cs);
      assert Take(|cs|, tail) == cs;
    } else {
      assert Take(|cs|, tail)[0] == Present(tail[0]);
      if PrefixOnly(cs) && rest == [] {
        SomethingPresent(cs);
      }
    }
  }

  lemma {:induction false} NothingPresent(cs: seq<Conditional>)
    requires Presents(cs) == []
    ensures forall e :: 0 <= e < |cs| ==> cs[e].Absent?
    decreases |cs|
  {
    if cs != [] {
      NothingPresent(cs[1..]);
      assert forall e :: 1 <= e < |cs| ==> cs[e] == cs[1..][e - 1];
    }
  }

  lemma {:induction false} SomethingPresent(cs: seq<Conditional>)
    requires Presents(cs) != []
    ensures exists e :: 0 <= e < |cs| && cs[e].Present?
    decreases |cs|
  {
    if !cs[0].Present? {
      SomethingPresent(cs[1..]);
      var e :| 0 <= e < |cs[1..]| && cs[1..][e].Present?;
      assert cs[e + 1].Present?;
    }
  }

  lemma {:induction false} PresentsOfTaken(n: nat, tail: seq<Pubkey>)
    ensures Presents(Take(n, tail)) + Drop(n, tail) == tail
  {
    if n == 0 {
      assert Drop(0, tail) == tail;
    } else {
      PresentsOfTaken(n - 1, if tail == [] then [] else tail[1..]);
      TakenFirst(n, tail);
    }
  }

  lemma TakenFirst(n: nat, tail: seq<Pubkey>)
    requires n > 0
    ensures tail == [] ==> Presents(Take(n, tail)) == Presents(Take(n - 1, tail)) && Drop(n, tail) == Drop(n - 1, tail)
    ensures tail != [] ==>
              && tail == [tail[0]] + tail[1..] && Drop(n, tail) == Drop(n - 1, tail[1..])
              && Presents(Take(n, tail)) == [tail[0]] + Presents(Take(n - 1, tail[1..]))
  {
    if tail == [] {
      assert Take(n, tail)[1..] == Take(n - 1, tail);
    } else {
      assert tail == [tail[0]] + tail[1..];
      assert Take(n, tail)[1..] == Take(n - 1, tail[1..]);
    }
  }

  // ---- Resolved fields ----------------------------------------------------

  lemma RemoveMultiset(tail: seq<Pubkey>, i: nat)
    requires i < |tail|
    ensures multiset(Remove(tail, i)) == multiset(tail) - multiset{tail[i]}
    ensures multiset(tail) == multiset{tail[i]} + multiset(Remove(tail, i))
  {
    assert tail == tail[..i] + ([tail[i]] + tail[i + 1..]);
  }

  // Nothing is lost: what was found and what is left are the tail again.
  lemma {:induction false} ResolveConserves(derivations: seq<Resolved>, declared: seq<FieldValue>,
                                            earlier: seq<Conditional>, tail: seq<Pubkey>)
    ensures var r := ResolveAll(derivations, declared, earlier, tail);
            multiset(Presents(r.0)) + multiset(r.1) == multiset(tail)
    decreases |derivations|
  {
    if derivations != [] {
      var want := derivations[0].derive(declared, earlier);
      var at := FirstIndex(want, tail);
      var found, left := if at.Some? then Present(want) else Absent, if at.Some? then Remove(tail, at.value) else tail;
      ResolveConserves(derivations[1..], declared, earlier + [found], left);
      var r := ResolveAll(derivations, declared, earlier, tail);
      assert r.0[0] == found && r.0[1..] == ResolveAll(derivations[1..], declared, earlier + [found], left).0;
      if at.Some? {
        RemoveMultiset(tail, at.value);
        assert multiset(Presents(r.0)) == multiset{want} + multiset(Presents(r.0[1..]));
      } else {
        assert Presents(r.0) == Presents(r.0[1..]);
      }
    }
  }

  lemma SamePresence(key: Pubkey, a: seq<Pubkey>, b: seq<Pubkey>)
    requires multiset(a) == multiset(b)
    ensures key in a <==> key in b
  {
    assert key in a <==> key in multiset(a);
    assert key in b <==> key in multiset(b);
  }

  // The search looks at the tail as a multiset.
  lemma {:induction false} ResolvePermuted(derivations: seq<Resolved>, declared: seq<FieldValue>,
                                           earlier: seq<Conditional>,
                                           tail: seq<Pubkey>, tail': seq<Pubkey>)
    requires multiset(tail) == multiset(tail')
    ensures var r := ResolveAll(derivations, declared, earlier, tail);
            var r' := ResolveAll(derivations, declared, earlier, tail');
            r.0 == r'.0 && multiset(r.1) == multiset(r'.1)
    decreases |derivations|
  {
    if derivations != [] {
      var want := derivations[0].derive(declared, earlier);
      SamePresence(want, tail, tail');
      var at, at' := FirstIndex(want, tail), FirstIndex(want, tail');
      if at.Some? {
        RemoveMultiset(tail, at.value);
        RemoveMultiset(tail', at'.value);
        ResolvePermuted(derivations[1..], declared, earlier + [Present(want)],
                        Remove(tail, at.value), Remove(tail', at'.value));
      } else {
        ResolvePermuted(derivations[1..], declared, earlier + [Absent], tail, tail');
      }
    }
  }

  // Searching emitted accounts finds the value again exactly when it is a derived one.
  lemma {:induction false} ResolveRoundTrip(derivations: seq<Resolved>, declared: seq<FieldValue>,
                                            earlier: seq<Conditional>,
                                            resolved: seq<Conditional>, rest: seq<Pubkey>)
    requires |derivations| == |resolved|
    ensures ResolveAll(derivations, declared, earlier, Presents(resolved) + rest) == (resolved, rest)
       <==> Derived(derivations, declared, earlier, resolved, rest)
    decreases |derivations|
  {
    if derivations == [] {
      assert resolved == [] && Presents(resolved) + rest == rest;
    } else {
      ResolveRoundTrip(derivations[1..], declared, earlier + [resolved[0]], resolved[1..], rest);
      ResolveFirst(derivations, declared, earlier, resolved, rest);
    }
  }

  // The first field comes back as it was exactly when it is its own derivation; then the rest decides.
  lemma ResolveFirst(derivations: seq<Resolved>, declared: seq<FieldValue>, earlier: seq<Conditional>,
                     resolved: seq<Conditional>, rest: seq<Pubkey>)
    requires |derivations| == |resolved| && derivations != []
    ensures var want := derivations[0].derive(declared, earlier);
            var faithful :=
              if resolved[0].Present? then resolved[0].key == want else want !in Presents(resolved[1..]) + rest;
            ResolveAll(derivations, declared, earlier, Presents(resolved) + rest) == (resolved, rest)
            <==> faithful
                 && ResolveAll(derivations[1..], declared, earlier + [resolved[0]], Presents(resolved[1..]) + rest)
                             == (resolved[1..], rest)
  {
    var want := derivations[0].derive(declared, earlier);
    var tail, tail1 := Presents(resolved) + rest, Presents(resolved[1..]) + rest;
    var at := FirstIndex(want, tail);
    assert resolved == [resolved[0]] + resolved[1..];
    if resolved[0].Present? {
      assert tail == [resolved[0].key] + tail1;
      assert Remove(tail, 0) == tail1;
    } else {
      assert tail == tail1;
    }
    hide FirstIndex, Presents;
    var r1 := ResolveAll(derivations[1..], declared, earlier + [resolved[0]], tail1);
    assert ([resolved[0]] + r1.0)[1..] == r1.0;
  }

  // What a search returns is a derived value of itself.
  lemma {:induction false} ResolveIsDerived(derivations: seq<Resolved>, declared: seq<FieldValue>,
                                            earlier: seq<Conditional>, tail: seq<Pubkey>)
    ensures var r := ResolveAll(derivations, declared, earlier, tail);
            Derived(derivations, declared, earlier, r.0, r.1)
    decreases |derivations|
  {
    if derivations != [] {
      var want := derivations[0].derive(declared, earlier);
      var at := FirstIndex(want, tail);
      var found, left := if at.Some? then Present(want) else Absent, if at.Some? then Remove(tail, at.value) else tail;
      ResolveIsDerived(derivations[1..], declared, earlier + [found], left);
      ResolveConserves(derivations[1..], declared, earlier + [found], left);
      var r, r1 := ResolveAll(derivations, declared, earlier, tail),
          ResolveAll(derivations[1..], declared, earlier + [found], left);
      assert r.0[1..] == r1.0;
      if at.None? {
        SamePresence(want, Presents(r1.0) + r1.1, tail);
      }
    }
  }

  // ---- Main results -------------------------------------------------------

  /** Parsing what was built gives the value back exactly when nothing in it is ambiguous on the wire. */
  lemma {:induction false} ParseOfEmit(l: Layout, v: Accounts)
    requires Exclusive(l) && WellTyped(l, v)
    ensures Parse(l, Emit(l, v)) == Result.Ok(v)
       <==> NoSentinel(l, v) && Prefixed(v) && Derived(l.resolved, v.declared, [], v.resolved, v.rest)
  {
    hide Presents, ResolveAll, Take, Drop, ReadDeclared, NoSentinel, Prefixed, Derived;
    var keys, tail := Emit(l, v), Presents(v.conditionals) + Presents(v.resolved) + v.rest;
    EmitSplits(l, v, tail);
    assert keys[|l.declared|..] == tail;
    DeclaredRoundTrip(l, v, tail);
    TailRoundTrip(l, v, tail);
    var declared := ReadDeclared(l, keys);
    var conditionals := Take(l.conditionals, tail);
    var r := ResolveAll(l.resolved, declared, [], Drop(l.conditionals, tail));
    ClaimIs(l, v, Accounts(declared, conditionals, r.0, []), r.1, |keys|);
  }

  lemma ClaimIs(l: Layout, v: Accounts, parsed: Accounts, left: seq<Pubkey>, total: nat)
    requires WellTyped(l, v) && parsed.rest == []
    ensures Claim(l, parsed, left, total) == Result.Ok(v)
       <==> parsed.declared == v.declared && parsed.conditionals == v.conditionals && parsed.resolved == v.resolved
            && left == v.rest
  {
  }

  // Reading the tail back gives the conditionals, the resolved fields and the rest exactly when it can.
  lemma {:induction false} TailRoundTrip(l: Layout, v: Accounts, tail: seq<Pubkey>)
    requires Exclusive(l) && WellTyped(l, v) && tail == Presents(v.conditionals) + Presents(v.resolved) + v.rest
    ensures (Take(l.conditionals, tail) == v.conditionals
             && ResolveAll(l.resolved, v.declared, [], Drop(l.conditionals, tail)) == (v.resolved, v.rest))
       <==> Prefixed(v) && Derived(l.resolved, v.declared, [], v.resolved, v.rest)
  {
    if l.resolved == [] {
      assert v.resolved == [] && tail == Presents(v.conditionals) + v.rest;
      TakePresents(v.conditionals, v.rest);
    } else {
      assert v.conditionals == [] && tail == Presents(v.resolved) + v.rest;
      assert Take(0, tail) == [] && Drop(0, tail) == tail;
      ResolveRoundTrip(l.resolved, v.declared, [], v.resolved, v.rest);
    }
  }

  /** For layouts without resolved fields, the checked builder succeeds exactly on the values that parse back. */
  lemma {:induction false} PrefixIffParsesBack(l: Layout, v: Accounts)
    requires l.resolved == [] && WellTyped(l, v) && NoSentinel(l, v)
    ensures Parse(l, Emit(l, v)) == Result.Ok(v) <==> Prefixed(v)
  {
    ParseOfEmit(l, v);
  }

  /** An account list that parses is a typed value with nothing ambiguous in it. */
  lemma {:induction false} ParsedIsFaithful(l: Layout, keys: seq<Pubkey>)
    requires Exclusive(l) && Parse(l, keys).Ok?
    ensures var v := Parse(l, keys).value;
            && WellTyped(l, v) && NoSentinel(l, v) && Prefixed(v)
            && Derived(l.resolved, v.declared, [], v.resolved, v.rest)
  {
    DeclaredRereads(l, keys);
    ParsedIsPrefixed(l, keys);
    ResolveIsDerived(l.resolved, ReadDeclared(l, keys), [], Drop(l.conditionals, keys[|l.declared|..]));
  }

  /** Parse then build: a permutation that keeps the declared slots, and the very same list without resolved fields. */
  lemma {:induction false} EmitOfParse(l: Layout, keys: seq<Pubkey>)
    requires Exclusive(l) && Parse(l, keys).Ok?
    ensures var out, n := Emit(l, Parse(l, keys).value), |l.declared|;
            && |out| == |keys| && n <= |keys|
            && out[..n] == keys[..n]
            && multiset(out) == multiset(keys)
            && (l.resolved == [] ==> out == keys)
  {
    var v, head, tail := Parse(l, keys).value, keys[..|l.declared|], keys[|l.declared|..];
    assert v.declared == ReadDeclared(l, keys);
    hide Parse, Presents, Emit, ReadDeclared;
    var emitted := EmittedTail(l, keys);
    AfterHead(head, emitted, tail);
    assert keys == head + tail;
    EmitSplits(l, v, emitted);
    DeclaredRereads(l, keys);
    assert WriteDeclared(l.programId, v.declared) == head;
  }

  lemma EmitSplits(l: Layout, v: Accounts, emitted: seq<Pubkey>)
    requires emitted == Presents(v.conditionals) + Presents(v.resolved) + v.rest
    ensures Emit(l, v) == WriteDeclared(l.programId, v.declared) + emitted
  {
  }

  lemma AfterHead<T>(head: seq<T>, a: seq<T>, b: seq<T>)
    requires multiset(a) == multiset(b)
    ensures multiset(head + a) == multiset(head + b) && |head + a| == |head + b|
    ensures (head + a)[..|head|] == head
  {
    SameLength(a, b);
  }

  lemma {:induction false} ParsedIsPrefixed(l: Layout, keys: seq<Pubkey>)
    requires Exclusive(l) && Parse(l, keys).Ok?
    ensures Prefixed(Parse(l, keys).value)
  {
    var tail := keys[|l.declared|..];
    if l.resolved == [] {
      assert Parse(l, keys).value.rest != [] ==> l.conditionals < |tail|;
    }
  }

  lemma ParsedTail(l: Layout, keys: seq<Pubkey>)
    requires Exclusive(l) && Parse(l, keys).Ok?
    ensures var v, tail := Parse(l, keys).value, keys[|l.declared|..];
            && v.conditionals == Take(l.conditionals, tail)
            && (v.resolved, v.rest) == ResolveAll(l.resolved, v.declared, [], Drop(l.conditionals, tail))
            && (l.resolved == [] ==> Presents(v.resolved) == [] && v.rest == Drop(l.conditionals, tail))
  {
  }

  lemma CatMultisets<T>(a: seq<T>, b: seq<T>, c: seq<T>, past: seq<T>)
    requires multiset(b) + multiset(c) == multiset(past)
    ensures multiset(a + b + c) == multiset(a + past)
    ensures b == [] && c == past ==> a + b + c == a + past
  {
    assert a + b + c == a + (b + c);
  }

  // Everything built past the declared slots, against everything parsed past them.
  lemma {:induction false} EmittedTail(l: Layout, keys: seq<Pubkey>) returns (emitted: seq<Pubkey>)
    requires Exclusive(l) && Parse(l, keys).Ok?
    ensures var v := Parse(l, keys).value;
            emitted == Presents(v.conditionals) + Presents(v.resolved) + v.rest
    ensures multiset(emitted) == multiset(keys[|l.declared|..])
    ensures l.resolved == [] ==> emitted == keys[|l.declared|..]
  {
    ParsedTail(l, keys);
    var v, tail := Parse(l, keys).value, keys[|l.declared|..];
    hide Parse, Presents, ResolveAll, Take, Drop;
    var past := Drop(l.conditionals, tail);
    PresentsOfTaken(l.conditionals, tail);
    ResolveConserves(l.resolved, v.declared, [], past);
    CatMultisets(Presents(v.conditionals), Presents(v.resolved), v.rest, past);
    emitted := Presents(v.conditionals) + Presents(v.resolved) + v.rest;
  }

  lemma SameLength<T>(a: seq<T>, b: seq<T>)
    requires multiset(a) == multiset(b)
    ensures |a| == |b|
  {
    assert |multiset(a)| == |a| && |multiset(b)| == |b|;
  }

  /** Building and parsing again changes nothing: a parsed value is a normal form. */
  lemma {:induction false} ParseEmitParse(l: Layout, keys: seq<Pubkey>)
    requires Exclusive(l) && Parse(l, keys).Ok?
    ensures Parse(l, Emit(l, Parse(l, keys).value)) == Parse(l, keys)
  {
    ParsedIsFaithful(l, keys);
    ParseOfEmit(l, Parse(l, keys).value);
  }

  /** With no conditionals, the order of the accounts past the declared list carries no meaning. */
  lemma {:induction false} TailOrderIrrelevant(l: Layout, keys: seq<Pubkey>, keys': seq<Pubkey>)
    requires l.conditionals == 0
    requires |l.declared| <= |keys| && |l.declared| <= |keys'|
    requires keys[..|l.declared|] == keys'[..|l.declared|]
    requires multiset(keys[|l.declared|..]) == multiset(keys'[|l.declared|..])
    ensures match (Parse(l, keys), Parse(l, keys'))
            case (Ok(v), Ok(v')) =>
              v.declared == v'.declared && v.resolved == v'.resolved && multiset(v.rest) == multiset(v'.rest)
            case (Err(e), Err(e')) =>
              e.UnmodelledAccounts? && e'.UnmodelledAccounts? && e.modelled == e'.modelled && e.actual == e'.actual
            case _ => false
  {
    var n := |l.declared|;
    var tail, tail' := keys[n..], keys'[n..];
    assert forall i :: 0 <= i < n ==> keys[i] == keys[..n][i] && keys'[i] == keys'[..n][i];
    assert ReadDeclared(l, keys) == ReadDeclared(l, keys');
    assert Drop(0, tail) == tail && Drop(0, tail') == tail';
    SameLength(tail, tail');
    var declared := ReadDeclared(l, keys);
    ResolvePermuted(l.resolved, declared, [], tail, tail');
    SameLength(ResolveAll(l.resolved, declared, [], tail).1, ResolveAll(l.resolved, declared, [], tail').1);
  }

  /** Exactly which account counts a layout without resolved fields accepts. */
  lemma {:induction false} AcceptedCounts(l: Layout, keys: seq<Pubkey>)
    requires l.resolved == []
    ensures Parse(l, keys).Ok? <==>
            |l.declared| <= |keys| && (l.hasRest || |keys| <= |l.declared| + l.conditionals)
    ensures Parse(l, keys).Err? && |l.declared| <= |keys| ==>
            Parse(l, keys).error
            == UnmodelledAccounts(|l.declared| + l.conditionals, |keys|, keys[|l.declared| + l.conditionals])
  {
  }

  /** What a refusal reports, with or without resolved fields: too few accounts for the declared slots; or more than
      anything claimed, how many were claimed, how many came, and the first that nobody did. */
  lemma {:induction false} RefusalsReport(l: Layout, keys: seq<Pubkey>)
    ensures Parse(l, keys) == Err(NotEnoughAccounts(|l.declared|, |keys|)) <==> |keys| < |l.declared|
    ensures |l.declared| <= |keys| ==>
              var tail := Drop(l.conditionals, keys[|l.declared|..]);
              var (resolved, left) := ResolveAll(l.resolved, ReadDeclared(l, keys), [], tail);
              var conditionals := Take(l.conditionals, keys[|l.declared|..]);
              var claimed := |l.declared| + |Presents(conditionals)| + |Presents(resolved)|;
              && claimed + |left| == |keys|
              && (Parse(l, keys).Err? <==> !l.hasRest && claimed < |keys|)
              && (Parse(l, keys).Err? ==> Parse(l, keys) == Err(UnmodelledAccounts(claimed, |keys|, left[0])))
  {
    if |l.declared| <= |keys| {
      var past := keys[|l.declared|..];
      var tail := Drop(l.conditionals, past);
      ResolveConserves(l.resolved, ReadDeclared(l, keys), [], tail);
      var (resolved, left) := ResolveAll(l.resolved, ReadDeclared(l, keys), [], tail);
      SameLength(Presents(resolved) + left, tail);
      TakenCount(l.conditionals, past);
    }
  }

  lemma {:induction false} TakenCount(n: nat, tail: seq<Pubkey>)
    ensures |Presents(Take(n, tail))| + |Drop(n, tail)| == |tail|
  {
    PresentsOfTaken(n, tail);
  }

  // A list that is another with some positions left out, and nothing moved.
  ghost predicate Thinned(s: seq<Pubkey>, ps: seq<nat>, out: seq<Pubkey>) {
    Rising(ps) && |out| == |ps| && forall q :: 0 <= q < |ps| ==> ps[q] < |s| && out[q] == s[ps[q]]
  }

  // Thinned twice is thinned.
  lemma ThinnedTwice(s: seq<Pubkey>, ps: seq<nat>, middle: seq<Pubkey>, qs: seq<nat>, out: seq<Pubkey>)
    returns (rs: seq<nat>)
    requires Thinned(s, ps, middle) && Thinned(middle, qs, out)
    ensures Thinned(s, rs, out)
  {
    rs := seq(|qs|, q requires 0 <= q < |qs| => ps[qs[q]]);
  }

  lemma RemoveThins(tail: seq<Pubkey>, i: nat) returns (ps: seq<nat>)
    requires i < |tail|
    ensures Thinned(tail, ps, Remove(tail, i))
  {
    hide Remove;
    ps := seq(|tail| - 1, j => if j < i then j else j + 1);
  }

  lemma {:induction false} ResolveThins(derivations: seq<Resolved>, declared: seq<FieldValue>,
                                        earlier: seq<Conditional>, tail: seq<Pubkey>) returns (ps: seq<nat>)
    ensures Thinned(tail, ps, ResolveAll(derivations, declared, earlier, tail).1)
    decreases |derivations|
  {
    hide Remove, Thinned;
    if derivations == [] {
      ps := AllOf(tail);
    } else {
      var want := derivations[0].derive(declared, earlier);
      match FirstIndex(want, tail)
      case Some(i) =>
        var left := Remove(tail, i);
        var rs := ResolveThins(derivations[1..], declared, earlier + [Present(want)], left);
        var qs := RemoveThins(tail, i);
        ps := ThinnedTwice(tail, qs, left, rs, ResolveAll(derivations, declared, earlier, tail).1);
      case None =>
        ps := ResolveThins(derivations[1..], declared, earlier + [Absent], tail);
    }
  }

  lemma AllOf(s: seq<Pubkey>) returns (ps: seq<nat>)
    ensures Thinned(s, ps, s)
  {
    ps := seq(|s|, q => q);
  }

  /** The rest is, in the order they came, what is left of the accounts past the declared slots. */
  lemma {:induction false} RestInOrder(l: Layout, keys: seq<Pubkey>) returns (ps: seq<nat>)
    requires Parse(l, keys).Ok? && l.hasRest
    ensures |l.declared| <= |keys| && Thinned(Drop(l.conditionals, keys[|l.declared|..]), ps, Parse(l, keys).value.rest)
  {
    ps := ResolveThins(l.resolved, ReadDeclared(l, keys), [], Drop(l.conditionals, keys[|l.declared|..]));
  }
}
