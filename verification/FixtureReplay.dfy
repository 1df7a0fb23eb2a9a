/** Replaying a captured transaction: programs are re-indexed, then the real walk runs. */
module FixtureReplay {
  import opened Wrappers
  import opened Logs
  import opened LogWalk
  import opened Attribution
  import opened Filters

  // program is what the base58 text parsed to, if it parsed.
  datatype FixtureInstruction = FixtureInstruction(program: Option<Pubkey>, stackHeight: nat)

  // BadProgram names the offending instruction.
  datatype FixtureError = BadProgram(at: nat) | TooManyPrograms

  function Programs(ixs: seq<FixtureInstruction>): set<Pubkey> {
    set i | 0 <= i < |ixs| && ixs[i].program.Some? :: ixs[i].program.value
  }

  predicate AllParse(ixs: seq<FixtureInstruction>) {
    forall i :: 0 <= i < |ixs| ==> ixs[i].program.Some?
  }

  method Position(keys: seq<Pubkey>, key: Pubkey) returns (r: Option<nat>)
    ensures r.Some? ==> r.value < |keys| && keys[r.value] == key
    ensures r.None? ==> key !in keys
  {
    for i := 0 to |keys|
      invariant key !in keys[..i]
    {
      if keys[i] == key {
        return Some(i);
      }
    }
    assert keys[..|keys|] == keys;
    return None;
  }

  lemma ProgramsGrow(ixs: seq<FixtureInstruction>, i: nat)
    requires i < |ixs| && ixs[i].program.Some?
    ensures Programs(ixs[..i + 1]) == Programs(ixs[..i]) + {ixs[i].program.value}
  {
    assert ixs[..i + 1] == ixs[..i] + [ixs[i]];
    var a, b := ixs[..i + 1], ixs[..i];
    assert forall j :: 0 <= j < i ==> a[j] == b[j];
    forall p | p in Programs(b)
      ensures p in Programs(a)
    {
      var j :| 0 <= j < |b| && b[j].program.Some? && b[j].program.value == p;
      assert a[j] == b[j];
    }
    assert a[i] == ixs[i];
  }

  lemma ProgramsMonotone(ixs: seq<FixtureInstruction>, i: nat)
    requires i <= |ixs|
    ensures Programs(ixs[..i]) <= Programs(ixs) && |Programs(ixs[..i])| <= |Programs(ixs)|
  {
    forall p | p in Programs(ixs[..i])
      ensures p in Programs(ixs)
    {
      var j :| 0 <= j < i && ixs[..i][j].program.Some? && ixs[..i][j].program.value == p;
      assert ixs[j] == ixs[..i][j];
    }
    SubsetSize(Programs(ixs[..i]), Programs(ixs));
  }

  lemma SubsetSize<T>(a: set<T>, b: set<T>)
    requires a <= b
    ensures |a| <= |b|
  {
    assert b == a + (b - a);
  }

  /** Every index addresses its own program; refused exactly when a program does not parse or a 257th
      distinct program is met first. */
  method Reindex(ixs: seq<FixtureInstruction>) returns (r: Result<(seq<Pubkey>, seq<nat>), FixtureError>)
    ensures r.Ok? <==> AllParse(ixs) && |Programs(ixs)| <= 256
    ensures r.Ok? ==> |r.value.1| == |ixs|
    ensures r.Ok? ==> forall i :: 0 <= i < |ixs| ==>
              r.value.1[i] < 256 && r.value.1[i] < |r.value.0| && Some(r.value.0[r.value.1[i]]) == ixs[i].program
    ensures r.Err? && r.error.BadProgram? ==>
              r.error.at < |ixs| && ixs[r.error.at].program.None?
              && AllParse(ixs[..r.error.at]) && |Programs(ixs[..r.error.at])| <= 256
    ensures r.Err? && r.error.TooManyPrograms? ==>
              exists n: nat :: n <= |ixs| && AllParse(ixs[..n]) && |Programs(ixs[..n])| > 256
  {
    hide Programs, AllParse, Indexed;
    var keys: seq<Pubkey> := [];
    var indices: seq<nat> := [];
    NothingIndexed(ixs);
    for i := 0 to |ixs|
      invariant Indexed(ixs, i, keys, indices)
      invariant |keys| <= 256
    {
      IndexedSize(ixs, i, keys, indices);
      if ixs[i].program.None? {
        return Err(BadProgram(i));
      }
      var program := ixs[i].program.value;
      var found := Position(keys, program);
      var idx, keys' := 0, keys;
      if found.Some? {
        idx := found.value;
      } else {
        keys' := keys + [program];
        idx := |keys|;
      }
      IndexNext(ixs, i, keys, indices, keys', idx);
      IndexedSize(ixs, i + 1, keys', indices + [idx]);
      if idx > 255 {
        ProgramsMonotone(ixs, i + 1);
        return Err(TooManyPrograms);
      }
      keys, indices := keys', indices + [idx];
    }
    IndexedSize(ixs, |ixs|, keys, indices);
    assert ixs[..|ixs|] == ixs;
    return Result.Ok((keys, indices));
  }

  // The first i instructions are indexed: keys lists their distinct programs, each once.
  ghost predicate Indexed(ixs: seq<FixtureInstruction>, i: nat, keys: seq<Pubkey>, indices: seq<nat>) {
    && i <= |ixs| && |indices| == i && AllParse(ixs[..i])
    && (forall k :: k in keys <==> k in Programs(ixs[..i]))
    && |keys| == |Programs(ixs[..i])|
    && (forall j :: 0 <= j < i ==> indices[j] < |keys| && Some(keys[indices[j]]) == ixs[j].program)
  }

  lemma NothingIndexed(ixs: seq<FixtureInstruction>)
    ensures Indexed(ixs, 0, [], [])
  {
    assert Programs(ixs[..0]) == {};
  }

  lemma IndexedSize(ixs: seq<FixtureInstruction>, i: nat, keys: seq<Pubkey>, indices: seq<nat>)
    requires Indexed(ixs, i, keys, indices)
    ensures |keys| == |Programs(ixs[..i])| && AllParse(ixs[..i]) && |indices| == i
    ensures i < |ixs| && ixs[i].program.None? ==> !AllParse(ixs)
    ensures forall j :: 0 <= j < i ==> indices[j] < |keys| && Some(keys[indices[j]]) == ixs[j].program
  {
  }

  lemma IndexNext(ixs: seq<FixtureInstruction>, i: nat, keys: seq<Pubkey>, indices: seq<nat>, keys': seq<Pubkey>,
                  idx: nat)
    requires Indexed(ixs, i, keys, indices) && i < |ixs| && ixs[i].program.Some?
    requires keys' == keys || (ixs[i].program.value !in keys && keys' == keys + [ixs[i].program.value])
    requires idx < |keys'| && keys'[idx] == ixs[i].program.value
    ensures Indexed(ixs, i + 1, keys', indices + [idx])
  {
    ProgramsGrow(ixs, i);
    assert keys'[idx] in keys';
    if keys' == keys {
      assert Programs(ixs[..i + 1]) == Programs(ixs[..i]);
    }
    assert forall j :: 0 <= j < i ==> ixs[..i + 1][j] == ixs[..i][j];
  }

  function FixtureIds(ixs: seq<FixtureInstruction>): (r: seq<Id>)
    requires AllParse(ixs)
    ensures |r| == |ixs|
  {
    seq(|ixs|, i requires 0 <= i < |ixs| => Id(ixs[i].program.value, ixs[i].stackHeight))
  }

  function FixtureHeights(ixs: seq<FixtureInstruction>): (r: seq<nat>)
    ensures |r| == |ixs|
  {
    seq(|ixs|, i requires 0 <= i < |ixs| => ixs[i].stackHeight)
  }

  /** A replayed fixture is parsed and attributed exactly as its own programs and heights say, whatever the
      re-indexing, and counted like any other transaction; a refused one is not counted. */
  method Replay(ixs: seq<FixtureInstruction>, entries: seq<LogEntry>, counters: Counters)
    returns (r: Result<array<ParsedInstruction>, FixtureError>)
    modifies counters
    ensures r.Ok? <==> AllParse(ixs) && |Programs(ixs)| <= 256
    ensures r.Ok? ==> fresh(r.value) && r.value.Length == |ixs| && |Walk(FixtureIds(ixs), entries).slices| == |ixs|
    ensures r.Ok? ==> forall i :: 0 <= i < |ixs| ==>
              var ix := r.value[i];
              && IdOf(ix) == FixtureIds(ixs)[i] && ix.instructionIndex == i && ix.accounts == [] && ix.data == []
              && ix.logs == Walk(FixtureIds(ixs), entries).slices[i]
              && NearestShallower(FixtureHeights(ixs), i, ix.parentIndex)
    ensures r.Ok? ==> var o := Walk(FixtureIds(ixs), entries);
              && counters.instructions == old(counters.instructions) + |ixs|
              && counters.instructionsOpened == old(counters.instructionsOpened) + o.openCount
              && (forall e :: counters.ExitCount(e) == old(counters.ExitCount(e)) + if e == o.exit then 1 else 0)
    ensures r.Err? ==> unchanged(counters)
  {
    hide Walk, NearestShallower, Programs, Filtered;
    var reindexed := Reindex(ixs);
    if reindexed.Err? {
      return Err(reindexed.error);
    }
    var (keys, indices) := reindexed.value;
    var flat := seq(|ixs|, i requires 0 <= i < |ixs| && i < |indices| =>
      RawInstruction(indices[i], [], [], Some(ixs[i].stackHeight)));
    var result := ParseInstructions(flat, entries, keys, counters);
    assert IdsOf(result[..]) == FixtureIds(ixs);
    assert HeightsIn(result[..]) == FixtureHeights(ixs);
    forall i | 0 <= i < |ixs|
      ensures result[i].accounts == []
    {
      NoAccounts(keys, flat[i].accountIndices, result[i].accounts);
    }
    return Result.Ok(result);
  }

  lemma NoAccounts(keys: seq<Pubkey>, indices: seq<nat>, accounts: seq<Pubkey>)
    requires indices == [] && Filtered(indices, InRange(keys), KeyAt(keys), accounts)
    ensures accounts == []
  {
    AccountsInOrder(keys, indices);
    FilteredOnce(indices, InRange(keys), KeyAt(keys), accounts, []);
  }
}
