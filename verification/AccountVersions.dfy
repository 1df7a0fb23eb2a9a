/** Account layouts with fields added by later program upgrades, grouped by upgrade. */
module AccountVersions {
  import opened Wrappers
  import opened FieldCodec

  // A field of a later version: there, or the account predates it.
  datatype Legacy = Present(value: Value) | Absent

  // required fields, then the version-added ones, group by group in the order they shipped.
  datatype Layout = Layout(discriminator: seq<Byte>, required: seq<FieldType>, groups: seq<seq<FieldType>>)

  datatype State = State(required: seq<Value>, legacy: seq<Legacy>)

  // TruncatedVersion names the group by position.
  datatype ParseError =
    | TooShort(len: nat, need: nat)
    | Discriminator
    | Malformed
    | TruncatedVersion(group: nat, have: nat, need: nat)

  // A discriminator is eight bytes, or there is none.
  predicate Valid(l: Layout) {
    && |l.discriminator| in {0, 8}
    && (forall g :: 0 <= g < |l.groups| ==> l.groups[g] != [])
    && (forall g :: 0 <= g < |l.groups| ==> NonEmptyTypes(l.groups[g]))
  }

  // No field type of an on-chain layout encodes to nothing.
  predicate NonEmptyTypes(ts: seq<FieldType>) {
    forall i :: 0 <= i < |ts| ==>
      (ts[i].UInt? || ts[i].SInt? ==> ts[i].width > 0) && (ts[i].FixedBytes? ==> ts[i].size > 0)
  }

  function Flatten(groups: seq<seq<FieldType>>): seq<FieldType> {
    if groups == [] then [] else groups[0] + Flatten(groups[1..])
  }

  // ---- Reading ------------------------------------------------------------

  // At the end of input a version-added field is absent; otherwise it has to be read.
  function ReadLegacy(t: FieldType, data: seq<Byte>): Option<(Legacy, seq<Byte>)> {
    if data == [] then Some((Absent, []))
    else
      match Decode(t, data)
      case None => None
      case Some((v, rest)) => Some((Present(v), rest))
  }

  function ReadLegacies(ts: seq<FieldType>, data: seq<Byte>): Option<(seq<Legacy>, seq<Byte>)> {
    if ts == [] then Some(([], data))
    else
      match ReadLegacy(ts[0], data)
      case None => None
      case Some((f, rest)) =>
        match ReadLegacies(ts[1..], rest)
        case None => None
        case Some((fs, end)) => Some(([f] + fs, end))
  }

  function CountPresent(fs: seq<Legacy>): (n: nat)
    ensures n <= |fs|
  {
    if fs == [] then 0 else (if fs[0].Present? then 1 else 0) + CountPresent(fs[1..])
  }

  // The first group with more than one member that is neither whole nor missing.
  function CheckGroups(groups: seq<seq<FieldType>>, fs: seq<Legacy>, g: nat): Option<ParseError>
    requires |fs| == |Flatten(groups)|
  {
    if groups == [] then None
    else
      var n := |groups[0]|;
      var have := CountPresent(fs[..n]);
      if n > 1 && have != 0 && have != n then Some(TruncatedVersion(g, have, n))
      else CheckGroups(groups[1..], fs[n..], g + 1)
  }

  lemma {:induction false} ReadLegaciesLength(ts: seq<FieldType>, data: seq<Byte>)
    requires ReadLegacies(ts, data).Some?
    ensures |ReadLegacies(ts, data).value.0| == |ts|
    decreases |ts|
  {
    if ts != [] {
      ReadLegaciesLength(ts[1..], ReadLegacy(ts[0], data).value.1);
    }
  }

  // A prefix read: whatever follows the fields is padding.
  function ReadFields(l: Layout, body: seq<Byte>): Result<State, ParseError> {
    match DecodeAll(l.required, body)
    case None => Err(Malformed)
    case Some((required, rest)) =>
      match ReadLegacies(Flatten(l.groups), rest)
      case None => Err(Malformed)
      case Some((legacy, _)) =>
        ReadLegaciesLength(Flatten(l.groups), rest);
        match CheckGroups(l.groups, legacy, 0)
        case Some(error) => Err(error)
        case None => Ok(State(required, legacy))
  }

  function FromAccountData(l: Layout, data: seq<Byte>): Result<State, ParseError> {
    var n := |l.discriminator|;
    if |data| < n then Err(TooShort(|data|, n))
    else if data[..n] != l.discriminator then Err(Discriminator)
    else ReadFields(l, data[n..])
  }

  // ---- Released versions ----------------------------------------------------

  function AllAbsent(n: nat): (r: seq<Legacy>)
    ensures |r| == n
  {
    seq(n, i => Absent)
  }

  function AllPresent(vs: seq<Value>): (r: seq<Legacy>)
    ensures |r| == |vs|
  {
    seq(|vs|, i requires 0 <= i < |vs| => Present(vs[i]))
  }

  lemma {:induction false} FlattenAppend(a: seq<seq<FieldType>>, b: seq<seq<FieldType>>)
    ensures Flatten(a + b) == Flatten(a) + Flatten(b)
    decreases |a|
  {
    if a == [] {
      assert a + b == b;
    } else {
      assert (a + b)[1..] == a[1..] + b;
      FlattenAppend(a[1..], b);
    }
  }

  // At the end of input, everything later is absent.
  lemma {:induction false} ReadAtEnd(ts: seq<FieldType>)
    ensures ReadLegacies(ts, []) == Some((AllAbsent(|ts|), []))
    decreases |ts|
  {
    if ts != [] {
      ReadAtEnd(ts[1..]);
      assert AllAbsent(|ts|) == [Absent] + AllAbsent(|ts| - 1);
    }
  }

  // Reading stops being present at most once: the fields read are a prefix, whole and in order.
  ghost predicate PrefixRead(ts: seq<FieldType>, data: seq<Byte>, fs: seq<Legacy>, rest: seq<Byte>, vs: seq<Value>) {
    && |vs| <= |ts|
    && AllFit(ts[..|vs|], vs)
    && fs == AllPresent(vs) + AllAbsent(|ts| - |vs|)
    && EncodeAll(ts[..|vs|], vs) + rest == data
    && (|vs| < |ts| ==> rest == [])
  }

  lemma {:induction false} ReadIsPrefix(ts: seq<FieldType>, data: seq<Byte>) returns (vs: seq<Value>)
    requires ReadLegacies(ts, data).Some?
    ensures PrefixRead(ts, data, ReadLegacies(ts, data).value.0, ReadLegacies(ts, data).value.1, vs)
    decreases |ts|
  {
    if ts == [] || data == [] {
      vs := [];
      ReadAtEnd(ts);
      assert EncodeAll(ts[..0], vs) + data == data;
      assert AllPresent(vs) + AllAbsent(|ts|) == AllAbsent(|ts|);
    } else {
      var (v, more) := Decode(ts[0], data).value;
      EncodeOfDecode(ts[0], data);
      var tail := ReadIsPrefix(ts[1..], more);
      vs := [v] + tail;
      ConsPrefix(ts, data, v, more, tail);
    }
  }

  lemma ConsPrefix(ts: seq<FieldType>, data: seq<Byte>, v: Value, more: seq<Byte>, tail: seq<Value>)
    requires ts != [] && data != [] && ReadLegacies(ts, data).Some? && Decode(ts[0], data) == Some((v, more))
    requires ReadLegacies(ts[1..], more).Some?
    requires Fits(ts[0], v) && Encode(ts[0], v) + more == data
    requires PrefixRead(ts[1..], more, ReadLegacies(ts[1..], more).value.0, ReadLegacies(ts[1..], more).value.1, tail)
    ensures PrefixRead(ts, data, ReadLegacies(ts, data).value.0, ReadLegacies(ts, data).value.1, [v] + tail)
  {
    hide ReadLegacies, EncodeAll, Encode, Decode, Fits, AllFit;
    var fs1, rest := ReadLegacies(ts[1..], more).value.0, ReadLegacies(ts[1..], more).value.1;
    ReadUnfolds(ts, data, v, more);
    PrefixTypes(ts, v, tail, rest);
    PresentFirst(v, tail, |ts| - 1 - |tail|);
    assert |[v] + tail| == |tail| + 1;
  }

  lemma PresentFirst(v: Value, tail: seq<Value>, n: nat)
    ensures AllPresent([v] + tail) + AllAbsent(n) == [Present(v)] + (AllPresent(tail) + AllAbsent(n))
  {
    assert AllPresent([v] + tail) == [Present(v)] + AllPresent(tail);
  }

  lemma ReadUnfolds(ts: seq<FieldType>, data: seq<Byte>, v: Value, more: seq<Byte>)
    requires ts != [] && data != [] && Decode(ts[0], data) == Some((v, more)) && ReadLegacies(ts[1..], more).Some?
    ensures ReadLegacies(ts, data)
         == Some(([Present(v)] + ReadLegacies(ts[1..], more).value.0, ReadLegacies(ts[1..], more).value.1))
  {
    hide Decode;
  }

  lemma PrefixTypes(ts: seq<FieldType>, v: Value, tail: seq<Value>, rest: seq<Byte>)
    requires ts != [] && |tail| < |ts| && Fits(ts[0], v) && AllFit(ts[1..][..|tail|], tail)
    ensures AllFit(ts[..|tail| + 1], [v] + tail)
    ensures EncodeAll(ts[..|tail| + 1], [v] + tail) + rest
            == Encode(ts[0], v) + (EncodeAll(ts[1..][..|tail|], tail) + rest)
  {
    var us := ts[..|tail| + 1];
    assert us[0] == ts[0] && us[1..] == ts[1..][..|tail|];
    FitCons(us, v, tail, rest);
  }

  // Fields read in front of whatever reading the rest gives.
  function Before(vs: seq<Value>, r: Option<(seq<Legacy>, seq<Byte>)>): Option<(seq<Legacy>, seq<Byte>)> {
    match r
    case None => None
    case Some((fs, rest)) => Some((AllPresent(vs) + fs, rest))
  }

  // Reading back what a version wrote: its own fields, and then the later ones from what follows.
  lemma {:induction false} ReadEncoded(ts: seq<FieldType>, vs: seq<Value>, later: seq<FieldType>, more: seq<Byte>)
    requires AllFit(ts, vs) && NonEmptyTypes(ts)
    ensures ReadLegacies(ts + later, EncodeAll(ts, vs) + more) == Before(vs, ReadLegacies(later, more))
    decreases |ts|
  {
    if ts == [] {
      assert ts + later == later && EncodeAll(ts, vs) + more == more;
      BeforeNothing(ReadLegacies(later, more));
    } else {
      ReadEncoded(ts[1..], vs[1..], later, more);
      ReadEncodedStep(ts, vs, later, more);
    }
  }

  lemma BeforeNothing(r: Option<(seq<Legacy>, seq<Byte>)>)
    ensures Before([], r) == r
  {
    if r.Some? {
      assert AllPresent([]) + r.value.0 == r.value.0;
    }
  }

  lemma ReadEncodedStep(ts: seq<FieldType>, vs: seq<Value>, later: seq<FieldType>, more: seq<Byte>)
    requires AllFit(ts, vs) && ts != [] && NonEmptyTypes(ts)
    requires ReadLegacies(ts[1..] + later, EncodeAll(ts[1..], vs[1..]) + more)
             == Before(vs[1..], ReadLegacies(later, more))
    ensures ReadLegacies(ts + later, EncodeAll(ts, vs) + more) == Before(vs, ReadLegacies(later, more))
  {
    hide ReadLegacies, EncodeAll, Encode, Fits;
    EncodeAllCons(ts, vs, more);
    EncodeNonEmpty(ts[0], vs[0]);
    BeforeCons(vs, ReadLegacies(later, more));
    assert ts + later == [ts[0]] + (ts[1..] + later);
    ReadFirst(ts[0], vs[0], ts[1..] + later, EncodeAll(ts[1..], vs[1..]) + more);
  }

  lemma BeforeCons(vs: seq<Value>, r: Option<(seq<Legacy>, seq<Byte>)>)
    requires vs != []
    ensures Before([vs[0]], Before(vs[1..], r)) == Before(vs, r)
  {
    if r.Some? {
      assert AllPresent([vs[0]]) + (AllPresent(vs[1..]) + r.value.0) == AllPresent(vs) + r.value.0;
    }
  }

  lemma ReadFirst(t: FieldType, v: Value, ts: seq<FieldType>, more: seq<Byte>)
    requires Fits(t, v) && Encode(t, v) != []
    ensures ReadLegacies([t] + ts, Encode(t, v) + more) == Before([v], ReadLegacies(ts, more))
  {
    hide Encode, Decode, Fits;
    var data := Encode(t, v) + more;
    DecodeOfEncode(t, v, more);
    assert ReadLegacy(t, data) == Some((Present(v), more));
    assert ([t] + ts)[1..] == ts;
    assert AllPresent([v]) == [Present(v)];
  }

  lemma EncodeNonEmpty(t: FieldType, v: Value)
    requires Fits(t, v) && NonEmptyTypes([t])
    ensures Encode(t, v) != []
  {
    assert [t][0] == t;
  }

  // ---- Group checks -------------------------------------------------------

  lemma {:induction false} CountSplits(a: seq<Legacy>, b: seq<Legacy>)
    ensures CountPresent(a + b) == CountPresent(a) + CountPresent(b)
    decreases |a|
  {
    if a == [] {
      assert a + b == b;
    } else {
      assert (a + b)[1..] == a[1..] + b;
      CountSplits(a[1..], b);
    }
  }

  lemma {:induction false} CountUniform(vs: seq<Value>, n: nat)
    ensures CountPresent(AllPresent(vs)) == |vs| && CountPresent(AllAbsent(n)) == 0
    decreases |vs| + n
  {
    if vs != [] {
      CountUniform(vs[1..], n);
      assert AllPresent(vs)[1..] == AllPresent(vs[1..]);
    } else if n > 0 {
      CountUniform(vs, n - 1);
      assert AllAbsent(n)[1..] == AllAbsent(n - 1);
    }
  }

  lemma PrefixCut(vs: seq<Value>, total: nat, n: nat)
    requires |vs| <= total && n <= total
    ensures var fs := AllPresent(vs) + AllAbsent(total - |vs|);
            && fs[..n] == (if n <= |vs| then AllPresent(vs[..n]) else AllPresent(vs) + AllAbsent(n - |vs|))
            && fs[n..] == (if n <= |vs| then AllPresent(vs[n..]) + AllAbsent(total - |vs|) else AllAbsent(total - n))
            && CountPresent(fs[..n]) == if n <= |vs| then n else |vs|
  {
    if n <= |vs| {
      CountUniform(vs[..n], 0);
    } else {
      CountUniform(vs, n - |vs|);
      CountSplits(AllPresent(vs), AllAbsent(n - |vs|));
    }
  }

  // m fields are the first few groups, whole.
  ghost predicate OnBoundary(groups: seq<seq<FieldType>>, m: nat) {
    exists k :: 0 <= k <= |groups| && m == |Flatten(groups[..k])|
  }

  // A present prefix passes the group checks exactly when it ends on a group boundary.
  lemma {:induction false} ChecksPassOnBoundary(groups: seq<seq<FieldType>>, vs: seq<Value>, g: nat)
    requires forall i :: 0 <= i < |groups| ==> groups[i] != []
    requires |vs| <= |Flatten(groups)|
    ensures CheckGroups(groups, AllPresent(vs) + AllAbsent(|Flatten(groups)| - |vs|), g) == None
       <==> OnBoundary(groups, |vs|)
    decreases |groups|
  {
    if groups == [] {
      assert |vs| == |Flatten(groups[..0])|;
    } else {
      hide OnBoundary, AllPresent, AllAbsent, CountPresent, CheckGroups, Flatten;
      var n, total := |groups[0]|, |Flatten(groups)|;
      CheckFirst(groups, AllPresent(vs) + AllAbsent(total - |vs|), g);
      PrefixCut(vs, total, n);
      Boundaries(groups, |vs|);
      if n <= |vs| {
        ChecksPassOnBoundary(groups[1..], vs[n..], g + 1);
      } else {
        ChecksPassOnBoundary(groups[1..], [], g + 1);
        NoValues(total - n);
        NoBoundary(groups[1..]);
      }
    }
  }

  lemma CheckFirst(groups: seq<seq<FieldType>>, fs: seq<Legacy>, g: nat)
    requires groups != [] && |fs| == |Flatten(groups)|
    ensures |Flatten(groups)| == |groups[0]| + |Flatten(groups[1..])|
    ensures var n, have := |groups[0]|, CountPresent(fs[..|groups[0]|]);
            CheckGroups(groups, fs, g) == if n > 1 && have != 0 && have != n then Some(TruncatedVersion(g, have, n))
                                          else CheckGroups(groups[1..], fs[n..], g + 1)
  {
  }

  lemma NoValues(n: nat)
    ensures AllPresent([]) + AllAbsent(n) == AllAbsent(n)
  {
  }

  lemma NoBoundary(groups: seq<seq<FieldType>>)
    ensures OnBoundary(groups, 0)
  {
    assert |Flatten(groups[..0])| == 0;
  }

  lemma {:induction false} Boundaries(groups: seq<seq<FieldType>>, m: nat)
    requires groups != []
    ensures OnBoundary(groups, m) <==> m == 0 || (|groups[0]| <= m && OnBoundary(groups[1..], m - |groups[0]|))
  {
    var n := |groups[0]|;
    assert groups[..0] == [];
    assert forall k :: 1 <= k <= |groups| ==> groups[..k][1..] == groups[1..][..k - 1];
    if k :| 0 <= k <= |groups| && m == |Flatten(groups[..k])| && k > 0 {
      assert m - n == |Flatten(groups[1..][..k - 1])|;
    }
    if n <= m {
      if k :| 0 <= k <= |groups| - 1 && m - n == |Flatten(groups[1..][..k])| {
        assert groups[..k + 1][1..] == groups[1..][..k];
        assert m == |Flatten(groups[..k + 1])|;
      }
    }
    if m == 0 {
      NoBoundary(groups);
    }
  }

  // ---- Main results -------------------------------------------------------

  // The bytes of an account written at version k, before any padding.
  function EncodeVersion(l: Layout, required: seq<Value>, vs: seq<Value>, k: nat): seq<Byte>
    requires k <= |l.groups| && AllFit(l.required, required) && AllFit(Flatten(l.groups[..k]), vs)
  {
    l.discriminator + EncodeAll(l.required, required) + EncodeAll(Flatten(l.groups[..k]), vs)
  }

  function VersionState(l: Layout, required: seq<Value>, vs: seq<Value>): State
    requires |vs| <= |Flatten(l.groups)|
  {
    State(required, AllPresent(vs) + AllAbsent(|Flatten(l.groups)| - |vs|))
  }

  lemma SplitGroups(groups: seq<seq<FieldType>>, k: nat)
    requires k <= |groups|
    ensures Flatten(groups) == Flatten(groups[..k]) + Flatten(groups[k..])
  {
    assert groups == groups[..k] + groups[k..];
    FlattenAppend(groups[..k], groups[k..]);
  }

  /** Whatever is accepted is a released version: all required fields, the first k groups whole and the rest absent,
      from bytes that are that version's own, followed by padding only when no group is missing. */
  lemma {:induction false} AcceptedIsReleased(l: Layout, data: seq<Byte>)
    returns (k: nat, vs: seq<Value>, padding: seq<Byte>)
    requires Valid(l) && FromAccountData(l, data).Ok?
    ensures var s := FromAccountData(l, data).value;
            && k <= |l.groups| && AllFit(l.required, s.required) && AllFit(Flatten(l.groups[..k]), vs)
            && |vs| <= |Flatten(l.groups)| && s == VersionState(l, s.required, vs)
            && data == EncodeVersion(l, s.required, vs, k) + padding
            && (|vs| < |Flatten(l.groups)| ==> padding == [])
  {
    hide EncodeAll, DecodeAll, ReadLegacies, Flatten, CheckGroups, AllFit, AllPresent, AllAbsent, FromAccountData;
    var s, rest, after := AcceptedParts(l, data);
    padding := after;
    EncodeAllOfDecodeAll(l.required, data[|l.discriminator|..]);
    vs := ReadIsPrefix(Flatten(l.groups), rest);
    k := PrefixEndsOnGroup(l.groups, vs);
    JoinBytes(l.discriminator, EncodeAll(l.required, s.required), EncodeAll(Flatten(l.groups[..k]), vs), padding);
  }

  // The decodings an accepted account went through.
  lemma AcceptedParts(l: Layout, data: seq<Byte>) returns (s: State, rest: seq<Byte>, padding: seq<Byte>)
    requires FromAccountData(l, data).Ok?
    ensures FromAccountData(l, data) == Ok(s)
    ensures |l.discriminator| <= |data| && data == l.discriminator + data[|l.discriminator|..]
    ensures DecodeAll(l.required, data[|l.discriminator|..]) == Some((s.required, rest))
    ensures ReadLegacies(Flatten(l.groups), rest) == Some((s.legacy, padding))
    ensures |s.legacy| == |Flatten(l.groups)| && CheckGroups(l.groups, s.legacy, 0) == None
  {
    hide DecodeAll, ReadLegacies, Flatten, CheckGroups;
    s := FromAccountData(l, data).value;
    rest := DecodeAll(l.required, data[|l.discriminator|..]).value.1;
    padding := ReadLegacies(Flatten(l.groups), rest).value.1;
    ReadLegaciesLength(Flatten(l.groups), rest);
  }

  lemma {:induction false} PrefixEndsOnGroup(groups: seq<seq<FieldType>>, vs: seq<Value>) returns (k: nat)
    requires forall i :: 0 <= i < |groups| ==> groups[i] != []
    requires |vs| <= |Flatten(groups)|
             && CheckGroups(groups, AllPresent(vs) + AllAbsent(|Flatten(groups)| - |vs|), 0) == None
    ensures k <= |groups| && Flatten(groups)[..|vs|] == Flatten(groups[..k])
  {
    hide Flatten, CheckGroups;
    ChecksPassOnBoundary(groups, vs, 0);
    assert OnBoundary(groups, |vs|);
    k :| k <= |groups| && |vs| == |Flatten(groups[..k])|;
    SplitGroups(groups, k);
  }

  lemma JoinBytes(a: seq<Byte>, b: seq<Byte>, c: seq<Byte>, d: seq<Byte>)
    ensures a + (b + (c + d)) == a + b + c + d
  {
  }

  /** Every released version reads back as itself; padding after the newest version changes nothing. */
  lemma {:induction false} ReleasedIsAccepted(l: Layout, required: seq<Value>, vs: seq<Value>, k: nat,
                                              padding: seq<Byte>)
    requires Valid(l) && k <= |l.groups|
    requires AllFit(l.required, required) && AllFit(Flatten(l.groups[..k]), vs)
    requires k < |l.groups| ==> padding == []
    ensures |vs| <= |Flatten(l.groups)|
    ensures FromAccountData(l, EncodeVersion(l, required, vs, k) + padding) == Ok(VersionState(l, required, vs))
  {
    hide ReadLegacies, DecodeAll, EncodeAll, EncodeVersion, CheckGroups, Flatten;
    SplitGroups(l.groups, k);
    LegaciesOfVersion(l, vs, k, padding);
    BodyOfVersion(l, required, vs, k, padding);
    DecodeAllOfEncodeAll(l.required, required, EncodeAll(Flatten(l.groups[..k]), vs) + padding);
    ChecksPassOnBoundary(l.groups, vs, 0);
    assert 0 <= k <= |l.groups| && |vs| == |Flatten(l.groups[..k])|;
  }

  lemma {:induction false} BodyOfVersion(l: Layout, required: seq<Value>, vs: seq<Value>, k: nat, padding: seq<Byte>)
    requires k <= |l.groups| && AllFit(l.required, required) && AllFit(Flatten(l.groups[..k]), vs)
    ensures var data, n := EncodeVersion(l, required, vs, k) + padding, |l.discriminator|;
            && n <= |data| && data[..n] == l.discriminator
            && data[n..] == EncodeAll(l.required, required) + (EncodeAll(Flatten(l.groups[..k]), vs) + padding)
  {
    var rest := EncodeAll(l.required, required) + (EncodeAll(Flatten(l.groups[..k]), vs) + padding);
    JoinBytes(l.discriminator, EncodeAll(l.required, required), EncodeAll(Flatten(l.groups[..k]), vs), padding);
    assert EncodeVersion(l, required, vs, k) + padding == l.discriminator + rest;
  }

  lemma {:induction false} LegaciesOfVersion(l: Layout, vs: seq<Value>, k: nat, padding: seq<Byte>)
    requires Valid(l) && k <= |l.groups| && AllFit(Flatten(l.groups[..k]), vs)
    requires k < |l.groups| ==> padding == []
    ensures |vs| <= |Flatten(l.groups)|
    ensures ReadLegacies(Flatten(l.groups), EncodeAll(Flatten(l.groups[..k]), vs) + padding)
         == Some((AllPresent(vs) + AllAbsent(|Flatten(l.groups)| - |vs|), padding))
  {
    var ts, later := Flatten(l.groups[..k]), Flatten(l.groups[k..]);
    SplitGroups(l.groups, k);
    FlattenNonEmpty(l.groups[..k]);
    assert later != [] ==> k < |l.groups|;
    ReadEncoded(ts, vs, later, padding);
    if padding == [] {
      ReadAtEnd(later);
    } else {
      assert AllPresent(vs) + [] == AllPresent(vs) + AllAbsent(0);
    }
    assert |Flatten(l.groups)| - |vs| == |later|;
  }

  lemma {:induction false} FlattenNonEmpty(groups: seq<seq<FieldType>>)
    requires forall g :: 0 <= g < |groups| ==> NonEmptyTypes(groups[g])
    ensures NonEmptyTypes(Flatten(groups))
    decreases |groups|
  {
    if groups != [] {
      FlattenNonEmpty(groups[1..]);
    }
  }

  /** A version's bytes with padding after them read back as that version exactly when it is the newest one or
      there is no padding: in front of padding an older account cannot be told from a newer one. */
  lemma {:induction false} PaddingIff(l: Layout, required: seq<Value>, vs: seq<Value>, k: nat, padding: seq<Byte>)
    requires Valid(l) && k <= |l.groups|
    requires AllFit(l.required, required) && AllFit(Flatten(l.groups[..k]), vs)
    ensures |vs| <= |Flatten(l.groups)|
    ensures FromAccountData(l, EncodeVersion(l, required, vs, k) + padding) == Ok(VersionState(l, required, vs))
       <==> k == |l.groups| || padding == []
  {
    SplitGroups(l.groups, k);
    if k == |l.groups| || padding == [] {
      ReleasedIsAccepted(l, required, vs, k, padding);
    } else {
      assert l.groups[k..][0] == l.groups[k];
      if FromAccountData(l, EncodeVersion(l, required, vs, k) + padding) == Ok(VersionState(l, required, vs)) {
        UnpaddedLength(l, EncodeVersion(l, required, vs, k) + padding, required, vs, k);
        assert false;
      }
    }
  }

  /** What an older version in front of padding reads as instead: nothing, or a strictly newer version whose further
      fields were read out of the padding. */
  lemma {:induction false} PaddedReadsNewer(l: Layout, required: seq<Value>, vs: seq<Value>, k: nat, padding: seq<Byte>)
    returns (k': nat, vs': seq<Value>)
    requires Valid(l) && k < |l.groups| && padding != []
    requires AllFit(l.required, required) && AllFit(Flatten(l.groups[..k]), vs)
    requires FromAccountData(l, EncodeVersion(l, required, vs, k) + padding).Ok?
    ensures k < k' <= |l.groups| && AllFit(Flatten(l.groups[..k']), vs') && vs < vs'
    ensures |vs'| <= |Flatten(l.groups)|
    ensures FromAccountData(l, EncodeVersion(l, required, vs, k) + padding) == Ok(VersionState(l, required, vs'))
  {
    hide ReadLegacies, DecodeAll, EncodeAll, EncodeVersion, CheckGroups, Flatten, AllFit, NonEmptyTypes;
    hide AllPresent, AllAbsent, FromAccountData;
    var ts, later, data := Flatten(l.groups[..k]), Flatten(l.groups[k..]), EncodeVersion(l, required, vs, k) + padding;
    SplitGroups(l.groups, k);
    BodyOfVersion(l, required, vs, k, padding);
    DecodeAllOfEncodeAll(l.required, required, EncodeAll(ts, vs) + padding);
    var s, rest, after := AcceptedParts(l, data);
    FlattenNonEmpty(l.groups[..k]);
    ReadEncoded(ts, vs, later, padding);
    ghost var own;
    k', vs', own := AcceptedIsReleased(l, data);
    LaterPresent(l.groups, k, padding);
    LongerRun(vs, ReadLegacies(later, padding).value.0, vs', |Flatten(l.groups)|);
    FitLength(ts, vs);
    FitLength(Flatten(l.groups[..k']), vs');
    if k' <= k {
      FlattenShorter(l.groups, k', k);
    }
  }

  lemma FitLength(ts: seq<FieldType>, vs: seq<Value>)
    requires AllFit(ts, vs)
    ensures |ts| == |vs|
  {
  }

  // The first field of the next group is read out of whatever follows.
  lemma LaterPresent(groups: seq<seq<FieldType>>, k: nat, padding: seq<Byte>)
    requires k < |groups| && groups[k] != [] && padding != []
    ensures var r := ReadLegacies(Flatten(groups[k..]), padding);
            r.Some? ==> r.value.0 != [] && r.value.0[0].Present?
  {
    assert groups[k..][0] == groups[k];
    assert Flatten(groups[k..]) != [];
  }

  // A run of present fields followed by one more is the start of a longer run.
  lemma LongerRun(vs: seq<Value>, fs: seq<Legacy>, vs': seq<Value>, total: nat)
    requires fs != [] && fs[0].Present? && |vs'| <= total
    requires AllPresent(vs) + fs == AllPresent(vs') + AllAbsent(total - |vs'|)
    ensures vs < vs'
  {
    var x := AllPresent(vs) + fs;
    assert x[|vs|] == fs[0];
    assert forall i :: 0 <= i < |vs| ==> x[i] == Present(vs[i]);
    assert forall i :: 0 <= i < |vs'| ==> x[i] == Present(vs'[i]);
    assert forall i :: |vs'| <= i < total ==> x[i] == Absent;
    assert forall i :: 0 <= i < |vs| ==> vs[i] == vs'[i];
  }

  lemma {:induction false} FlattenShorter(groups: seq<seq<FieldType>>, k: nat, k': nat)
    requires k <= k' <= |groups|
    ensures |Flatten(groups[..k])| <= |Flatten(groups[..k'])|
  {
    SplitGroups(groups[..k'], k);
    assert groups[..k'][..k] == groups[..k];
  }

  // One byte of padding after a version without the added group is read as the group.
  lemma {:induction false} PaddingReadAsGroup(b: Byte)
    ensures var l, padded := Layout([], [], [[UInt(1)]]), [b];
            && Valid(l) && EncodeVersion(l, [], [], 0) + padded == padded
            && FromAccountData(l, padded) == Ok(VersionState(l, [], [Num(b)]))
            && VersionState(l, [], [Num(b)]) != VersionState(l, [], [])
  {
    hide FromAccountData, ReadLegacies;
    var t, v := UInt(1), Num(b);
    var l := Layout([], [], [[t]]);
    OneByte(b);
    OneGroup([t]);
    ReleasedIsAccepted(l, [], [v], 1, []);
    assert EncodeVersion(l, [], [v], 1) + [] == [b];
    assert AllPresent([v])[0] == Present(v) && AllAbsent(1)[0] == Absent;
    assert VersionState(l, [], [v]).legacy[0] != VersionState(l, [], []).legacy[0];
  }

  // Where the group holds two such fields, it is refused as half of one.
  lemma {:induction false} PaddingRefused(b: Byte)
    ensures var l, padded := Layout([], [], [[UInt(1), UInt(1)]]), [b];
            && Valid(l) && EncodeVersion(l, [], [], 0) + padded == padded
            && FromAccountData(l, padded) == Err(TruncatedVersion(0, 1, 2))
  {
    hide ReadLegacies, EncodeAll;
    var t, v := UInt(1), Num(b);
    var l, half := Layout([], [], [[t, t]]), [Present(v), Absent];
    OneByte(b);
    OneGroup([t, t]);
    ReadEncoded([t], [v], [t], []);
    ReadAtEnd([t]);
    assert [t] + [t] == [t, t] && EncodeAll([t], [v]) + [] == [b];
    assert AllPresent([v]) + AllAbsent(1) == half;
    HalfPresent(v);
    assert ReadFields(l, [b]) == Err(TruncatedVersion(0, 1, 2));
  }

  lemma HalfPresent(v: Value)
    ensures CountPresent([Present(v), Absent][..2]) == 1
  {
    var half := [Present(v), Absent];
    assert half[..2] == half && half[1..] == [Absent];
    assert CountPresent([Absent]) == 0;
  }

  lemma OneGroup(ts: seq<FieldType>)
    ensures Flatten([ts]) == ts && [ts][..1] == [ts] && [ts][..0] == [] && Flatten([]) == []
    ensures EncodeAll([], []) == []
  {
    assert [ts][1..] == [];
  }

  lemma OneByte(b: Byte)
    ensures Fits(UInt(1), Num(b)) && EncodeAll([UInt(1)], [Num(b)]) == [b]
  {
    assert Pow256(1) == 256 * Pow256(0);
    assert LeBytes(b, 1) == [b % 256] + LeBytes(b / 256, 0);
    assert [UInt(1)][1..] == [] && [Num(b)][1..] == [];
  }

  // An account read as an older version has exactly that version's length.
  lemma {:induction false} UnpaddedLength(l: Layout, data: seq<Byte>, required: seq<Value>, vs: seq<Value>, k: nat)
    requires Valid(l) && k <= |l.groups| && AllFit(l.required, required) && AllFit(Flatten(l.groups[..k]), vs)
    requires |vs| < |Flatten(l.groups)| && FromAccountData(l, data) == Ok(VersionState(l, required, vs))
    ensures |data| == |EncodeVersion(l, required, vs, k)|
  {
    var k', vs', padding' := AcceptedIsReleased(l, data);
    SameValues(vs, vs', |Flatten(l.groups)|);
    SameTypes(l.groups, k, k');
    assert data == EncodeVersion(l, required, vs, k');
  }

  lemma SameTypes(groups: seq<seq<FieldType>>, k: nat, k': nat)
    requires k <= |groups| && k' <= |groups| && |Flatten(groups[..k])| == |Flatten(groups[..k'])|
    ensures Flatten(groups[..k]) == Flatten(groups[..k'])
  {
    SplitGroups(groups, k);
    SplitGroups(groups, k');
    var n := |Flatten(groups[..k])|;
    assert Flatten(groups)[..n] == Flatten(groups[..k]);
    assert Flatten(groups)[..n] == Flatten(groups[..k']);
  }

  lemma {:induction false} SameValues(a: seq<Value>, b: seq<Value>, total: nat)
    requires |a| <= total && |b| <= total
    requires AllPresent(a) + AllAbsent(total - |a|) == AllPresent(b) + AllAbsent(total - |b|)
    ensures a == b
  {
    var x := AllPresent(a) + AllAbsent(total - |a|);
    CountUniform(a, total - |a|);
    CountUniform(b, total - |b|);
    CountSplits(AllPresent(a), AllAbsent(total - |a|));
    CountSplits(AllPresent(b), AllAbsent(total - |b|));
    assert forall i :: 0 <= i < |a| ==> x[i] == Present(a[i]) && x[i] == Present(b[i]);
  }

  // ---- Refusals -----------------------------------------------------------

  // The first group only part of which is there, after whole ones.
  predicate PartOf(groups: seq<seq<FieldType>>, m: nat, k: nat, have: nat, need: nat) {
    k < |groups| && 0 < have < need && need == |groups[k]| && m == |Flatten(groups[..k])| + have
  }

  lemma PartOfCons(groups: seq<seq<FieldType>>, m: nat, k: nat, have: nat, need: nat)
    requires groups != [] && |groups[0]| <= m
    ensures PartOf(groups, m, k + 1, have, need) <==> PartOf(groups[1..], m - |groups[0]|, k, have, need)
  {
    if k + 1 < |groups| {
      assert groups[..k + 1][1..] == groups[1..][..k];
    }
  }

  lemma {:induction false} ChecksName(groups: seq<seq<FieldType>>, vs: seq<Value>, g: nat) returns (k: nat)
    requires |vs| <= |Flatten(groups)|
    requires CheckGroups(groups, AllPresent(vs) + AllAbsent(|Flatten(groups)| - |vs|), g).Some?
    ensures var error := CheckGroups(groups, AllPresent(vs) + AllAbsent(|Flatten(groups)| - |vs|), g).value;
            && error.TruncatedVersion? && error.group == g + k
            && PartOf(groups, |vs|, k, error.have, error.need)
    decreases |groups|
  {
    hide AllPresent, AllAbsent, CountPresent, PartOf;
    if groups != [] {
      var n, total := |groups[0]|, |Flatten(groups)|;
      CheckFirst(groups, AllPresent(vs) + AllAbsent(total - |vs|), g);
      PrefixCut(vs, total, n);
      if n <= |vs| {
        var j := ChecksName(groups[1..], vs[n..], g + 1);
        k := j + 1;
        var error := CheckGroups(groups[1..], AllPresent(vs[n..]) + AllAbsent(total - |vs|), g + 1).value;
        PartOfCons(groups, |vs|, j, error.have, error.need);
      } else if |vs| == 0 {
        NoValues(total - n);
        k := ChecksName(groups[1..], [], g + 1);
        var error := CheckGroups(groups[1..], AllPresent([]) + AllAbsent(total - n), g + 1).value;
        NothingPartly(groups[1..], k, error.have, error.need);
      } else {
        k := 0;
        FirstPart(groups, |vs|);
      }
    }
  }

  lemma FirstPart(groups: seq<seq<FieldType>>, m: nat)
    requires groups != [] && 0 < m < |groups[0]|
    ensures PartOf(groups, m, 0, m, |groups[0]|)
  {
    assert groups[..0] == [];
  }

  lemma NothingPartly(groups: seq<seq<FieldType>>, k: nat, have: nat, need: nat)
    ensures !PartOf(groups, 0, k, have, need)
  {
  }

  /** What a refusal reports: the two lengths; or that the discriminator differs; or that the bytes are not the fields';
      or which group is there in part, with how many of its fields, right after whole groups. */
  lemma {:induction false} RefusalsReport(l: Layout, data: seq<Byte>)
    requires Valid(l) && FromAccountData(l, data).Err?
    ensures match FromAccountData(l, data).error
            case TooShort(len, need) => |l.discriminator| == 8 && len == |data| < 8 && need == 8
            case Discriminator => |l.discriminator| <= |data| && !(l.discriminator <= data)
            case Malformed => l.discriminator <= data && !Readable(l, data)
            case TruncatedVersion(g, have, need) =>
              && l.discriminator <= data && Readable(l, data)
              && exists vs :: ReadAs(l, data, vs) && PartOf(l.groups, |vs|, g, have, need)
  {
    hide DecodeAll, ReadLegacies, Flatten, CheckGroups, PartOf, AllPresent, AllAbsent;
    var n := |l.discriminator|;
    if n <= |data| {
      assert data[..n] == l.discriminator <==> l.discriminator <= data;
      if l.discriminator <= data && Readable(l, data) {
        var rest := DecodeAll(l.required, data[n..]).value.1;
        var vs := ReadIsPrefix(Flatten(l.groups), rest);
        ReadLegaciesLength(Flatten(l.groups), rest);
        var k := ChecksName(l.groups, vs, 0);
        assert ReadAs(l, data, vs);
      }
    }
  }

  // The bytes after the discriminator decode as far as the fields go.
  predicate Readable(l: Layout, data: seq<Byte>)
    requires l.discriminator <= data
  {
    var fields := DecodeAll(l.required, data[|l.discriminator|..]);
    fields.Some? && ReadLegacies(Flatten(l.groups), fields.value.1).Some?
  }

  // The version-added fields among them are vs, and no more.
  predicate ReadAs(l: Layout, data: seq<Byte>, vs: seq<Value>)
    requires l.discriminator <= data && Readable(l, data)
  {
    var rest := DecodeAll(l.required, data[|l.discriminator|..]).value.1;
    && |vs| <= |Flatten(l.groups)|
    && ReadLegacies(Flatten(l.groups), rest).value.0 == AllPresent(vs) + AllAbsent(|Flatten(l.groups)| - |vs|)
  }
}
