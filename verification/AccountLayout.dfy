/** Account layouts: the parser and builder a layout schema stands for. */
module AccountLayout {
  import opened Wrappers
  import opened Logs

  // A declared slot always exists; an absent optional one holds the program's own id.
  datatype Slot = RequiredSlot(access: Access) | OptionalSlot(access: Access)

  // What an instruction asks of an account.
  datatype Access = Access(writable: bool, signer: bool)

  datatype Meta = Meta(key: Pubkey, access: Access)

  const READONLY := Access(false, false)
  const WRITABLE := Access(true, false)

  datatype FieldValue = Key(key: Pubkey) | Maybe(held: Option<Pubkey>)

  // An account past the declared list: present, or its slot does not exist.
  datatype Conditional = Absent | Present(key: Pubkey)

  // The derived address of a resolved account, from the fields bound before it.
  type Derivation = (seq<FieldValue>, seq<Conditional>) -> Pubkey

  datatype Resolved = Resolved(derive: Derivation, access: Access)

  // Either conditionals (a positional prefix) or resolved (found by derivation), never both; then the rest.
  datatype Layout = Layout(declared: seq<Slot>, programId: Pubkey, conditionals: nat, resolved: seq<Resolved>,
                           hasRest: bool, restWritable: bool)

  datatype Accounts = Accounts(declared: seq<FieldValue>, conditionals: seq<Conditional>, resolved: seq<Conditional>,
                               rest: seq<Pubkey>)

  datatype ParseError =
    | NotEnoughAccounts(expected: nat, actual: nat)
    | UnmodelledAccounts(modelled: int, actual: nat, first: Pubkey)

  // Positions among the conditionals; the rest counts as the one after the last.
  datatype SequenceError = SequenceError(absent: nat, present: nat)

  ghost predicate Exclusive(l: Layout) {
    l.resolved == [] || l.conditionals == 0
  }

  // What the struct's types say about a value.
  ghost predicate WellTyped(l: Layout, v: Accounts) {
    && |v.declared| == |l.declared|
    && (forall i :: 0 <= i < |l.declared| ==> (v.declared[i].Key? <==> l.declared[i].RequiredSlot?))
    && |v.conditionals| == l.conditionals
    && |v.resolved| == |l.resolved|
    && (!l.hasRest ==> v.rest == [])
  }

  // ---- Reading ------------------------------------------------------------

  function ReadSlot(slot: Slot, programId: Pubkey, key: Pubkey): FieldValue {
    match slot
    case RequiredSlot(_) => Key(key)
    case OptionalSlot(_) => Maybe(if key == programId then None else Some(key))
  }

  function ReadDeclared(l: Layout, keys: seq<Pubkey>): (r: seq<FieldValue>)
    requires |l.declared| <= |keys|
    ensures |r| == |l.declared|
  {
    seq(|l.declared|, i requires 0 <= i < |l.declared| => ReadSlot(l.declared[i], l.programId, keys[i]))
  }

  function Take(n: nat, tail: seq<Pubkey>): (r: seq<Conditional>)
    ensures |r| == n
  {
    seq(n, i requires 0 <= i < n => if i < |tail| then Present(tail[i]) else Absent)
  }

  function Drop(n: nat, tail: seq<Pubkey>): seq<Pubkey> {
    if n <= |tail| then tail[n..] else []
  }

  function FirstIndex(key: Pubkey, tail: seq<Pubkey>): (r: Option<nat>)
    ensures r.Some? ==> r.value < |tail| && tail[r.value] == key && key !in tail[..r.value]
    ensures r.None? ==> key !in tail
  {
    if tail == [] then None
    else if tail[0] == key then Some(0)
    else
      match FirstIndex(key, tail[1..])
      case None => None
      case Some(i) => assert tail[..i + 1] == [tail[0]] + tail[1..][..i]; Some(i + 1)
  }

  function Remove(tail: seq<Pubkey>, i: nat): (r: seq<Pubkey>)
    requires i < |tail|
    ensures |r| == |tail| - 1 && forall j :: 0 <= j < |r| ==> r[j] == tail[if j < i then j else j + 1]
  {
    tail[..i] + tail[i + 1..]
  }

  // Derive each address in turn and take its first occurrence out of the tail.
  function ResolveAll(derivations: seq<Resolved>, declared: seq<FieldValue>, earlier: seq<Conditional>,
                      tail: seq<Pubkey>)
    : (r: (seq<Conditional>, seq<Pubkey>))
    ensures |r.0| == |derivations|
    decreases |derivations|
  {
    if derivations == [] then ([], tail)
    else
      var want := derivations[0].derive(declared, earlier);
      var (found, left) :=
        match FirstIndex(want, tail)
        case Some(i) => (Present(want), Remove(tail, i))
        case None => (Absent, tail);
      var (more, rest) := ResolveAll(derivations[1..], declared, earlier + [found], left);
      ([found] + more, rest)
  }

  function Claim(l: Layout, v: Accounts, left: seq<Pubkey>, total: nat): Result<Accounts, ParseError> {
    if l.hasRest then Result.Ok(v.(rest := left))
    else if left == [] then Result.Ok(v)
    else Err(UnmodelledAccounts(total - |left|, total, left[0]))
  }

  function Parse(l: Layout, keys: seq<Pubkey>): Result<Accounts, ParseError> {
    var n := |l.declared|;
    if |keys| < n then Err(NotEnoughAccounts(n, |keys|))
    else
      var declared, tail := ReadDeclared(l, keys), keys[n..];
      var conditionals := Take(l.conditionals, tail);
      var (resolved, left) := ResolveAll(l.resolved, declared, [], Drop(l.conditionals, tail));
      Claim(l, Accounts(declared, conditionals, resolved, []), left, |keys|)
  }

  method DrainDeclared(l: Layout, keys: seq<Pubkey>) returns (declared: seq<FieldValue>)
    ensures if |l.declared| <= |keys| then declared == ReadDeclared(l, keys) else |declared| == |keys|
  {
    declared := [];
    while |declared| < |l.declared| && |declared| < |keys|
      invariant |declared| <= |l.declared| && |declared| <= |keys|
      invariant forall i :: 0 <= i < |declared| ==> declared[i] == ReadSlot(l.declared[i], l.programId, keys[i])
    {
      var cursor := |declared|;
      declared := declared + [ReadSlot(l.declared[cursor], l.programId, keys[cursor])];
    }
  }

  // A dry cursor stays dry, so what is present is a prefix.
  method DrainConditionals(n: nat, past: seq<Pubkey>) returns (conditionals: seq<Conditional>, left: seq<Pubkey>)
    ensures conditionals == Take(n, past) && left == Drop(n, past)
  {
    conditionals, left := [], past;
    while |conditionals| < n
      invariant |conditionals| <= n
      invariant left == Drop(|conditionals|, past)
      invariant forall i :: 0 <= i < |conditionals| ==>
                conditionals[i] == if i < |past| then Present(past[i]) else Absent
    {
      if left != [] {
        conditionals, left := conditionals + [Present(left[0])], left[1..];
      } else {
        conditionals := conditionals + [Absent];
      }
    }
  }

  method SearchTail(derivations: seq<Resolved>, declared: seq<FieldValue>, past: seq<Pubkey>)
    returns (resolved: seq<Conditional>, tail: seq<Pubkey>)
    ensures (resolved, tail) == ResolveAll(derivations, declared, [], past)
  {
    hide ResolveAll;
    resolved, tail := [], past;
    assert derivations[0..] == derivations;
    ghost var whole := ResolveAll(derivations, declared, [], past);
    while |resolved| < |derivations|
      invariant |resolved| <= |derivations|
      invariant var r := ResolveAll(derivations[|resolved|..], declared, resolved, tail);
                whole.0 == resolved + r.0 && whole.1 == r.1
    {
      ResolveStep(derivations, declared, resolved, tail);
      var want := derivations[|resolved|].derive(declared, resolved);
      var at := FirstIndex(want, tail);
      if at.Some? {
        tail := Remove(tail, at.value);
        resolved := resolved + [Present(want)];
      } else {
        resolved := resolved + [Absent];
      }
    }
    assert derivations[|resolved|..] == [];
    ResolveNone(declared, resolved, tail);
    assert resolved + [] == resolved;
  }

  lemma ResolveNone(declared: seq<FieldValue>, earlier: seq<Conditional>, tail: seq<Pubkey>)
    ensures ResolveAll([], declared, earlier, tail) == ([], tail)
  {
  }

  lemma ResolveStep(derivations: seq<Resolved>, declared: seq<FieldValue>, resolved: seq<Conditional>,
                    tail: seq<Pubkey>)
    requires |resolved| < |derivations|
    ensures var want := derivations[|resolved|].derive(declared, resolved);
            var at := FirstIndex(want, tail);
            var found := if at.Some? then Present(want) else Absent;
            var left := if at.Some? then Remove(tail, at.value) else tail;
            var r, r' := ResolveAll(derivations[|resolved|..], declared, resolved, tail),
                         ResolveAll(derivations[|resolved| + 1..], declared, resolved + [found], left);
            resolved + r.0 == (resolved + [found]) + r'.0 && r.1 == r'.1
  {
    hide FirstIndex, Remove;
    var ds, want := derivations[|resolved|..], derivations[|resolved|].derive(declared, resolved);
    assert ds[0] == derivations[|resolved|] && ds[1..] == derivations[|resolved| + 1..];
    var found := if FirstIndex(want, tail).Some? then Present(want) else Absent;
    var more := ResolveAll(ds, declared, resolved, tail).0;
    assert more == [found] + more[1..];
    assert resolved + more == (resolved + [found]) + more[1..];
  }

  /** The generated parser: one cursor drained in declaration order, then the tail searched and shortened. */
  method FromPubkeys(l: Layout, keys: seq<Pubkey>) returns (r: Result<Accounts, ParseError>)
    ensures r == Parse(l, keys)
  {
    var total := |keys|;
    var declared := DrainDeclared(l, keys);
    if |declared| < |l.declared| {
      return Err(NotEnoughAccounts(|l.declared|, total));
    }
    var conditionals, left := DrainConditionals(l.conditionals, keys[|l.declared|..]);
    var resolved, tail := SearchTail(l.resolved, declared, left);
    var v := Accounts(declared, conditionals, resolved, []);
    if l.hasRest {
      return Result.Ok(v.(rest := tail));
    }
    if tail != [] {
      return Err(UnmodelledAccounts(total - |tail|, total, tail[0]));
    }
    return Result.Ok(v);
  }

  // ---- Building -----------------------------------------------------------

  function WriteField(programId: Pubkey, v: FieldValue): Pubkey {
    match v
    case Key(key) => key
    case Maybe(Some(key)) => key
    case Maybe(None) => programId
  }

  function WriteDeclared(programId: Pubkey, vs: seq<FieldValue>): (r: seq<Pubkey>)
    ensures |r| == |vs|
  {
    seq(|vs|, i requires 0 <= i < |vs| => WriteField(programId, vs[i]))
  }

  function Presents(cs: seq<Conditional>): seq<Pubkey> {
    if cs == [] then []
    else (if cs[0].Present? then [cs[0].key] else []) + Presents(cs[1..])
  }

  // The keys on the wire: an absent conditional or resolved account occupies nothing.
  function Emit(l: Layout, v: Accounts): seq<Pubkey> {
    WriteDeclared(l.programId, v.declared) + Presents(v.conditionals) + Presents(v.resolved) + v.rest
  }

  // A sentinel asks for nothing; a value gets what its slot declares.
  function WriteMeta(l: Layout, i: nat, v: FieldValue): Meta
    requires i < |l.declared|
  {
    Meta(WriteField(l.programId, v), if v == Maybe(None) then READONLY else l.declared[i].access)
  }

  function DeclaredMetas(l: Layout, vs: seq<FieldValue>): (r: seq<Meta>)
    requires |vs| <= |l.declared|
    ensures |r| == |vs|
  {
    seq(|vs|, i requires 0 <= i < |vs| => WriteMeta(l, i, vs[i]))
  }

  function PresentMetas(cs: seq<Conditional>, accesses: seq<Access>): seq<Meta>
    requires |cs| == |accesses|
  {
    if cs == [] then []
    else (if cs[0].Present? then [Meta(cs[0].key, accesses[0])] else []) + PresentMetas(cs[1..], accesses[1..])
  }

  // A conditional is always writable and never signs.
  function ConditionalAccesses(l: Layout): (r: seq<Access>)
    ensures |r| == l.conditionals
  {
    seq(l.conditionals, i => WRITABLE)
  }

  function ResolvedAccesses(l: Layout): (r: seq<Access>)
    ensures |r| == |l.resolved|
  {
    seq(|l.resolved|, i requires 0 <= i < |l.resolved| => l.resolved[i].access)
  }

  // The whole rest shares one privilege, and never signs.
  function RestAccess(l: Layout): Access {
    Access(l.restWritable, false)
  }

  function RestMetas(keys: seq<Pubkey>, access: Access): (r: seq<Meta>)
    ensures |r| == |keys|
  {
    seq(|keys|, i requires 0 <= i < |keys| => Meta(keys[i], access))
  }

  function EmitMetas(l: Layout, v: Accounts): seq<Meta>
    requires WellTyped(l, v)
  {
    DeclaredMetas(l, v.declared) + PresentMetas(v.conditionals, ConditionalAccesses(l))
    + PresentMetas(v.resolved, ResolvedAccesses(l)) + RestMetas(v.rest, RestAccess(l))
  }

  function KeysOf(metas: seq<Meta>): (r: seq<Pubkey>)
    ensures |r| == |metas|
  {
    seq(|metas|, i requires 0 <= i < |metas| => metas[i].key)
  }

  lemma KeysAppend(a: seq<Meta>, b: seq<Meta>)
    ensures KeysOf(a + b) == KeysOf(a) + KeysOf(b)
  {
  }

  lemma {:induction false} PresentKeys(cs: seq<Conditional>, accesses: seq<Access>)
    requires |cs| == |accesses|
    ensures KeysOf(PresentMetas(cs, accesses)) == Presents(cs)
    decreases |cs|
  {
    if cs != [] {
      hide KeysOf;
      PresentKeys(cs[1..], accesses[1..]);
      var first := if cs[0].Present? then [Meta(cs[0].key, accesses[0])] else [];
      KeysAppend(first, PresentMetas(cs[1..], accesses[1..]));
      OneKey(cs[0], accesses[0]);
    }
  }

  lemma OneKey(c: Conditional, access: Access)
    ensures KeysOf(if c.Present? then [Meta(c.key, access)] else []) == if c.Present? then [c.key] else []
  {
  }

  /** The metas carry exactly the emitted keys, in order: privileges never move or hide an account. */
  lemma {:induction false} MetaKeys(l: Layout, v: Accounts)
    requires WellTyped(l, v)
    ensures KeysOf(EmitMetas(l, v)) == Emit(l, v)
  {
    hide WriteField;
    var a, b := DeclaredMetas(l, v.declared), PresentMetas(v.conditionals, ConditionalAccesses(l));
    var c, d := PresentMetas(v.resolved, ResolvedAccesses(l)), RestMetas(v.rest, RestAccess(l));
    assert KeysOf(a) == WriteDeclared(l.programId, v.declared);
    PresentKeys(v.conditionals, ConditionalAccesses(l));
    PresentKeys(v.resolved, ResolvedAccesses(l));
    assert KeysOf(d) == v.rest;
    KeysAppend(a + b + c, d);
    KeysAppend(a + b, c);
    KeysAppend(a, b);
  }

  // A field of the value that accounts for a meta, with the privileges it declares.
  ghost predicate Grants(l: Layout, v: Accounts, m: Meta)
    requires WellTyped(l, v)
  {
    || (exists i :: 0 <= i < |v.declared|
                    && v.declared[i] in {Key(m.key), Maybe(Some(m.key))} && m.access == l.declared[i].access)
    || (Maybe(None) in v.declared && m.key == l.programId && !m.access.writable && !m.access.signer)
    || (Present(m.key) in v.conditionals && m.access.writable && !m.access.signer)
    || (exists i :: 0 <= i < |v.resolved| && v.resolved[i] == Present(m.key) && m.access == l.resolved[i].access)
    || (m.key in v.rest && m.access.writable == l.restWritable && !m.access.signer)
  }

  lemma {:induction false} PresentMeta(cs: seq<Conditional>, accesses: seq<Access>, m: Meta) returns (i: nat)
    requires |cs| == |accesses| && m in PresentMetas(cs, accesses)
    ensures i < |cs| && cs[i] == Present(m.key) && accesses[i] == m.access
    decreases |cs|
  {
    if cs[0].Present? && m == Meta(cs[0].key, accesses[0]) {
      i := 0;
    } else {
      var j := PresentMeta(cs[1..], accesses[1..], m);
      i := j + 1;
    }
  }

  /** No privilege is made up: every meta sent has the privileges declared for a field of the value holding that key,
      and an absent optional's sentinel has none. */
  lemma {:induction false} MetaAccess(l: Layout, v: Accounts, m: Meta)
    requires WellTyped(l, v) && m in EmitMetas(l, v)
    ensures Grants(l, v, m)
  {
    if m in DeclaredMetas(l, v.declared) {
      var i :| 0 <= i < |v.declared| && m == WriteMeta(l, i, v.declared[i]);
    } else if m in PresentMetas(v.conditionals, ConditionalAccesses(l)) {
      var i := PresentMeta(v.conditionals, ConditionalAccesses(l), m);
    } else if m in PresentMetas(v.resolved, ResolvedAccesses(l)) {
      var i := PresentMeta(v.resolved, ResolvedAccesses(l), m);
    }
  }

  // Where a present account stands among the present ones, and with what.
  lemma {:induction false} PresentMetaAt(cs: seq<Conditional>, accesses: seq<Access>, i: nat)
    requires |cs| == |accesses| && i < |cs| && cs[i].Present?
    ensures var metas, at := PresentMetas(cs, accesses), |Presents(cs[..i])|;
            at < |metas| == |Presents(cs)| && metas[at] == Meta(cs[i].key, accesses[i])
    decreases |cs|
  {
    PresentKeys(cs, accesses);
    if i > 0 {
      PresentMetaAt(cs[1..], accesses[1..], i - 1);
      assert cs[..i][1..] == cs[1..][..i - 1];
    }
  }

  lemma {:induction false} PresentMetaWhere(cs: seq<Conditional>, accesses: seq<Access>, at: nat) returns (i: nat)
    requires |cs| == |accesses| && at < |PresentMetas(cs, accesses)|
    ensures i < |cs| && cs[i].Present? && at == |Presents(cs[..i])|
    ensures PresentMetas(cs, accesses)[at] == Meta(cs[i].key, accesses[i])
    decreases |cs|
  {
    if cs[0].Present? && at == 0 {
      i := 0;
    } else {
      var n := if cs[0].Present? then 1 else 0;
      var j := PresentMetaWhere(cs[1..], accesses[1..], at - n);
      i := j + 1;
      assert cs[..i][1..] == cs[1..][..j];
    }
  }

  /** Slot by slot: a declared one has its declared privileges, or none at all when it holds the sentinel; then come
      the present conditionals, writable and unsigned, the present resolved accounts as declared, and the rest, all
      writable or all not, and unsigned. */
  lemma {:induction false} MetaAt(l: Layout, v: Accounts, at: nat)
    requires WellTyped(l, v) && at < |EmitMetas(l, v)|
    ensures var m, n, a, b := EmitMetas(l, v)[at], |v.declared|, |Presents(v.conditionals)|, |Presents(v.resolved)|;
            && |EmitMetas(l, v)| == n + a + b + |v.rest|
            && (at < n ==>
                  match v.declared[at]
                  case Key(k) => m == Meta(k, l.declared[at].access)
                  case Maybe(Some(k)) => m == Meta(k, l.declared[at].access)
                  case Maybe(None) => m.key == l.programId && !m.access.writable && !m.access.signer)
            && (n <= at < n + a ==>
                  m.key == Presents(v.conditionals)[at - n] && m.access.writable && !m.access.signer)
            && (n + a <= at < n + a + b ==>
                  exists i :: 0 <= i < |v.resolved| && at - n - a == |Presents(v.resolved[..i])|
                              && v.resolved[i] == Present(m.key) && m.access == l.resolved[i].access)
            && (n + a + b <= at ==>
                  && m.key == v.rest[at - n - a - b]
                  && m.access.writable == l.restWritable && !m.access.signer)
  {
    var n, cs, rs := |v.declared|, ConditionalAccesses(l), ResolvedAccesses(l);
    PresentKeys(v.conditionals, cs);
    PresentKeys(v.resolved, rs);
    var a, b := |Presents(v.conditionals)|, |Presents(v.resolved)|;
    assert |PresentMetas(v.conditionals, cs)| == |KeysOf(PresentMetas(v.conditionals, cs))|;
    assert |PresentMetas(v.resolved, rs)| == |KeysOf(PresentMetas(v.resolved, rs))|;
    if n <= at < n + a {
      var i := PresentMetaWhere(v.conditionals, cs, at - n);
      assert KeysOf(PresentMetas(v.conditionals, cs))[at - n] == v.conditionals[i].key;
    } else if n + a <= at < n + a + b {
      var i := PresentMetaWhere(v.resolved, rs, at - n - a);
    }
  }

  method ToAccountMetas(l: Layout, v: Accounts) returns (metas: seq<Meta>)
    requires WellTyped(l, v)
    ensures metas == EmitMetas(l, v)
    ensures KeysOf(metas) == Emit(l, v)
  {
    metas := [];
    for i := 0 to |v.declared|
      invariant metas == DeclaredMetas(l, v.declared[..i])
    {
      metas := metas + [WriteMeta(l, i, v.declared[i])];
    }
    assert v.declared[..|v.declared|] == v.declared;
    metas := PushPresents(metas, v.conditionals, ConditionalAccesses(l));
    metas := PushPresents(metas, v.resolved, ResolvedAccesses(l));
    metas := metas + RestMetas(v.rest, RestAccess(l));
    MetaKeys(l, v);
  }

  lemma {:induction false} PresentMetasLast(cs: seq<Conditional>, accesses: seq<Access>, i: nat)
    requires i < |cs| == |accesses|
    ensures PresentMetas(cs[..i + 1], accesses[..i + 1])
         == PresentMetas(cs[..i], accesses[..i]) + if cs[i].Present? then [Meta(cs[i].key, accesses[i])] else []
    decreases i
  {
    if i > 0 {
      PresentMetasLast(cs[1..], accesses[1..], i - 1);
      assert cs[..i + 1][1..] == cs[1..][..i] && accesses[..i + 1][1..] == accesses[1..][..i];
      assert cs[..i][1..] == cs[1..][..i - 1] && accesses[..i][1..] == accesses[1..][..i - 1];
    }
  }

  method PushPresents(metas: seq<Meta>, cs: seq<Conditional>, accesses: seq<Access>) returns (r: seq<Meta>)
    requires |cs| == |accesses|
    ensures r == metas + PresentMetas(cs, accesses)
  {
    hide PresentMetas;
    r := metas;
    NothingPresentYet(cs, accesses);
    for i := 0 to |cs|
      invariant r == metas + PresentMetas(cs[..i], accesses[..i])
    {
      PresentMetasLast(cs, accesses, i);
      if cs[i].Present? {
        r := r + [Meta(cs[i].key, accesses[i])];
      }
    }
    assert cs[..|cs|] == cs && accesses[..|cs|] == accesses;
  }

  lemma NothingPresentYet(cs: seq<Conditional>, accesses: seq<Access>)
    ensures PresentMetas(cs[..0], accesses[..0]) == []
  {
  }

  // Conditionals are a prefix, and the rest sits behind all of them.
  ghost predicate Prefixed(v: Accounts) {
    && (forall e, n :: 0 <= e < n < |v.conditionals| && v.conditionals[n].Present? ==> v.conditionals[e].Present?)
    && (v.rest != [] ==> forall e :: 0 <= e < |v.conditionals| ==> v.conditionals[e].Present?)
  }

  ghost predicate Hole(v: Accounts, err: SequenceError) {
    && err.absent < err.present <= |v.conditionals|
    && v.conditionals[err.absent].Absent?
    && if err.present < |v.conditionals| then v.conditionals[err.present].Present? else v.rest != []
  }

  /** The checked builder: it succeeds exactly on prefixes; a refusal names the first present conditional with a hole
      before it, and the first such hole, or else the rest and the last conditional. */
  method TryToAccountMetas(l: Layout, v: Accounts) returns (r: Result<seq<Meta>, SequenceError>)
    requires WellTyped(l, v)
    ensures r.Ok? <==> Prefixed(v)
    ensures r.Ok? ==> r.value == EmitMetas(l, v) && KeysOf(r.value) == Emit(l, v)
    ensures r.Err? ==> Hole(v, r.error)
    ensures r.Err? ==>
              forall e, n :: 0 <= e < n < r.error.present && v.conditionals[n].Present? ==> v.conditionals[e].Present?
    ensures r.Err? ==> if r.error.present < |v.conditionals|
                       then forall e :: 0 <= e < r.error.absent ==> v.conditionals[e].Present?
                       else r.error.absent == |v.conditionals| - 1
  {
    for n := 0 to |v.conditionals|
      invariant forall e, m :: 0 <= e < m < n && v.conditionals[m].Present? ==> v.conditionals[e].Present?
    {
      for e := 0 to n
        invariant v.conditionals[n].Present? ==> forall d :: 0 <= d < e ==> v.conditionals[d].Present?
      {
        if v.conditionals[n].Present? && !v.conditionals[e].Present? {
          return Err(SequenceError(e, n));
        }
      }
    }
    if l.hasRest && |v.conditionals| > 0 {
      if v.rest != [] && !v.conditionals[|v.conditionals| - 1].Present? {
        return Err(SequenceError(|v.conditionals| - 1, |v.conditionals|));
      }
    }
    var metas := ToAccountMetas(l, v);
    return Result.Ok(metas);
  }
}
