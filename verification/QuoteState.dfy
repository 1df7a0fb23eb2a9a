/** Quote assembly and its dependency declaration, generated from one field list. */
module QuoteState {
  import opened Wrappers
  import opened Logs
  import opened Ingest
  import opened VersionedMap
  import opened Filters

  // A keyed field's address may use the root only: the same expression is emitted where nothing else is in scope.
  datatype Source<!V> =
    | Keyed(tag: nat, key: V -> Pubkey, delivery: Delivery)
    | Singleton(id: nat)
    | Computed(value: seq<V> -> V)

  // The root comes first; tag says which account type a field is.
  datatype Schema<!V> = Schema(rootTag: nat, fields: seq<Source<V>>)

  datatype Account = Account(tag: nat, key: Pubkey)

  datatype Cache<V> = Cache(accounts: map<Account, Versioned<V>>, singletons: map<nat, V>)

  function Entry<V>(c: Cache<V>, a: Account): Option<Versioned<V>> {
    if a in c.accounts then Some(c.accounts[a]) else None
  }

  function Read<V>(c: Cache<V>, a: Account, slot: nat): Option<V> {
    match LookupAt(Entry(c, a), slot)
    case None => None
    case Some(o) => Some(o.state)
  }

  function ReadField<V>(c: Cache<V>, f: Source<V>, env: seq<V>, slot: nat): Option<V>
    requires env != []
  {
    match f
    case Keyed(tag, key, _) => Read(c, Account(tag, key(env[0])), slot)
    case Singleton(id) => if id in c.singletons then Some(c.singletons[id]) else None
    case Computed(value) => Some(value(env))
  }

  // Field order is read order, and the first missing account ends it.
  function ReadAll<V>(c: Cache<V>, fields: seq<Source<V>>, env: seq<V>, slot: nat): Option<seq<V>>
    requires env != []
    decreases |fields|
  {
    if fields == [] then Some(env)
    else
      match ReadField(c, fields[0], env, slot)
      case None => None
      case Some(v) => ReadAll(c, fields[1..], env + [v], slot)
  }

  // The bundle is the root followed by the fields.
  function Assemble<V>(schema: Schema<V>, c: Cache<V>, pool: Pubkey, slot: nat): Option<seq<V>> {
    match Read(c, Account(schema.rootTag, pool), slot)
    case None => None
    case Some(root) => ReadAll(c, schema.fields, [root], slot)
  }

  method AssembleFrom<V>(schema: Schema<V>, c: Cache<V>, pool: Pubkey, slot: nat) returns (r: Option<seq<V>>)
    ensures r == Assemble(schema, c, pool, slot)
  {
    var root := Read(c, Account(schema.rootTag, pool), slot);
    if root.None? {
      return None;
    }
    var env := [root.value];
    for i := 0 to |schema.fields|
      invariant env != []
      invariant ReadAll(c, schema.fields, [root.value], slot) == ReadAll(c, schema.fields[i..], env, slot)
    {
      assert schema.fields[i..][1..] == schema.fields[i + 1..];
      var v := ReadField(c, schema.fields[i], env, slot);
      if v.None? {
        return None;
      }
      env := env + [v.value];
    }
    return Some(env);
  }

  // What stands at position `at` of a bundle, given what stands before it.
  predicate FieldHolds<V(==)>(c: Cache<V>, f: Source<V>, r: seq<V>, at: nat, slot: nat)
    requires 0 < at < |r|
  {
    match f
    case Keyed(tag, key, _) => Read(c, Account(tag, key(r[0])), slot) == Some(r[at])
    case Singleton(id) => id in c.singletons && r[at] == c.singletons[id]
    case Computed(value) => r[at] == value(r[..at])
  }

  // The fields stand in the bundle from position n on.
  ghost predicate AllHold<V>(c: Cache<V>, fields: seq<Source<V>>, r: seq<V>, n: nat, slot: nat) {
    0 < n && |r| == n + |fields| && forall j :: 0 <= j < |fields| ==> FieldHolds(c, fields[j], r, n + j, slot)
  }

  lemma {:induction false} ReadsHold<V>(c: Cache<V>, fields: seq<Source<V>>, env: seq<V>, slot: nat, r: seq<V>)
    requires env != []
    ensures ReadAll(c, fields, env, slot) == Some(r) <==> env <= r && AllHold(c, fields, r, |env|, slot)
    decreases |fields|
  {
    hide AllHold, FieldHolds, ReadField;
    if fields == [] {
      NoneHold(c, fields, env, r, slot);
    } else {
      var v := ReadField(c, fields[0], env, slot);
      AllHoldCons(c, fields, env, r, slot);
      if v.Some? {
        ReadsHold(c, fields[1..], env + [v.value], slot, r);
        OneMore(env, v.value, r);
      }
    }
  }

  lemma NoneHold<V>(c: Cache<V>, fields: seq<Source<V>>, env: seq<V>, r: seq<V>, slot: nat)
    requires env != [] && fields == []
    ensures r == env <==> env <= r && AllHold(c, fields, r, |env|, slot)
  {
  }

  lemma OneMore<V>(env: seq<V>, v: V, r: seq<V>)
    ensures env + [v] <= r <==> env <= r && |env| < |r| && r[|env|] == v
  {
    if env <= r && |env| < |r| && r[|env|] == v {
      assert r[..|env| + 1] == env + [v];
    }
  }

  lemma AllHoldCons<V>(c: Cache<V>, fields: seq<Source<V>>, env: seq<V>, r: seq<V>, slot: nat)
    requires fields != [] && env != []
    ensures env <= r && AllHold(c, fields, r, |env|, slot)
       <==> env <= r && |env| < |r| && ReadField(c, fields[0], env, slot) == Some(r[|env|])
            && AllHold(c, fields[1..], r, |env| + 1, slot)
  {
    hide ReadField, FieldHolds;
    if env <= r && |r| == |env| + |fields| {
      FirstHolds(c, fields[0], env, slot, r);
      RestHolds(c, fields, r, |env|, slot);
    }
  }

  lemma FirstHolds<V>(c: Cache<V>, f: Source<V>, env: seq<V>, slot: nat, r: seq<V>)
    requires env != [] && |env| < |r| && r[..|env|] == env
    ensures FieldHolds(c, f, r, |env|, slot) <==> ReadField(c, f, env, slot) == Some(r[|env|])
  {
    assert r[0] == env[0];
  }

  lemma RestHolds<V>(c: Cache<V>, fields: seq<Source<V>>, r: seq<V>, n: nat, slot: nat)
    requires fields != [] && 0 < n && |r| == n + |fields|
    ensures (forall j :: 0 <= j < |fields[1..]| ==> FieldHolds(c, fields[1..][j], r, n + 1 + j, slot))
       <==> forall j :: 1 <= j < |fields| ==> FieldHolds(c, fields[j], r, n + j, slot)
  {
    if forall j :: 0 <= j < |fields[1..]| ==> FieldHolds(c, fields[1..][j], r, n + 1 + j, slot) {
      forall j | 1 <= j < |fields|
        ensures FieldHolds(c, fields[j], r, n + j, slot)
      {
        assert FieldHolds(c, fields[1..][j - 1], r, n + 1 + (j - 1), slot);
      }
    }
    if forall j :: 1 <= j < |fields| ==> FieldHolds(c, fields[j], r, n + j, slot) {
      forall j | 0 <= j < |fields[1..]|
        ensures FieldHolds(c, fields[1..][j], r, n + 1 + j, slot)
      {
        assert FieldHolds(c, fields[j + 1], r, n + (j + 1), slot);
      }
    }
  }

  /** Which bundle a quote is, exactly: its root as read, and behind it each field in order, a keyed one as its account
      reads at the slot, a singleton as cached, a computed one as its expression of everything before it. */
  lemma {:induction false} AssembledIff<V>(schema: Schema<V>, c: Cache<V>, pool: Pubkey, slot: nat, r: seq<V>)
    ensures Assemble(schema, c, pool, slot) == Some(r)
       <==> |r| == 1 + |schema.fields| && Read(c, Account(schema.rootTag, pool), slot) == Some(r[0])
            && forall j :: 0 <= j < |schema.fields| ==> FieldHolds(c, schema.fields[j], r, 1 + j, slot)
  {
    hide FieldHolds;
    var root := Read(c, Account(schema.rootTag, pool), slot);
    if root.Some? {
      ReadsHold(c, schema.fields, [root.value], slot, r);
      assert [] + [root.value] == [root.value];
      OneMore([], root.value, r);
    }
  }

  // ---- Declaration --------------------------------------------------------

  function Declared<V>(fields: seq<Source<V>>, root: V): seq<Dependency> {
    if fields == [] then []
    else
      var first := if fields[0].Keyed? then [Dependency(fields[0].key(root), fields[0].delivery)] else [];
      first + Declared(fields[1..], root)
  }

  function DependentAccounts<V>(schema: Schema<V>, root: V): seq<Dependency> {
    Declared(schema.fields, root)
  }

  // Every account the fields read, whatever the cache holds.
  ghost function ReadSet<V>(fields: seq<Source<V>>, root: V): set<Account> {
    set f | f in fields && f.Keyed? :: Account(f.tag, f.key(root))
  }

  lemma {:induction false} DeclaredIff<V>(fields: seq<Source<V>>, root: V, d: Dependency)
    ensures d in Declared(fields, root) <==>
            exists f :: f in fields && f.Keyed? && d == Dependency(f.key(root), f.delivery)
    decreases |fields|
  {
    if fields != [] {
      DeclaredIff(fields[1..], root, d);
      assert fields == [fields[0]] + fields[1..];
    }
  }

  function IsKeyed<V>(): Source<V> -> bool {
    (f: Source<V>) => f.Keyed?
  }

  function DependencyOf<V>(root: V): Source<V> -> Dependency {
    (f: Source<V>) => if f.Keyed? then Dependency(f.key(root), f.delivery) else Dependency(DEFAULT_KEY, Dynamic)
  }

  /** The declaration is one dependency for each keyed field, in field order. */
  lemma {:induction false} DeclaredInOrder<V(!new)>(fields: seq<Source<V>>, root: V)
    ensures Filtered(fields, IsKeyed(), DependencyOf(root), Declared(fields, root))
    decreases |fields|
  {
    if fields == [] {
      FilteredNone(IsKeyed<V>(), DependencyOf(root));
    } else {
      DeclaredInOrder(fields[1..], root);
      FilteredCons(fields, IsKeyed(), DependencyOf(root), Declared(fields[1..], root));
    }
  }

  /** The declared keys are the keys of the accounts read beyond the root, whatever their type, and each carries the
      delivery class of a field that reads it. */
  lemma {:induction false} DeclaresWhatItReads<V>(schema: Schema<V>, root: V, k: Pubkey)
    ensures (exists d :: d in DependentAccounts(schema, root) && d.pubkey == k)
       <==> exists a :: a in ReadSet(schema.fields, root) && a.key == k
    ensures forall d :: d in DependentAccounts(schema, root) && d.pubkey == k ==>
              exists f :: f in schema.fields && f.Keyed? && f.key(root) == k && f.delivery == d.expectation
    ensures forall f :: f in schema.fields && f.Keyed? && f.key(root) == k ==>
              Dependency(k, f.delivery) in DependentAccounts(schema, root)
  {
    forall d | d in DependentAccounts(schema, root) && d.pubkey == k
      ensures exists f :: f in schema.fields && f.Keyed? && f.key(root) == k && f.delivery == d.expectation
      ensures exists a :: a in ReadSet(schema.fields, root) && a.key == k
    {
      DeclaredIff(schema.fields, root, d);
      var f :| f in schema.fields && f.Keyed? && d == Dependency(f.key(root), f.delivery);
      assert Account(f.tag, f.key(root)) in ReadSet(schema.fields, root);
    }
    forall f | f in schema.fields && f.Keyed? && f.key(root) == k
      ensures Dependency(k, f.delivery) in DependentAccounts(schema, root)
    {
      DeclaredIff(schema.fields, root, Dependency(k, f.delivery));
    }
    if a :| a in ReadSet(schema.fields, root) && a.key == k {
      var f :| f in schema.fields && f.Keyed? && a == Account(f.tag, f.key(root));
      assert Dependency(k, f.delivery) in DependentAccounts(schema, root);
    }
  }

  ghost predicate SameSingletons<V>(c: Cache<V>, c': Cache<V>, fields: seq<Source<V>>) {
    forall f :: f in fields && f.Singleton? ==>
      (f.id in c.singletons <==> f.id in c'.singletons)
      && (f.id in c.singletons ==> c.singletons[f.id] == c'.singletons[f.id])
  }

  lemma {:induction false} ReadAllAgrees<V>(c: Cache<V>, c': Cache<V>, fields: seq<Source<V>>, env: seq<V>, slot: nat)
    requires env != [] && SameSingletons(c, c', fields)
    requires forall a :: a in ReadSet(fields, env[0]) ==> Read(c', a, slot) == Read(c, a, slot)
    ensures ReadAll(c', fields, env, slot) == ReadAll(c, fields, env, slot)
    decreases |fields|
  {
    if fields != [] {
      assert fields == [fields[0]] + fields[1..];
      if fields[0].Keyed? {
        assert Account(fields[0].tag, fields[0].key(env[0])) in ReadSet(fields, env[0]);
      }
      assert forall a :: a in ReadSet(fields[1..], env[0]) ==> a in ReadSet(fields, env[0]);
      var v := ReadField(c, fields[0], env, slot);
      if v.Some? {
        ReadAllAgrees(c, c', fields[1..], env + [v.value], slot);
      }
    }
  }

  /** Nothing undeclared is read: two caches that agree on the root, on the declared accounts as they are read, and on
      the singletons assemble the same bundle or refuse alike, whatever else they hold. */
  lemma {:induction false} DeclaredSuffices<V>(schema: Schema<V>, c: Cache<V>, c': Cache<V>, pool: Pubkey, slot: nat)
    requires SameSingletons(c, c', schema.fields)
    requires var root := Account(schema.rootTag, pool); Read(c', root, slot) == Read(c, root, slot)
    requires var root := Read(c, Account(schema.rootTag, pool), slot);
             root.Some? ==> forall a, d ::
               && a in ReadSet(schema.fields, root.value)
               && d in DependentAccounts(schema, root.value) && d.pubkey == a.key
               ==> Read(c', a, slot) == Read(c, a, slot)
    ensures Assemble(schema, c', pool, slot) == Assemble(schema, c, pool, slot)
  {
    var root := Read(c, Account(schema.rootTag, pool), slot);
    if root.Some? {
      forall a | a in ReadSet(schema.fields, root.value)
        ensures Read(c', a, slot) == Read(c, a, slot)
      {
        var f :| f in schema.fields && f.Keyed? && a == Account(f.tag, f.key(root.value));
        var d := Dependency(a.key, f.delivery);
        DeclaredIff(schema.fields, root.value, d);
        assert d in DependentAccounts(schema, root.value) && d.pubkey == a.key;
      }
      ReadAllAgrees(c, c', schema.fields, [root.value], slot);
    }
  }

  ghost predicate Available<V>(c: Cache<V>, fields: seq<Source<V>>, root: V, slot: nat) {
    && (forall a :: a in ReadSet(fields, root) ==> Read(c, a, slot).Some?)
    && (forall f :: f in fields && f.Singleton? ==> f.id in c.singletons)
  }

  lemma AvailableSplits<V>(c: Cache<V>, fields: seq<Source<V>>, root: V, slot: nat, env: seq<V>)
    requires fields != [] && env != [] && env[0] == root
    ensures Available(c, fields, root, slot)
            <==> ReadField(c, fields[0], env, slot).Some? && Available(c, fields[1..], root, slot)
  {
    assert fields == [fields[0]] + fields[1..];
    if Available(c, fields, root, slot) && fields[0].Keyed? {
      assert Account(fields[0].tag, fields[0].key(root)) in ReadSet(fields, root);
    }
    assert forall a :: a in ReadSet(fields[1..], root) ==> a in ReadSet(fields, root);
    assert forall f :: f in fields[1..] ==> f in fields;
    forall a | a in ReadSet(fields, root)
      ensures a in ReadSet(fields[1..], root) || (fields[0].Keyed? && a == Account(fields[0].tag, fields[0].key(root)))
    {
      var f :| f in fields && f.Keyed? && a == Account(f.tag, f.key(root));
      assert f == fields[0] || f in fields[1..];
    }
  }

  lemma {:induction false} ReadAllIff<V>(c: Cache<V>, fields: seq<Source<V>>, env: seq<V>, slot: nat)
    requires env != []
    ensures ReadAll(c, fields, env, slot).Some? <==> Available(c, fields, env[0], slot)
    decreases |fields|
  {
    if fields != [] {
      AvailableSplits(c, fields, env[0], slot, env);
      var v := ReadField(c, fields[0], env, slot);
      if v.Some? {
        ReadAllIff(c, fields[1..], env + [v.value], slot);
      }
    }
  }

  /** A quote assembles exactly when its root, everything it declares for that root, and its singletons are there. */
  lemma {:induction false} AssembleIff<V>(schema: Schema<V>, c: Cache<V>, pool: Pubkey, slot: nat)
    ensures var root := Read(c, Account(schema.rootTag, pool), slot);
            Assemble(schema, c, pool, slot).Some? <==> root.Some? && Available(c, schema.fields, root.value, slot)
  {
    var root := Read(c, Account(schema.rootTag, pool), slot);
    if root.Some? {
      ReadAllIff(c, schema.fields, [root.value], slot);
    }
  }

  // A bundle with one keyed account and one singleton.
  function TwoFields<V>(key: Pubkey): Schema<V> {
    Schema(0, [Keyed(1, (root: V) => key, Infrequent), Singleton(0)])
  }

  // Every declared account is readable, and the quote refuses all the same: its singleton is not declared.
  lemma {:induction false} SingletonUndeclared<V>(pool: Pubkey, root: V, key: Pubkey, dep: V, slot: nat)
    ensures var schema := TwoFields<V>(key);
            var c := Cache(map[Account(0, pool) := Versioned(Obs(root, slot), []),
                               Account(1, key) := Versioned(Obs(dep, slot), [])], map[]);
            && Read(c, Account(schema.rootTag, pool), slot) == Some(root)
            && DependentAccounts(schema, root) == [Dependency(key, Infrequent)]
            && Read(c, Account(1, key), slot) == Some(dep)
            && Assemble(schema, c, pool, slot) == None
            && Assemble(schema, c.(singletons := map[0 := dep]), pool, slot).Some?
  {
    var schema := TwoFields<V>(key);
    var c := Cache(map[Account(0, pool) := Versioned(Obs(root, slot), []),
                       Account(1, key) := Versioned(Obs(dep, slot), [])], map[]);
    var c' := c.(singletons := map[0 := dep]);
    assert schema.fields[1..] == [Singleton(0)] && schema.fields[1..][1..] == [];
    assert Declared(schema.fields[1..], root) == [];
    AssembleIff(schema, c, pool, slot);
    assert schema.fields[1].Singleton? && schema.fields[1] in schema.fields;
    AssembleIff(schema, c', pool, slot);
    assert forall a :: a in ReadSet(schema.fields, root) ==> a == Account(1, key);
  }

  // ---- Repeatable reads ---------------------------------------------------

  datatype Write<V> = Write(account: Account, obs: Obs<V>)

  // depths: the history depth of each account type.
  function Insert<V>(depths: nat -> nat, c: Cache<V>, w: Write<V>): Cache<V> {
    c.(accounts := c.accounts[w.account := Put(depths(w.account.tag), Entry(c, w.account), w.obs)])
  }

  function InsertAll<V>(depths: nat -> nat, c: Cache<V>, ws: seq<Write<V>>): Cache<V>
    decreases |ws|
  {
    if ws == [] then c else InsertAll(depths, Insert(depths, c, ws[0]), ws[1..])
  }

  // The slot is strictly below what the cache currently holds for the account.
  ghost predicate Past<V>(c: Cache<V>, a: Account, slot: nat) {
    a in c.accounts && slot < c.accounts[a].current.slot
  }

  lemma {:induction false} InsertsKeepPast<V>(depths: nat -> nat, c: Cache<V>, ws: seq<Write<V>>, a: Account, slot: nat)
    requires Past(c, a, slot)
    ensures var c' := InsertAll(depths, c, ws);
            && Past(c', a, slot) && c'.singletons == c.singletons
            && (Read(c', a, slot) == Read(c, a, slot) || Read(c', a, slot) == None)
    decreases |ws|
  {
    if ws != [] {
      var c1 := Insert(depths, c, ws[0]);
      if ws[0].account == a {
        PastReadRepeats(depths(a.tag), c.accounts[a], ws[0].obs, slot);
      }
      InsertsKeepPast(depths, c1, ws[1..], a, slot);
    }
  }

  lemma {:induction false} ReadAllRepeats<V>(c: Cache<V>, c': Cache<V>, fields: seq<Source<V>>, env: seq<V>, slot: nat)
    requires env != [] && c'.singletons == c.singletons
    requires forall a :: a in ReadSet(fields, env[0]) ==>
             Read(c', a, slot) == Read(c, a, slot) || Read(c', a, slot) == None
    ensures ReadAll(c', fields, env, slot) == ReadAll(c, fields, env, slot) || ReadAll(c', fields, env, slot) == None
    decreases |fields|
  {
    if fields != [] {
      if fields[0].Keyed? {
        assert Account(fields[0].tag, fields[0].key(env[0])) in ReadSet(fields, env[0]);
      }
      assert forall a :: a in ReadSet(fields[1..], env[0]) ==> a in ReadSet(fields, env[0]) by {
        assert forall f :: f in fields[1..] ==> f in fields;
      }
      var v, v' := ReadField(c, fields[0], env, slot), ReadField(c', fields[0], env, slot);
      if v'.Some? {
        assert v' == v;
        ReadAllRepeats(c, c', fields[1..], env + [v.value], slot);
      }
    }
  }

  /** A quote assembled at a slot below everything it read is stable: after any insertions it is the same bundle or
      it is refused, and never a different one. */
  lemma {:induction false} RepeatableQuote<V>(schema: Schema<V>, depths: nat -> nat, c: Cache<V>, ws: seq<Write<V>>,
                                              pool: Pubkey, slot: nat)
    requires Assemble(schema, c, pool, slot).Some?
    requires Past(c, Account(schema.rootTag, pool), slot)
    requires forall a :: a in ReadSet(schema.fields, Read(c, Account(schema.rootTag, pool), slot).value) ==>
             Past(c, a, slot)
    ensures var r := Assemble(schema, InsertAll(depths, c, ws), pool, slot);
            r == Assemble(schema, c, pool, slot) || r == None
  {
    var c' := InsertAll(depths, c, ws);
    var root := Read(c, Account(schema.rootTag, pool), slot).value;
    InsertsKeepPast(depths, c, ws, Account(schema.rootTag, pool), slot);
    forall a | a in ReadSet(schema.fields, root)
      ensures Read(c', a, slot) == Read(c, a, slot) || Read(c', a, slot) == None
    {
      InsertsKeepPast(depths, c, ws, a, slot);
    }
    ReadAllRepeats(c, c', schema.fields, [root], slot);
  }

  // ---- When a quote is not repeatable --------------------------------------

  ghost predicate Stable<V(!new)>(schema: Schema<V>, depths: nat -> nat, c: Cache<V>, pool: Pubkey, slot: nat) {
    forall ws: seq<Write<V>> ::
      var r := Assemble(schema, InsertAll(depths, c, ws), pool, slot);
      r == Assemble(schema, c, pool, slot) || r == None
  }

  // Everything the cache retains for the account is newer, and no insertion can change that.
  ghost predicate Blocked<V>(c: Cache<V>, a: Account, slot: nat) {
    a in c.accounts && Read(c, a, slot).None?
  }

  // Something the root names is blocked.
  ghost predicate NamesBlocked<V>(schema: Schema<V>, c: Cache<V>, root: V, slot: nat) {
    exists a :: a in ReadSet(schema.fields, root) && Blocked(c, a, slot)
  }

  // No other root could assemble.
  ghost predicate RootPinned<V(!new)>(schema: Schema<V>, c: Cache<V>, root: V, slot: nat) {
    forall root' :: root' != root ==> NamesBlocked(schema, c, root', slot)
  }

  // Where a read account stands in the bundle.
  lemma {:induction false} FieldAt<V>(c: Cache<V>, fields: seq<Source<V>>, env: seq<V>, slot: nat, j: nat)
    requires env != [] && ReadAll(c, fields, env, slot).Some? && j < |fields|
    ensures var r := ReadAll(c, fields, env, slot).value;
            && |r| == |env| + |fields| && r[..|env|] == env
            && (fields[j].Keyed? ==> Some(r[|env| + j]) == Read(c, Account(fields[j].tag, fields[j].key(env[0])), slot))
    decreases |fields|
  {
    var v := ReadField(c, fields[0], env, slot).value;
    var r := ReadAll(c, fields[1..], env + [v], slot).value;
    if |fields| > 1 {
      FieldAt(c, fields[1..], env + [v], slot, if j == 0 then 0 else j - 1);
    } else {
      assert r == env + [v];
    }
    assert r[..|env|] == r[..|env| + 1][..|env|] == env;
    assert r[|env|] == r[..|env| + 1][|env|] == v;
  }

  // An account read at its current slot can be overwritten there.
  lemma {:induction false} OverwriteReads<V>(depths: nat -> nat, c: Cache<V>, a: Account, slot: nat, other: V)
    requires Read(c, a, slot).Some? && !Past(c, a, slot)
    ensures a in c.accounts
    ensures var c' := Insert(depths, c, Write(a, Obs(other, c.accounts[a].current.slot)));
            && Read(c, a, slot) == Some(c.accounts[a].current.state) && Read(c', a, slot) == Some(other)
            && c'.singletons == c.singletons && c'.accounts.Keys == c.accounts.Keys
            && forall b :: b != a ==> Entry(c', b) == Entry(c, b)
  {
  }

  /** If some account beyond the root was read at its current slot, writing another value there assembles another
      bundle. */
  lemma {:induction false} CurrentReadBreaks<V>(schema: Schema<V>, depths: nat -> nat, c: Cache<V>, pool: Pubkey,
                                                slot: nat, a: Account, other: V)
    requires Assemble(schema, c, pool, slot).Some? && a != Account(schema.rootTag, pool)
    requires a in ReadSet(schema.fields, Read(c, Account(schema.rootTag, pool), slot).value) && !Past(c, a, slot)
    requires a in c.accounts ==> other != c.accounts[a].current.state
    ensures a in c.accounts
    ensures var c' := Insert(depths, c, Write(a, Obs(other, c.accounts[a].current.slot)));
            var r := Assemble(schema, c', pool, slot);
            r.Some? && r != Assemble(schema, c, pool, slot)
  {
    var root := Read(c, Account(schema.rootTag, pool), slot).value;
    AssembleIff(schema, c, pool, slot);
    assert Read(c, a, slot).Some?;
    OverwriteReads(depths, c, a, slot, other);
    var c' := Insert(depths, c, Write(a, Obs(other, c.accounts[a].current.slot)));
    forall b | b in ReadSet(schema.fields, root)
      ensures Read(c', b, slot).Some?
    {
      assert b == a || Entry(c', b) == Entry(c, b);
    }
    AssembleIff(schema, c', pool, slot);
    var f :| f in schema.fields && f.Keyed? && a == Account(f.tag, f.key(root));
    var j :| 0 <= j < |schema.fields| && schema.fields[j] == f;
    FieldAt(c, schema.fields, [root], slot, j);
    FieldAt(c', schema.fields, [root], slot, j);
  }

  // Writes that make readable at the slot whatever another root names and the cache does not hold.
  function Fill<V>(c: Cache<V>, fields: seq<Source<V>>, root: V, slot: nat): seq<Write<V>> {
    if fields == [] then []
    else
      var rest := Fill(c, fields[1..], root, slot);
      if !fields[0].Keyed? || Account(fields[0].tag, fields[0].key(root)) in c.accounts then rest
      else [Write(Account(fields[0].tag, fields[0].key(root)), Obs(root, slot))] + rest
  }

  ghost predicate WritesTo<V>(ws: seq<Write<V>>, a: Account) {
    exists k :: 0 <= k < |ws| && ws[k].account == a
  }

  lemma {:induction false} FillWrites<V>(c: Cache<V>, fields: seq<Source<V>>, root: V, slot: nat, a: Account)
    ensures WritesTo(Fill(c, fields, root, slot), a) <==> a in ReadSet(fields, root) && a !in c.accounts
    ensures forall k :: 0 <= k < |Fill(c, fields, root, slot)| ==> Fill(c, fields, root, slot)[k].obs.slot == slot
    decreases |fields|
  {
    if fields != [] {
      FillWrites(c, fields[1..], root, slot, a);
      var ws, rest := Fill(c, fields, root, slot), Fill(c, fields[1..], root, slot);
      assert fields == [fields[0]] + fields[1..];
      assert a in ReadSet(fields, root) <==>
             a in ReadSet(fields[1..], root) || (fields[0].Keyed? && a == Account(fields[0].tag, fields[0].key(root)));
      if ws != rest {
        assert ws[1..] == rest;
        assert forall k :: 1 <= k < |ws| ==> ws[k] == rest[k - 1];
        if k :| 0 <= k < |rest| && rest[k].account == a {
          assert ws[k + 1].account == a;
        }
        assert ws[0].account == a ==> WritesTo(ws, a);
      }
    }
  }

  // Writes at the slot itself only ever make more readable there.
  lemma {:induction false} SlotWrites<V>(depths: nat -> nat, c: Cache<V>, ws: seq<Write<V>>, slot: nat, a: Account)
    requires forall k :: 0 <= k < |ws| ==> ws[k].obs.slot == slot
    ensures var c' := InsertAll(depths, c, ws);
            && c'.singletons == c.singletons
            && (!WritesTo(ws, a) ==> Entry(c', a) == Entry(c, a))
            && (Read(c, a, slot).Some? || (a !in c.accounts && WritesTo(ws, a)) ==> Read(c', a, slot).Some?)
    decreases |ws|
  {
    if ws != [] {
      var c1, rest := Insert(depths, c, ws[0]), ws[1..];
      assert forall k :: 1 <= k < |ws| ==> ws[k] == rest[k - 1];
      SlotWrites(depths, c1, rest, slot, a);
      if k :| 0 <= k < |rest| && rest[k].account == a {
        assert ws[k + 1].account == a;
      }
      assert ws[0].account == a ==> WritesTo(ws, a);
    }
  }

  /** If the root was read at its current slot, another root overwrites it, and assembles, unless something it names is
      blocked. */
  lemma {:induction false} CurrentRootBreaks<V>(schema: Schema<V>, depths: nat -> nat, c: Cache<V>, pool: Pubkey,
                                                slot: nat, root': V)
    returns (ws: seq<Write<V>>)
    requires Assemble(schema, c, pool, slot).Some? && !Past(c, Account(schema.rootTag, pool), slot)
    requires Read(c, Account(schema.rootTag, pool), slot) != Some(root')
    requires !NamesBlocked(schema, c, root', slot)
    ensures var r := Assemble(schema, InsertAll(depths, c, ws), pool, slot);
            r.Some? && r != Assemble(schema, c, pool, slot)
  {
    var at := Account(schema.rootTag, pool);
    AssembleIff(schema, c, pool, slot);
    OverwriteReads(depths, c, at, slot, root');
    var first := Write(at, Obs(root', c.accounts[at].current.slot));
    var c1, fill := Insert(depths, c, first), Fill(c, schema.fields, root', slot);
    ws := [first] + fill;
    assert ws[1..] == fill;
    var c' := InsertAll(depths, c1, fill);
    FillWrites(c, schema.fields, root', slot, at);
    SlotWrites(depths, c1, fill, slot, at);
    forall a | a in ReadSet(schema.fields, root')
      ensures Read(c', a, slot).Some?
    {
      FillWrites(c, schema.fields, root', slot, a);
      SlotWrites(depths, c1, fill, slot, a);
      assert a == at || Entry(c1, a) == Entry(c, a);
    }
    AssembleIff(schema, c', pool, slot);
    RootFirst(schema, c, pool, slot);
    RootFirst(schema, c', pool, slot);
  }

  lemma {:induction false} RootFirst<V>(schema: Schema<V>, c: Cache<V>, pool: Pubkey, slot: nat)
    requires Assemble(schema, c, pool, slot).Some?
    ensures var r := Assemble(schema, c, pool, slot).value;
            r != [] && Some(r[0]) == Read(c, Account(schema.rootTag, pool), slot)
  {
    if schema.fields != [] {
      FieldAt(c, schema.fields, [Read(c, Account(schema.rootTag, pool), slot).value], slot, 0);
    }
  }

  lemma {:induction false} PinnedQuote<V(!new)>(schema: Schema<V>, depths: nat -> nat, c: Cache<V>, ws: seq<Write<V>>,
                                                pool: Pubkey, slot: nat)
    requires Assemble(schema, c, pool, slot).Some?
    requires var at := Account(schema.rootTag, pool); var root := Read(c, at, slot).value;
             && RootPinned(schema, c, root, slot)
             && forall a :: a in ReadSet(schema.fields, root) && a != at ==> Past(c, a, slot)
    ensures var r := Assemble(schema, InsertAll(depths, c, ws), pool, slot);
            r == Assemble(schema, c, pool, slot) || r == None
  {
    var at, c' := Account(schema.rootTag, pool), InsertAll(depths, c, ws);
    var root, root' := Read(c, at, slot).value, Read(c', at, slot);
    SingletonsStay(depths, c, ws);
    if root' == Some(root) {
      forall a | a in ReadSet(schema.fields, root)
        ensures Read(c', a, slot) == Read(c, a, slot) || Read(c', a, slot) == None
      {
        if a != at {
          InsertsKeepPast(depths, c, ws, a, slot);
        }
      }
      ReadAllRepeats(c, c', schema.fields, [root], slot);
    } else if root'.Some? {
      assert NamesBlocked(schema, c, root'.value, slot);
      var a :| a in ReadSet(schema.fields, root'.value) && Blocked(c, a, slot);
      InsertsKeepPast(depths, c, ws, a, slot);
      AssembleIff(schema, c', pool, slot);
    }
  }

  lemma {:induction false} SingletonsStay<V>(depths: nat -> nat, c: Cache<V>, ws: seq<Write<V>>)
    ensures InsertAll(depths, c, ws).singletons == c.singletons
    decreases |ws|
  {
    if ws != [] {
      SingletonsStay(depths, Insert(depths, c, ws[0]), ws[1..]);
    }
  }

  /** Exactly when an assembled quote is stable under every insertion: everything it read beyond the root is below its
      current slot, and so is the root, unless no other root could assemble. */
  lemma {:induction false} RepeatableQuoteIff<V(!new)>(schema: Schema<V>, depths: nat -> nat, c: Cache<V>, pool: Pubkey,
                                                       slot: nat, other: V -> V)
    requires Assemble(schema, c, pool, slot).Some? && forall v :: other(v) != v
    ensures var at := Account(schema.rootTag, pool); var root := Read(c, at, slot).value;
            Stable(schema, depths, c, pool, slot)
            <==> (forall a :: a in ReadSet(schema.fields, root) && a != at ==> Past(c, a, slot))
                 && (Past(c, at, slot) || RootPinned(schema, c, root, slot))
  {
    var at := Account(schema.rootTag, pool);
    var root := Read(c, at, slot).value;
    if a :| a in ReadSet(schema.fields, root) && a != at && !Past(c, a, slot) {
      AssembleIff(schema, c, pool, slot);
      var v := other(Read(c, a, slot).value);
      OverwriteReads(depths, c, a, slot, v);
      CurrentReadBreaks(schema, depths, c, pool, slot, a, v);
      OneInsert(depths, c, Write(a, Obs(v, c.accounts[a].current.slot)));
    } else if Past(c, at, slot) {
      forall ws: seq<Write<V>>
        ensures var r := Assemble(schema, InsertAll(depths, c, ws), pool, slot);
                r == Assemble(schema, c, pool, slot) || r == None
      {
        RepeatableQuote(schema, depths, c, ws, pool, slot);
      }
    } else if RootPinned(schema, c, root, slot) {
      forall ws: seq<Write<V>>
        ensures var r := Assemble(schema, InsertAll(depths, c, ws), pool, slot);
                r == Assemble(schema, c, pool, slot) || r == None
      {
        PinnedQuote(schema, depths, c, ws, pool, slot);
      }
    } else {
      var root' :| root' != root && !NamesBlocked(schema, c, root', slot);
      var ws := CurrentRootBreaks(schema, depths, c, pool, slot, root');
    }
  }

  lemma OneInsert<V>(depths: nat -> nat, c: Cache<V>, w: Write<V>)
    ensures InsertAll(depths, c, [w]) == Insert(depths, c, w)
  {
    assert [w][1..] == [];
  }
}
