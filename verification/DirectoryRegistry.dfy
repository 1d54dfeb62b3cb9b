/** The registries as objects over one shared store: each operation reads the store, builds a batch
    of writes step by step and applies it, and is proved to do to the tables what
    DirectoryTables says it does, or to fail and leave the store alone. */
module DirectoryRegistry {
  import opened Common
  import opened Bytes
  import opened Text
  import opened Snowflake
  import opened Store
  import opened DirectoryTables
  import opened DirectoryKeys
  import opened DirectoryMeaning

  ghost predicate Sound(m: map<seq<byte>, Value>)
  {
    exists t :: Represents(m, t)
  }

  /** The tables a store holds. */
  ghost function View(m: map<seq<byte>, Value>): (t: Tables)
    requires Sound(m)
    ensures Represents(m, t)
  {
    var t :| Represents(m, t);
    t
  }

  lemma ViewIs(m: map<seq<byte>, Value>, t: Tables)
    requires Represents(m, t)
    ensures Sound(m) && View(m) == t
  {
    RepresentsUnique(m, t, View(m));
  }

  lemma ViewCell(m: map<seq<byte>, Value>, r: Row)
    requires Sound(m)
    ensures Find(m, RowKey(r)) == Cell(View(m), r)
  {
  }

  lemma ViewAfterBatch(m: map<seq<byte>, Value>, ops: seq<Op>)
    requires Sound(m)
    ensures Sound(WriteAll(m, EncodeOps(ops)))
    ensures View(WriteAll(m, EncodeOps(ops))) == ApplyAll(View(m), ops)
  {
    BatchRefines(m, View(m), ops);
    ViewIs(WriteAll(m, EncodeOps(ops)), ApplyAll(View(m), ops));
  }

  // ----- The sequential face of the id generator -----

  class IdGenerator {
    const node: nat
    var last: u64

    constructor (node: nat)
      ensures this.node == node % NODES && last == 0
    {
      this.node := node % NODES;
      last := 0;
    }

    /** One call with no contention; SnowflakeProtocol has the interleaved form. */
    method Generate(now: u64) returns (id: u64)
      requires node < NODES
      modifies this
      ensures last == Candidate(old(last), now) && id == IdOf(last, node)
    {
      var ms, sequence := NextMs(last, now), NextSeq(last, now);
      WordParts(ms % PACKED_MS, sequence);
      MsWithinMs(ms);
      id := Pack(ms, node, sequence);
      last := Candidate(last, now);
    }
  }

  // ----- AddressIndex -----

  function Normals(addresses: seq<string>): (r: seq<string>)
    ensures |r| == |addresses|
    ensures forall i | 0 <= i < |r| :: r[i] == Normalize(addresses[i])
  {
    seq(|addresses|, i requires 0 <= i < |addresses| => Normalize(addresses[i]))
  }

  function Elements(s: seq<string>): set<string>
  {
    set x | x in s
  }

  function DropOps(previous: seq<string>, current: seq<string>): seq<Op>
  {
    if previous == [] then [] else
      var n := |previous| - 1;
      DropOps(previous[..n], current) + if previous[n] in current then [] else [DropEntry(previous[n])]
  }

  function PutOps(current: seq<string>, x: u64): seq<Op>
  {
    if current == [] then [] else
      var n := |current| - 1;
      PutOps(current[..n], x) + [PutEntry(current[n], x)]
  }

  lemma DropOpsStep(t: Tables, mid: Tables, ops: seq<Op>, gone: set<string>, a: string)
    requires ApplyAll(t, ops) == mid && mid == t.(entries := t.entries - gone)
    ensures ApplyAll(t, ops + [DropEntry(a)]) == t.(entries := t.entries - (gone + {a}))
  {
    ApplyAllSnoc(t, ops, DropEntry(a));
    MinusSnoc(t.entries, gone, a);
  }

  lemma GoneSnoc(head: seq<string>, a: string, current: seq<string>)
    ensures Elements(head + [a]) - Elements(current) ==
            (Elements(head) - Elements(current)) + if a in current then {} else {a}
  {
    assert Elements(head + [a]) == Elements(head) + {a};
  }

  lemma {:induction false} DropOpsEffect(t: Tables, previous: seq<string>, current: seq<string>)
    ensures ApplyAll(t, DropOps(previous, current)) ==
            t.(entries := t.entries - (Elements(previous) - Elements(current)))
  {
    if previous == [] {
      assert t.entries - (Elements(previous) - Elements(current)) == t.entries;
    } else {
      var n := |previous| - 1;
      var head, a := previous[..n], previous[n];
      var ops, gone := DropOps(head, current), Elements(head) - Elements(current);
      DropOpsEffect(t, head, current);
      assert previous == head + [a];
      GoneSnoc(head, a, current);
      if a in current {
        assert DropOps(previous, current) == ops;
        assert gone + {} == gone;
      } else {
        DropOpsStep(t, ApplyAll(t, ops), ops, gone, a);
      }
    }
  }

  lemma MinusSnoc(e: map<string, AddressEntry>, gone: set<string>, a: string)
    ensures e - (gone + {a}) == (e - gone) - {a}
  {
  }

  lemma ReassignSnoc(e: map<string, AddressEntry>, current: set<string>, a: string, x: u64)
    ensures Reassign(e, {}, current + {a}, x) == Reassign(e, {}, current, x)[a := AccountEntry(a, x)]
  {
  }

  lemma {:induction false} PutOpsEffect(t: Tables, current: seq<string>, x: u64)
    ensures ApplyAll(t, PutOps(current, x)) == t.(entries := Reassign(t.entries, {}, Elements(current), x))
  {
    if current == [] {
      assert Reassign(t.entries, {}, {}, x) == t.entries;
      assert Elements(current) == {};
    } else {
      var n := |current| - 1;
      PutOpsEffect(t, current[..n], x);
      ApplyAllSnoc(t, PutOps(current[..n], x), PutEntry(current[n], x));
      assert Elements(current) == Elements(current[..n]) + {current[n]};
      ReassignSnoc(t.entries, Elements(current[..n]), current[n], x);
    }
  }

  /** The loops of account_address_ops, run in order, reassign the addresses as a whole. */
  lemma AddressOpsEffect(t: Tables, previous: seq<string>, current: seq<string>, x: u64)
    ensures ApplyAll(t, DropOps(previous, current) + PutOps(current, x)) ==
            t.(entries := Reassign(t.entries, Elements(previous), Elements(current), x))
  {
    ApplyAllConcat(t, DropOps(previous, current), PutOps(current, x));
    DropOpsEffect(t, previous, current);
    var u := ApplyAll(t, DropOps(previous, current));
    PutOpsEffect(u, current, x);
    assert Reassign(u.entries, {}, Elements(current), x) ==
           Reassign(t.entries, Elements(previous), Elements(current), x);
  }

  class AddressIndex {
    const store: Store<Value>

    constructor (store: Store<Value>)
      ensures this.store == store
    {
      this.store := store;
    }

    /** However the address is written, the entry under its plain form. */
    method Resolve(address: string) returns (r: Option<AddressEntry>)
      requires Sound(store.data)
      ensures LooksUp(View(store.data).entries, address, r)
    {
      KeyLooksUp(View(store.data).entries, address);
      r := EntryFor(address);
    }

    method EntryFor(address: string) returns (r: Option<AddressEntry>)
      requires Sound(store.data)
      ensures var a, e := Normalize(address), View(store.data).entries;
              r == if a in e then Some(e[a]) else None
    {
      ViewCell(store.data, EntryRow(Normalize(address)));
      var found := store.Get(EntryKey(Normalize(address)));
      r := if found.Some? && found.value.EntryValue? then Some(found.value.entry) else None;
    }

    /** The check loop: every address newly claimed is free or already the account's own. */
    method CheckFree(x: u64, prev: seq<string>, cur: seq<string>) returns (free: bool)
      requires Sound(store.data)
      requires forall i | 0 <= i < |cur| :: Normalize(cur[i]) == cur[i]
      ensures free == !Taken(View(store.data).entries, Elements(prev), Elements(cur), x)
    {
      ghost var e := View(store.data).entries;
      for i := 0 to |cur|
        invariant forall j | 0 <= j < i && cur[j] !in prev && cur[j] in e :: e[cur[j]].AccountId() == Some(x)
      {
        if cur[i] !in prev {
          var entry := EntryFor(cur[i]);
          if entry.Some? && entry.value.AccountId() != Some(x) {
            assert cur[i] in Elements(cur) && cur[i] !in Elements(prev);
            return false;
          }
        }
      }
      free := true;
    }

    method AddressOps(x: u64, prev: seq<string>, cur: seq<string>) returns (ops: seq<Op>)
      ensures ops == DropOps(prev, cur) + PutOps(cur, x)
    {
      ops := [];
      for i := 0 to |prev|
        invariant ops == DropOps(prev[..i], cur)
      {
        assert prev[..i + 1][..i] == prev[..i];
        if prev[i] !in cur {
          ops := ops + [DropEntry(prev[i])];
        }
      }
      assert prev[..|prev|] == prev;
      ghost var drops := ops;
      for i := 0 to |cur|
        invariant ops == drops + PutOps(cur[..i], x)
      {
        assert cur[..i + 1][..i] == cur[..i];
        ops := ops + [PutEntry(cur[i], x)];
      }
      assert cur[..|cur|] == cur;
    }

    method AccountAddressOps(x: u64, previous: seq<string>, current: seq<string>) returns (r: Result<seq<Op>>)
      requires Sound(store.data)
      ensures var p, c := Elements(Normals(previous)), Elements(Normals(current));
              r == if "" in c || "" in p || Taken(View(store.data).entries, p, c, x) then Err(InvalidInput)
                   else Ok(DropOps(Normals(previous), Normals(current)) + PutOps(Normals(current), x))
    {
      var cur, prev := Normals(current), Normals(previous);
      if "" in cur || "" in prev {
        return Err(InvalidInput);
      }
      forall i | 0 <= i < |cur| ensures Normalize(cur[i]) == cur[i] { NormalizeFixed(cur[i]); }
      var free := CheckFree(x, prev, cur);
      if !free {
        return Err(InvalidInput);
      }
      var ops := AddressOps(x, prev, cur);
      r := Ok(ops);
    }
  }

  // ----- AccountRegistry -----

  predicate AscendingAccounts(accounts: seq<Account>)
  {
    forall i, j | 0 <= i < j < |accounts| :: accounts[i].id < accounts[j].id
  }

  predicate IdsMatch(t: Tables)
  {
    && (forall x | x in t.accounts :: t.accounts[x].id == x)
    && (forall id | id in t.domains :: t.domains[id].id == id)
  }

  /** The result of a filtered scan: exactly the kept records, by ascending id. */
  ghost predicate AccountList(t: Tables, accounts: seq<Account>, keep: Account -> bool)
  {
    && AscendingAccounts(accounts)
    && (forall a | a in accounts :: keep(a) && a.id in t.accounts && t.accounts[a.id] == a)
    && (forall x | x in t.accounts && keep(t.accounts[x]) :: t.accounts[x] in accounts)
  }

  ghost function Kept(t: Tables, ids: seq<u64>, keep: Account -> bool): seq<Account>
  {
    if ids == [] then [] else
      var n := |ids| - 1;
      Kept(t, ids[..n], keep) +
      if ids[n] in t.accounts && keep(t.accounts[ids[n]]) then [t.accounts[ids[n]]] else []
  }

  lemma KeptSnoc(t: Tables, ids: seq<u64>, x: u64, keep: Account -> bool)
    ensures Kept(t, ids + [x], keep) ==
            Kept(t, ids, keep) + if x in t.accounts && keep(t.accounts[x]) then [t.accounts[x]] else []
  {
    assert (ids + [x])[..|ids|] == ids;
  }

  lemma {:induction false} KeptExact(t: Tables, ids: seq<u64>, keep: Account -> bool)
    requires IdsMatch(t)
    ensures forall a | a in Kept(t, ids, keep) :: keep(a) && a.id in ids && a.id in t.accounts && t.accounts[a.id] == a
    ensures forall x | x in ids && x in t.accounts && keep(t.accounts[x]) :: t.accounts[x] in Kept(t, ids, keep)
  {
    if ids != [] {
      KeptExact(t, ids[..|ids| - 1], keep);
    }
  }

  lemma {:induction false} KeptAscends(t: Tables, ids: seq<u64>, keep: Account -> bool)
    requires IdsMatch(t) && AscendingIds(ids)
    ensures AscendingAccounts(Kept(t, ids, keep))
  {
    if ids != [] {
      var n := |ids| - 1;
      KeptAscends(t, ids[..n], keep);
      KeptExact(t, ids[..n], keep);
      forall a | a in Kept(t, ids[..n], keep) ensures a.id < ids[n] {
        var i :| 0 <= i < n && ids[i] == a.id;
      }
    }
  }

  lemma KeptList(t: Tables, ids: seq<u64>, keep: Account -> bool)
    requires IdsMatch(t) && AscendingIds(ids) && forall x | x in t.accounts :: x in ids
    ensures AccountList(t, Kept(t, ids, keep), keep)
  {
    KeptExact(t, ids, keep);
    KeptAscends(t, ids, keep);
  }

  /** A record key met in a scan holds the account of that id. */
  lemma ScannedAccount(m: map<seq<byte>, Value>, k: seq<byte>)
    requires Sound(m) && k in m && IsRecordKey(TAG_ACCOUNT_RECORD, k)
    ensures var t, x := View(m), KeyId(k);
            (m[k].AccountValue? <==> x in t.accounts) && (x in t.accounts ==> m[k] == AccountValue(t.accounts[x]))
  {
    KeyIdOfRecordKey(TAG_ACCOUNT_RECORD, k, KeyId(k));
    ViewCell(m, AccountRow(KeyId(k)));
  }

  lemma CollectStep(m: map<seq<byte>, Value>, keys: seq<seq<byte>>, i: nat, keep: Account -> bool)
    requires Sound(m) && i < |keys| && keys[i] in m
    ensures Kept(View(m), IdsIn(TAG_ACCOUNT_RECORD, keys[..i + 1]), keep) ==
            Kept(View(m), IdsIn(TAG_ACCOUNT_RECORD, keys[..i]), keep) +
            if IsRecordKey(TAG_ACCOUNT_RECORD, keys[i]) && m[keys[i]].AccountValue? && keep(m[keys[i]].account)
            then [m[keys[i]].account] else []
  {
    assert keys[..i + 1] == keys[..i] + [keys[i]];
    IdsInSnoc(TAG_ACCOUNT_RECORD, keys[..i], keys[i]);
    if IsRecordKey(TAG_ACCOUNT_RECORD, keys[i]) {
      ScannedAccount(m, keys[i]);
      KeptSnoc(View(m), IdsIn(TAG_ACCOUNT_RECORD, keys[..i]), KeyId(keys[i]), keep);
    }
  }

  /** A scan of the whole subspace lists the accounts kept. */
  lemma ScanListsAccounts(m: map<seq<byte>, Value>, keys: seq<seq<byte>>, keep: Account -> bool)
    requires Sound(m) && IdsMatch(View(m)) && keys == SortedKeys(KeysUnder(m, [REGISTRY]))
    ensures AccountList(View(m), Kept(View(m), IdsIn(TAG_ACCOUNT_RECORD, keys), keep), keep)
  {
    var t := View(m);
    IdsInAscending(TAG_ACCOUNT_RECORD, keys);
    forall x | x in t.accounts ensures x in IdsIn(TAG_ACCOUNT_RECORD, keys) {
      ViewCell(m, AccountRow(x));
      IdsInExact(TAG_ACCOUNT_RECORD, keys, x);
    }
    KeptList(t, IdsIn(TAG_ACCOUNT_RECORD, keys), keep);
  }

  class AccountRegistry {
    const store: Store<Value>
    const ids: IdGenerator
    const addresses: AddressIndex

    constructor (store: Store<Value>, ids: IdGenerator, addresses: AddressIndex)
      ensures this.store == store && this.ids == ids && this.addresses == addresses
    {
      this.store, this.ids, this.addresses := store, ids, addresses;
    }

    ghost predicate Wired()
    {
      addresses.store == store && ids.node < NODES
    }

    method Get(id: u64) returns (r: Result<Account>)
      requires Sound(store.data)
      ensures var t := View(store.data);
              r == if id in t.accounts then Ok(t.accounts[id]) else Err(NotFound)
    {
      ViewCell(store.data, AccountRow(id));
      var found := store.Get(AccountKey(id));
      r := if found.Some? && found.value.AccountValue? then Ok(found.value.account) else Err(NotFound);
    }

    method LookupId(domain: u64, local: string) returns (r: Option<u64>)
      requires Sound(store.data)
      ensures var t := View(store.data);
              r == if (domain, local) in t.locals then Some(t.locals[(domain, local)]) else None
    {
      ViewCell(store.data, LocalRow(domain, local));
      var found := store.Get(LocalKey(domain, local));
      r := if found.Some? && found.value.IdValue? then Some(found.value.id) else None;
    }

    /** The kept records in the order the scan meets them. */
    method Collect(keep: Account -> bool) returns (r: seq<Account>)
      requires Sound(store.data) && IdsMatch(View(store.data))
      ensures AccountList(View(store.data), r, keep)
    {
      var rows := store.Iterate([REGISTRY]);
      ghost var keys := SortedKeys(KeysUnder(store.data, [REGISTRY]));
      r := [];
      for i := 0 to |rows|
        invariant r == Kept(View(store.data), IdsIn(TAG_ACCOUNT_RECORD, keys[..i]), keep)
      {
        var (k, value) := rows[i];
        CollectStep(store.data, keys, i, keep);
        if IsRecordKey(TAG_ACCOUNT_RECORD, k) && value.AccountValue? && keep(value.account) {
          r := r + [value.account];
        }
      }
      assert keys[..|keys|] == keys;
      ScanListsAccounts(store.data, keys, keep);
    }

    /** Non-blank aliases, then the primary if the domain exists. */
    method AddressesOf(a: Account) returns (r: seq<string>)
      requires Sound(store.data)
      ensures Elements(Normals(r)) == Addresses(View(store.data), a)
    {
      r := NonBlank(a.aliases);
      assert Elements(Normals(r)) == AliasAddresses(a) by { NonBlankNormals(a); }
      ViewCell(store.data, DomainRow(a.domainId));
      var found := store.Get(DomainKey(a.domainId));
      if found.Some? && found.value.DomainValue? {
        NormalsSnoc(r, a.localPart + "@" + found.value.domain.name);
        r := r + [a.localPart + "@" + found.value.domain.name];
      }
    }

    method Create(local: string, domain: u64, displayName: string, role: Role, now: u64,
                  extraOps: (u64, nat) -> seq<WriteOp<Value>>)
      returns (r: Result<Account>)
      requires Sound(store.data) && Wired()
      requires forall id, at, op | op in extraOps(id, at) :: Foreign(op.key)
      modifies store, ids
      ensures Sound(store.data)
      ensures var t := old(View(store.data));
              if Normalize(local) == "" || (domain, Normalize(local)) in t.locals
              then r == Err(InvalidInput) && store.data == old(store.data) && ids.last == old(ids.last)
              else
                && ids.last == Candidate(old(ids.last), now)
                && var id := IdOf(ids.last, ids.node);
                   var a := NewAccount(local, domain, displayName, role, id, TimestampOf(id) * 1000);
                   match AccountCreate(t, a)
                   case Ok(t') => r == Ok(a) && View(store.data) == t'
                   case Err(e) => r == Err(e) && store.data == old(store.data)
      ensures r.Ok? ==> var id := IdOf(ids.last, ids.node);
                        AccountOpened(local, domain, displayName, role, id, TimestampOf(id) * 1000, r.value)
      ensures r.Ok? ==>
                r.value.id in View(store.data).accounts && View(store.data).accounts[r.value.id] == r.value
    {
      ghost var m, t := store.data, View(store.data);
      var lp := Normalize(local);
      if lp == "" { return Err(InvalidInput); }
      var taken := LookupId(domain, lp);
      if taken.Some? { return Err(InvalidInput); }
      var id := ids.Generate(now);
      var a := NewAccount(local, domain, displayName, role, id, TimestampOf(id) * 1000);
      NewAccountIsOpened(local, domain, displayName, role, id, TimestampOf(id) * 1000);
      var list := AddressesOf(a);
      var claimed := addresses.AccountAddressOps(id, [], list);
      assert Elements(Normals([])) == {};
      if claimed.Err? { return Err(claimed.error); }
      store.Batch(EncodeOps(CreateRows(a)) + extraOps(id, a.createdAt) + EncodeOps(claimed.value));
      SandwichRefines(m, t, CreateRows(a), extraOps(id, a.createdAt), claimed.value);
      CreateEffect(t, a, Normals(list));
      ViewIs(store.data, ApplyAll(ApplyAll(t, CreateRows(a)), claimed.value));
      r := Ok(a);
    }

    method Update(account: Account) returns (r: Result<()>)
      requires Sound(store.data) && Wired()
      modifies store
      ensures Sound(store.data)
      ensures match AccountUpdate(old(View(store.data)), account)
              case Ok(t') => r == Ok(()) && View(store.data) == t'
              case Err(e) => r == Err(e) && store.data == old(store.data)
      ensures r.Ok? ==> account.id in View(store.data).accounts
                        && AccountSaved(account, View(store.data).accounts[account.id])
    {
      TidiedIsSaved(account);
      ghost var m, t := store.data, View(store.data);
      var existing := Get(account.id);
      if existing.Err? { return Err(existing.error); }
      var before := existing.value;
      var a := Tidied(account);
      if a.localPart == "" { return Err(InvalidInput); }
      var ops := [PutAccount(a)];
      if a.localPart != before.localPart || a.domainId != before.domainId {
        var other := LookupId(a.domainId, a.localPart);
        if other.Some? && other.value != a.id { return Err(InvalidInput); }
        ops := ops + [DropLocal(before.domainId, before.localPart), PutLocal(a.domainId, a.localPart, a.id)];
      }
      var previous := AddressesOf(before);
      var current := AddressesOf(a);
      var moved := addresses.AccountAddressOps(a.id, previous, current);
      if moved.Err? { return Err(moved.error); }
      store.Batch(EncodeOps(ops + moved.value));
      ViewAfterBatch(m, ops + moved.value);
      assert ops == UpdateRows(before, a);
      UpdateEffect(t, before, a, Normals(previous), Normals(current));
      UpdateRowsEffect(t, before, a);
      r := Ok(());
    }

    method Delete(id: u64) returns (r: Result<()>)
      requires Sound(store.data) && Wired()
      modifies store
      ensures Sound(store.data)
      ensures match AccountDelete(old(View(store.data)), id)
              case Ok(t') => r == Ok(()) && View(store.data) == t'
              case Err(e) => r == Err(e) && store.data == old(store.data)
    {
      ghost var m, t := store.data, View(store.data);
      var existing := Get(id);
      if existing.Err? { return Err(existing.error); }
      var a := existing.value;
      var rows := [DropAccount(id), DropLocal(a.domainId, a.localPart)];
      var previous := AddressesOf(a);
      var released := addresses.AccountAddressOps(id, previous, []);
      assert Elements(Normals([])) == {};
      if released.Err? { return Err(released.error); }
      store.Batch(EncodeOps(rows + released.value));
      ViewAfterBatch(m, rows + released.value);
      DeleteEffect(t, a, id, Normals(previous));
      r := Ok(());
    }
  }

  lemma NormalsElements(r: seq<string>)
    ensures Elements(Normals(r)) == set s | s in r :: Normalize(s)
  {
    var n := Normals(r);
    forall x ensures x in Elements(n) <==> exists s | s in r :: Normalize(s) == x {
      if x in n {
        var i :| 0 <= i < |r| && n[i] == x;
        assert r[i] in r;
      }
      if s :| s in r && Normalize(s) == x {
        var i :| 0 <= i < |r| && r[i] == s;
        assert n[i] == x;
      }
    }
  }

  lemma NonBlankNormals(a: Account)
    ensures Elements(Normals(NonBlank(a.aliases))) == AliasAddresses(a)
  {
    NormalsElements(NonBlank(a.aliases));
  }

  lemma NormalsSnoc(r: seq<string>, s: string)
    ensures Elements(Normals(r + [s])) == Elements(Normals(r)) + {Normalize(s)}
  {
    assert Normals(r + [s]) == Normals(r) + [Normalize(s)];
  }

  lemma TwoOps(t: Tables, a: Op, b: Op)
    ensures ApplyAll(t, [a, b]) == Apply(Apply(t, a), b)
  {
    assert [a, b] == [a] + [b] && [a] == [] + [a];
    ApplyAllSnoc(t, [a], b);
    ApplyAllSnoc(t, [], a);
  }

  /** A batch with foreign writes in its middle does what it would do without them. */
  lemma SandwichRefines(m: map<seq<byte>, Value>, t: Tables, a: seq<Op>, extra: seq<WriteOp<Value>>, b: seq<Op>)
    requires Represents(m, t)
    requires forall op | op in extra :: Foreign(op.key)
    ensures Represents(WriteAll(m, EncodeOps(a) + extra + EncodeOps(b)), ApplyAll(ApplyAll(t, a), b))
  {
    BatchRefines(m, t, a);
    WriteAllConcat(m, EncodeOps(a), extra);
    ForeignBatchKeeps(WriteAll(m, EncodeOps(a)), ApplyAll(t, a), extra);
    WriteAllConcat(m, EncodeOps(a) + extra, EncodeOps(b));
    BatchRefines(WriteAll(m, EncodeOps(a) + extra), ApplyAll(t, a), b);
  }

  function CreateRows(a: Account): seq<Op>
  {
    [PutAccount(a), PutLocal(a.domainId, a.localPart, a.id)]
  }

  lemma CreateEffect(t: Tables, a: Account, current: seq<string>)
    ensures ApplyAll(ApplyAll(t, CreateRows(a)), DropOps([], current) + PutOps(current, a.id)) ==
            t.(accounts := t.accounts[a.id := a],
               locals := t.locals[(a.domainId, a.localPart) := a.id],
               entries := Reassign(t.entries, {}, Elements(current), a.id))
  {
    TwoOps(t, PutAccount(a), PutLocal(a.domainId, a.localPart, a.id));
    AddressOpsEffect(ApplyAll(t, CreateRows(a)), [], current, a.id);
    assert Elements([]) == {};
  }

  function UpdateRows(before: Account, a: Account): seq<Op>
  {
    if a.localPart != before.localPart || a.domainId != before.domainId
    then [PutAccount(a)] + [DropLocal(before.domainId, before.localPart), PutLocal(a.domainId, a.localPart, a.id)]
    else [PutAccount(a)]
  }

  lemma UpdateRowsEffect(t: Tables, before: Account, a: Account)
    ensures ApplyAll(t, UpdateRows(before, a)) ==
            t.(accounts := t.accounts[a.id := a],
               locals := if (a.domainId, a.localPart) == (before.domainId, before.localPart) then t.locals
                         else (t.locals - {(before.domainId, before.localPart)})[(a.domainId, a.localPart) := a.id])
  {
    ApplyAllSnoc(t, [], PutAccount(a));
    assert [] + [PutAccount(a)] == [PutAccount(a)];
    var t1 := Apply(t, PutAccount(a));
    if a.localPart != before.localPart || a.domainId != before.domainId {
      var swap := [DropLocal(before.domainId, before.localPart), PutLocal(a.domainId, a.localPart, a.id)];
      ApplyAllConcat(t, [PutAccount(a)], swap);
      TwoOps(t1, swap[0], swap[1]);
    }
  }

  lemma UpdateEffect(t: Tables, before: Account, a: Account, previous: seq<string>, current: seq<string>)
    ensures ApplyAll(t, UpdateRows(before, a) + (DropOps(previous, current) + PutOps(current, a.id))) ==
            ApplyAll(t, UpdateRows(before, a)).(
              entries := Reassign(t.entries, Elements(previous), Elements(current), a.id))
  {
    ApplyAllConcat(t, UpdateRows(before, a), DropOps(previous, current) + PutOps(current, a.id));
    UpdateRowsEffect(t, before, a);
    AddressOpsEffect(ApplyAll(t, UpdateRows(before, a)), previous, current, a.id);
  }

  lemma DeleteEffect(t: Tables, a: Account, id: u64, previous: seq<string>)
    ensures ApplyAll(t, [DropAccount(id), DropLocal(a.domainId, a.localPart)] +
                     (DropOps(previous, []) + PutOps([], id))) ==
            t.(accounts := t.accounts - {id},
               locals := t.locals - {(a.domainId, a.localPart)},
               entries := Reassign(t.entries, Elements(previous), {}, id))
  {
    var rows := [DropAccount(id), DropLocal(a.domainId, a.localPart)];
    ApplyAllConcat(t, rows, DropOps(previous, []) + PutOps([], id));
    TwoOps(t, rows[0], rows[1]);
    AddressOpsEffect(ApplyAll(t, rows), previous, [], id);
    assert Elements([]) == {};
  }
}
