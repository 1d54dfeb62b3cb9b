/** The domain registry as an object over the shared store. Its update is the hard case: a rename
    rekeys every account's primary in a loop of removals and settings and moves the catch-all. */
module DomainRegistry {
  import opened Common
  import opened Bytes
  import opened Text
  import opened Snowflake
  import opened Store
  import opened DirectoryTables
  import opened DirectoryKeys
  import opened DirectoryInvariant
  import opened DirectoryMeaning
  import opened DirectoryRegistry

  // ----- The rekeying loop -----

  function RekeyOps(olds: seq<string>, news: seq<string>, ids: seq<u64>): seq<Op>
    requires |olds| == |news| == |ids|
  {
    if ids == [] then [] else
      var n := |ids| - 1;
      RekeyOps(olds[..n], news[..n], ids[..n]) + [DropEntry(olds[n])] + [PutEntry(news[n], ids[n])]
  }

  function IdsOf(accounts: seq<Account>): seq<u64>
  {
    seq(|accounts|, i requires 0 <= i < |accounts| => accounts[i].id)
  }

  function PrimariesOf(accounts: seq<Account>, name: string): seq<string>
  {
    seq(|accounts|, i requires 0 <= i < |accounts| => Primary(accounts[i].localPart, name))
  }

  /** No new primary is another's, old or new. */
  predicate Separate(olds: seq<string>, news: seq<string>)
    requires |olds| == |news|
  {
    forall i, j | 0 <= i < |news| && 0 <= j < |news| && i != j :: news[i] != news[j] && olds[i] != news[j]
  }

  /** What rekeying some accounts must leave behind. */
  predicate RekeyedTo(e: map<string, AddressEntry>, e': map<string, AddressEntry>,
                      olds: seq<string>, news: seq<string>, ids: seq<u64>)
    requires |ids| == |olds| == |news|
  {
    && (forall i | 0 <= i < |ids| :: news[i] in e' && e'[news[i]] == AccountEntry(news[i], ids[i]))
    && (forall a | a in e' && a !in news :: a in e && a !in olds && e'[a] == e[a])
    && (forall a | a in e && a !in news && a !in olds :: a in e')
  }

  lemma RekeyOne(e: map<string, AddressEntry>, e': map<string, AddressEntry>,
                 olds: seq<string>, news: seq<string>, ids: seq<u64>, o: string, w: string, x: u64)
    requires |ids| == |olds| == |news|
    requires RekeyedTo(e, e', olds, news, ids)
    requires Separate(olds + [o], news + [w])
    ensures RekeyedTo(e, (e' - {o})[w := AccountEntry(w, x)], olds + [o], news + [w], ids + [x])
  {
    var n := |news|;
    forall i | 0 <= i < n ensures news[i] != o && news[i] != w {
      assert (news + [w])[i] == news[i] && (news + [w])[n] == w && (olds + [o])[n] == o;
    }
  }

  lemma SeparatePrefix(olds: seq<string>, news: seq<string>, o: string, w: string)
    requires |olds| == |news| && Separate(olds + [o], news + [w])
    ensures Separate(olds, news)
  {
    forall i, j | 0 <= i < |news| && 0 <= j < |news| && i != j ensures news[i] != news[j] && olds[i] != news[j] {
      assert (news + [w])[i] != (news + [w])[j] && (olds + [o])[i] != (news + [w])[j];
    }
  }

  lemma RekeyOpsSnoc(olds: seq<string>, news: seq<string>, ids: seq<u64>, o: string, w: string, x: u64)
    requires |ids| == |olds| == |news|
    ensures RekeyOps(olds + [o], news + [w], ids + [x]) == RekeyOps(olds, news, ids) + [DropEntry(o)] + [PutEntry(w, x)]
  {
    var n := |ids|;
    assert (olds + [o])[..n] == olds && (news + [w])[..n] == news && (ids + [x])[..n] == ids;
  }

  lemma RekeyStep(t: Tables, olds: seq<string>, news: seq<string>, ids: seq<u64>, o: string, w: string, x: u64)
    requires |olds| == |news| == |ids|
    ensures ApplyAll(t, RekeyOps(olds + [o], news + [w], ids + [x])) ==
            Apply(Apply(ApplyAll(t, RekeyOps(olds, news, ids)), DropEntry(o)), PutEntry(w, x))
  {
    RekeyOpsSnoc(olds, news, ids, o, w, x);
    var ops := RekeyOps(olds, news, ids);
    ApplyAllSnoc(t, ops, DropEntry(o));
    ApplyAllSnoc(t, ops + [DropEntry(o)], PutEntry(w, x));
  }

  /** Run in order, the removals and settings leave every new primary in place. */
  lemma {:induction false} RekeyOpsEffect(t: Tables, olds: seq<string>, news: seq<string>, ids: seq<u64>)
    requires |olds| == |news| == |ids| && Separate(olds, news)
    ensures var t' := ApplyAll(t, RekeyOps(olds, news, ids));
            t' == t.(entries := t'.entries) && RekeyedTo(t.entries, t'.entries, olds, news, ids)
    decreases |ids|, 0
  {
    if ids != [] {
      var n := |ids| - 1;
      RekeyOpsEffectStep(t, olds[..n], news[..n], ids[..n], olds[n], news[n], ids[n]);
      assert olds == olds[..n] + [olds[n]] && news == news[..n] + [news[n]] && ids == ids[..n] + [ids[n]];
    }
  }

  lemma RekeyTwoOps(t: Tables, mid: Tables, olds: seq<string>, news: seq<string>, ids: seq<u64>,
                    o: string, w: string, x: u64)
    requires |olds| == |news| == |ids| && Separate(olds + [o], news + [w])
    requires mid == t.(entries := mid.entries) && RekeyedTo(t.entries, mid.entries, olds, news, ids)
    ensures var t' := Apply(Apply(mid, DropEntry(o)), PutEntry(w, x));
            t' == t.(entries := t'.entries) && RekeyedTo(t.entries, t'.entries, olds + [o], news + [w], ids + [x])
  {
    RekeyOne(t.entries, mid.entries, olds, news, ids, o, w, x);
  }

  lemma {:induction false} RekeyOpsEffectStep(
    t: Tables, olds: seq<string>, news: seq<string>, ids: seq<u64>, o: string, w: string, x: u64)
    requires |olds| == |news| == |ids| && Separate(olds + [o], news + [w])
    ensures var t' := ApplyAll(t, RekeyOps(olds + [o], news + [w], ids + [x]));
            t' == t.(entries := t'.entries) && RekeyedTo(t.entries, t'.entries, olds + [o], news + [w], ids + [x])
    decreases |ids|, 1
  {
    SeparatePrefix(olds, news, o, w);
    RekeyOpsEffect(t, olds, news, ids);
    RekeyStep(t, olds, news, ids, o, w, x);
    RekeyTwoOps(t, ApplyAll(t, RekeyOps(olds, news, ids)), olds, news, ids, o, w, x);
  }

  // ----- The loop does what Rekeyed says -----

  lemma LocalsApart(local: string, local': string, name: string)
    requires GoodLocal(local) && GoodLocal(local') && Lower(name) == name
    requires Primary(local, name) == Primary(local', name)
    ensures local == local'
  {
    NormalizeGlue(local, name);
    NormalizeGlue(local', name);
    GlueInjective(local, TrimEnd(name), local', TrimEnd(name));
  }

  lemma NewPrimariesApart(t: Tables, domain: u64, x: u64, y: u64, name: string)
    requires RecordsGood(t) && LocalsExact(t) && Lower(name) == name
    requires InDomain(t, x, domain) && InDomain(t, y, domain) && x != y
    ensures Primary(t.accounts[x].localPart, name) != Primary(t.accounts[y].localPart, name)
  {
    assert Slot(t.accounts[x]) != Slot(t.accounts[y]);
    if Primary(t.accounts[x].localPart, name) == Primary(t.accounts[y].localPart, name) {
      LocalsApart(t.accounts[x].localPart, t.accounts[y].localPart, name);
    }
  }

  lemma OldAndNewApart(t: Tables, domain: u64, x: u64, y: u64, name: string)
    requires Inv(t) && domain in t.domains && !PrimaryTaken(t, domain, name)
    requires InDomain(t, x, domain) && InDomain(t, y, domain) && x != y
    ensures Primary(t.accounts[x].localPart, t.domains[domain].name) != Primary(t.accounts[y].localPart, name)
  {
    PrimaryOwned(t, x);
    FreePrimary(t, y, domain, name);
  }

  lemma Listed(t: Tables, domain: u64, list: seq<Account>, i: int)
    requires AccountList(t, list, (a: Account) => a.domainId == domain) && 0 <= i < |list|
    ensures InDomain(t, list[i].id, domain) && t.accounts[list[i].id] == list[i]
    ensures forall j | 0 <= j < |list| && j != i :: list[j].id != list[i].id
  {
    assert list[i] in list;
    forall j | 0 <= j < |list| && j != i ensures list[j].id != list[i].id {
      if i < j { assert list[i].id < list[j].id; } else { assert list[j].id < list[i].id; }
    }
  }

  lemma DomainListSeparate(t: Tables, domain: u64, list: seq<Account>, name: string)
    requires Inv(t) && domain in t.domains && Lower(name) == name
    requires AccountList(t, list, (a: Account) => a.domainId == domain)
    requires !PrimaryTaken(t, domain, name)
    ensures Separate(PrimariesOf(list, t.domains[domain].name), PrimariesOf(list, name))
  {
    forall i, j | 0 <= i < |list| && 0 <= j < |list| && i != j
      ensures Primary(list[i].localPart, name) != Primary(list[j].localPart, name)
      ensures Primary(list[i].localPart, t.domains[domain].name) != Primary(list[j].localPart, name)
    {
      SeparateAt(t, domain, list, name, i, j);
    }
    SeparateFromPairs(list, t.domains[domain].name, name);
  }

  lemma SeparateFromPairs(list: seq<Account>, oldName: string, newName: string)
    requires forall i, j | 0 <= i < |list| && 0 <= j < |list| && i != j ::
               && Primary(list[i].localPart, newName) != Primary(list[j].localPart, newName)
               && Primary(list[i].localPart, oldName) != Primary(list[j].localPart, newName)
    ensures Separate(PrimariesOf(list, oldName), PrimariesOf(list, newName))
  {
  }

  lemma SeparateAt(t: Tables, domain: u64, list: seq<Account>, name: string, i: int, j: int)
    requires Inv(t) && domain in t.domains && Lower(name) == name
    requires AccountList(t, list, (a: Account) => a.domainId == domain)
    requires !PrimaryTaken(t, domain, name)
    requires 0 <= i < |list| && 0 <= j < |list| && i != j
    ensures Primary(list[i].localPart, name) != Primary(list[j].localPart, name)
    ensures Primary(list[i].localPart, t.domains[domain].name) != Primary(list[j].localPart, name)
  {
    Listed(t, domain, list, i);
    Listed(t, domain, list, j);
    NewPrimariesApart(t, domain, list[i].id, list[j].id, name);
    OldAndNewApart(t, domain, list[i].id, list[j].id, name);
  }

  lemma DomainListPrimaries(t: Tables, domain: u64, list: seq<Account>, name: string)
    requires AccountList(t, list, (a: Account) => a.domainId == domain) && IdsMatch(t)
    ensures forall a :: a in Primaries(t, domain, name) <==> a in PrimariesOf(list, name)
  {
    var ps := PrimariesOf(list, name);
    forall a ensures a in Primaries(t, domain, name) <==> a in ps {
      if a in Primaries(t, domain, name) {
        var x := PrimaryOwner(t, domain, name, a);
        assert t.accounts[x] in list;
        var i :| 0 <= i < |list| && list[i] == t.accounts[x];
        assert ps[i] == a;
      }
      if a in ps {
        var i :| 0 <= i < |list| && ps[i] == a;
        assert list[i] in list;
        assert InDomain(t, list[i].id, domain);
      }
    }
  }

  lemma RekeyLoopIsRekeyed(t: Tables, u: Tables, domain: u64, list: seq<Account>, name: string)
    requires Inv(t) && domain in t.domains && Lower(name) == name && u.entries == t.entries
    requires AccountList(t, list, (a: Account) => a.domainId == domain)
    requires !PrimaryTaken(t, domain, name)
    ensures ApplyAll(u, RekeyOps(PrimariesOf(list, t.domains[domain].name), PrimariesOf(list, name), IdsOf(list))) ==
            u.(entries := Rekeyed(t, domain, t.domains[domain].name, name))
  {
    var oldName := t.domains[domain].name;
    var olds, news := PrimariesOf(list, oldName), PrimariesOf(list, name);
    DomainListSeparate(t, domain, list, name);
    RekeyOpsEffect(u, olds, news, IdsOf(list));
    DomainListPrimaries(t, domain, list, oldName);
    DomainListPrimaries(t, domain, list, name);
    forall i | 0 <= i < |list|
      ensures news[i] in PrimaryRows(t, domain, name) && PrimaryRows(t, domain, name)[news[i]] == list[i].id
    {
      assert news[i] in news;
      ListedOwner(t, domain, list, name, i);
    }
    RekeyedToIsReplaced(u.entries, ApplyAll(u, RekeyOps(olds, news, IdsOf(list))).entries,
                        olds, news, IdsOf(list), Primaries(t, domain, oldName), PrimaryRows(t, domain, name));
  }

  lemma ListedOwner(t: Tables, domain: u64, list: seq<Account>, name: string, i: int)
    requires RecordsGood(t) && LocalsExact(t) && Lower(name) == name
    requires AccountList(t, list, (a: Account) => a.domainId == domain) && 0 <= i < |list|
    requires PrimariesOf(list, name)[i] in Primaries(t, domain, name)
    ensures PrimaryOwner(t, domain, name, PrimariesOf(list, name)[i]) == list[i].id
  {
    var y := PrimaryOwner(t, domain, name, PrimariesOf(list, name)[i]);
    Listed(t, domain, list, i);
    if y != list[i].id { NewPrimariesApart(t, domain, y, list[i].id, name); }
  }

  lemma RekeyedToIsReplaced(e: map<string, AddressEntry>, e': map<string, AddressEntry>,
                            olds: seq<string>, news: seq<string>, ids: seq<u64>,
                            gone: set<string>, put: map<string, u64>)
    requires |olds| == |news| == |ids| && RekeyedTo(e, e', olds, news, ids)
    requires forall a :: a in put <==> a in news
    requires forall a :: a in gone <==> a in olds
    requires forall i | 0 <= i < |news| :: news[i] in put && put[news[i]] == ids[i]
    ensures e' == Replaced(e, gone, put)
  {
    forall a | a in news ensures a in e' && e'[a] == AccountEntry(a, put[a]) {
      var i :| 0 <= i < |news| && news[i] == a;
    }
  }

  // ----- Scans of domains -----

  ghost function DomainsAt(t: Tables, ids: seq<u64>): seq<Domain>
  {
    if ids == [] then [] else
      var n := |ids| - 1;
      DomainsAt(t, ids[..n]) + if ids[n] in t.domains then [t.domains[ids[n]]] else []
  }

  /** Exactly the live domains, by ascending id. */
  ghost predicate DomainList(t: Tables, list: seq<Domain>)
  {
    && (forall i, j | 0 <= i < j < |list| :: list[i].id < list[j].id)
    && (forall d | d in list :: d.id in t.domains && t.domains[d.id] == d)
    && (forall id | id in t.domains :: t.domains[id] in list)
  }

  lemma {:induction false} DomainsAtList(t: Tables, ids: seq<u64>)
    requires IdsMatch(t) && AscendingIds(ids)
    ensures var list := DomainsAt(t, ids);
            && (forall i, j | 0 <= i < j < |list| :: list[i].id < list[j].id)
            && (forall d | d in list :: d.id in ids && d.id in t.domains && t.domains[d.id] == d)
            && (forall id | id in t.domains && id in ids :: t.domains[id] in list)
  {
    if ids != [] {
      var n := |ids| - 1;
      DomainsAtList(t, ids[..n]);
      var head := DomainsAt(t, ids[..n]);
      forall i | 0 <= i < |head| ensures head[i].id < ids[n] {
        assert head[i] in head;
        var j :| 0 <= j < n && ids[j] == head[i].id;
      }
    }
  }

  lemma DomainsAtSnoc(t: Tables, ids: seq<u64>, x: u64)
    ensures DomainsAt(t, ids + [x]) == DomainsAt(t, ids) + if x in t.domains then [t.domains[x]] else []
  {
    assert (ids + [x])[..|ids|] == ids;
  }

  /** What a lookup by name must return: the owner of the canonical name, an error when the index names a
      domain that is gone, else the oldest domain that lists the name as an alias, else nothing. */
  ghost predicate Found(t: Tables, name: string, r: Result<Option<Domain>>)
  {
    if name in t.names then
      r == if t.names[name] in t.domains then Ok(Some(t.domains[t.names[name]])) else Err(NotFound)
    else r.Ok? && Oldest(t, name, r.value)
  }

  ghost predicate Oldest(t: Tables, name: string, r: Option<Domain>)
  {
    if r.None? then forall id | id in t.domains :: !Bears(t.domains[id], name)
    else
      && r.value.id in t.domains && t.domains[r.value.id] == r.value && Bears(r.value, name)
      && (forall id | id in t.domains && id < r.value.id :: !Bears(t.domains[id], name))
  }

  /** The domain has this name or lists it as an alias, the case of letters aside. */
  predicate Bears(d: Domain, name: string)
  {
    SameLetters(d.name, name) || exists alias | alias in d.aliases :: SameLetters(alias, name)
  }

  lemma MatchesIffBears(d: Domain, name: string)
    ensures d.MatchesName(name) <==> Bears(d, name)
  {
    forall s ensures Lower(s) == Lower(name) <==> SameLetters(s, name) { SameLettersIff(s, name); }
  }

  // ----- Effects of the batches -----

  function MoveOps(gone: Option<string>, put: Option<(string, u64)>): seq<Op>
  {
    (if gone.Some? then [DropEntry(gone.value)] else []) +
    (if put.Some? then [PutEntry(put.value.0, put.value.1)] else [])
  }

  function CatchAllOps(before: Domain, after: Domain): seq<Op>
  {
    MoveOps(CatchAllKey(before), CatchAllRow(after))
  }

  lemma OneOp(t: Tables, a: Op)
    ensures ApplyAll(t, [a]) == Apply(t, a)
  {
    assert [a] == [] + [a];
    ApplyAllSnoc(t, [], a);
  }

  lemma MoveOpsEffect(t: Tables, gone: Option<string>, put: Option<(string, u64)>)
    ensures ApplyAll(t, MoveOps(gone, put)) == t.(entries := Moved(t.entries, gone, put))
  {
    var clear := if gone.Some? then [DropEntry(gone.value)] else [];
    var row := if put.Some? then [PutEntry(put.value.0, put.value.1)] else [];
    ApplyAllConcat(t, clear, row);
    if gone.Some? { OneOp(t, clear[0]); }
    if put.Some? { OneOp(ApplyAll(t, clear), row[0]); }
  }

  lemma CatchAllOpsEffect(t: Tables, before: Domain, after: Domain)
    ensures ApplyAll(t, CatchAllOps(before, after)) ==
            t.(entries := Moved(t.entries, CatchAllKey(before), CatchAllRow(after)))
  {
    MoveOpsEffect(t, CatchAllKey(before), CatchAllRow(after));
  }

  lemma NameNotBlank(name: string)
    requires name != "" && !IsWhitespace(name[0])
    ensures Normalize(name) != ""
  {
    assert TrimStart(name) == name;
    FirstStays(name);
  }

  lemma {:induction false} FirstStays(s: string)
    requires s != "" && !IsWhitespace(s[0])
    ensures TrimEnd(s) != ""
  {
    if |s| > 1 && IsWhitespace(s[|s| - 1]) {
      FirstStays(s[..|s| - 1]);
    }
  }

  function RenameRows(before: Domain, after: Domain): seq<Op>
  {
    [PutDomain(after)] + [DropName(before.name), PutName(after.name, after.id)]
  }

  lemma RenameRowsEffect(t: Tables, before: Domain, after: Domain)
    ensures ApplyAll(t, RenameRows(before, after)) ==
            t.(domains := t.domains[after.id := after], names := (t.names - {before.name})[after.name := after.id])
  {
    ApplyAllConcat(t, [PutDomain(after)], [DropName(before.name), PutName(after.name, after.id)]);
    OneOp(t, PutDomain(after));
    TwoOps(Apply(t, PutDomain(after)), DropName(before.name), PutName(after.name, after.id));
  }

  lemma RenameEffect(t: Tables, before: Domain, after: Domain, rekey: seq<Op>, e: map<string, AddressEntry>)
    requires var u := ApplyAll(t, RenameRows(before, after)); ApplyAll(u, rekey) == u.(entries := e)
    ensures ApplyAll(t, RenameRows(before, after) + rekey + CatchAllOps(before, after)) ==
            ApplyAll(t, RenameRows(before, after)).(entries := Moved(e, CatchAllKey(before), CatchAllRow(after)))
  {
    ApplyAllConcat(t, RenameRows(before, after), rekey);
    ApplyAllConcat(t, RenameRows(before, after) + rekey, CatchAllOps(before, after));
    CatchAllOpsEffect(ApplyAll(t, RenameRows(before, after) + rekey), before, after);
  }

  lemma SameNameEffect(t: Tables, before: Domain, after: Domain)
    ensures ApplyAll(t, [PutDomain(after)] + CatchAllOps(before, after)) ==
            t.(domains := t.domains[after.id := after],
               entries := Moved(t.entries, CatchAllKey(before), CatchAllRow(after)))
  {
    ApplyAllConcat(t, [PutDomain(after)], CatchAllOps(before, after));
    OneOp(t, PutDomain(after));
    CatchAllOpsEffect(Apply(t, PutDomain(after)), before, after);
  }

  function DeleteRows(d: Domain): seq<Op>
  {
    [DropDomain(d.id), DropName(d.name)]
  }

  lemma DomainDeleteEffect(t: Tables, d: Domain)
    ensures ApplyAll(t, DeleteRows(d) + CatchAllOps(d, d.(catchAll := None))) ==
            t.(domains := t.domains - {d.id}, names := t.names - {d.name},
               entries := Moved(t.entries, CatchAllKey(d), None))
  {
    ApplyAllConcat(t, DeleteRows(d), CatchAllOps(d, d.(catchAll := None)));
    TwoOps(t, DropDomain(d.id), DropName(d.name));
    CatchAllOpsEffect(ApplyAll(t, DeleteRows(d)), d, d.(catchAll := None));
  }

  // ----- The registry -----

  /** A record key met in a scan holds the domain of that id. */
  lemma ScannedDomain(m: map<seq<byte>, Value>, k: seq<byte>)
    requires Sound(m) && k in m && IsRecordKey(TAG_DOMAIN_RECORD, k)
    ensures var t, x := View(m), KeyId(k);
            (m[k].DomainValue? <==> x in t.domains) && (x in t.domains ==> m[k] == DomainValue(t.domains[x]))
  {
    KeyIdOfRecordKey(TAG_DOMAIN_RECORD, k, KeyId(k));
    ViewCell(m, DomainRow(KeyId(k)));
  }

  lemma ListStep(m: map<seq<byte>, Value>, keys: seq<seq<byte>>, i: nat)
    requires Sound(m) && i < |keys| && keys[i] in m
    ensures DomainsAt(View(m), IdsIn(TAG_DOMAIN_RECORD, keys[..i + 1])) ==
            DomainsAt(View(m), IdsIn(TAG_DOMAIN_RECORD, keys[..i])) +
            if IsRecordKey(TAG_DOMAIN_RECORD, keys[i]) && m[keys[i]].DomainValue? then [m[keys[i]].domain] else []
  {
    assert keys[..i + 1] == keys[..i] + [keys[i]];
    IdsInSnoc(TAG_DOMAIN_RECORD, keys[..i], keys[i]);
    if IsRecordKey(TAG_DOMAIN_RECORD, keys[i]) {
      ScannedDomain(m, keys[i]);
      DomainsAtSnoc(View(m), IdsIn(TAG_DOMAIN_RECORD, keys[..i]), KeyId(keys[i]));
    }
  }

  /** A scan of the whole subspace lists the domains. */
  lemma ScanListsDomains(m: map<seq<byte>, Value>, keys: seq<seq<byte>>)
    requires Sound(m) && IdsMatch(View(m)) && keys == SortedKeys(KeysUnder(m, [REGISTRY]))
    ensures DomainList(View(m), DomainsAt(View(m), IdsIn(TAG_DOMAIN_RECORD, keys)))
  {
    var t := View(m);
    IdsInAscending(TAG_DOMAIN_RECORD, keys);
    forall x | x in t.domains ensures x in IdsIn(TAG_DOMAIN_RECORD, keys) {
      ViewCell(m, DomainRow(x));
      IdsInExact(TAG_DOMAIN_RECORD, keys, x);
    }
    DomainsAtList(t, IdsIn(TAG_DOMAIN_RECORD, keys));
  }

  ghost predicate Residents(t: Tables, domain: u64, list: seq<Account>)
  {
    AccountList(t, list, (a: Account) => a.domainId == domain)
  }

  function LoopOps(list: seq<Account>, oldName: string, newName: string): seq<Op>
  {
    RekeyOps(PrimariesOf(list, oldName), PrimariesOf(list, newName), IdsOf(list))
  }

  /** The operations take each account of the domain, by ascending id, off its old primary and onto its new one. */
  ghost predicate RekeysDomain(t: Tables, domain: u64, oldName: string, newName: string, ops: seq<Op>)
  {
    exists list :: Residents(t, domain, list) && ops == LoopOps(list, oldName, newName)
  }

  ghost predicate RenamesTo(t: Tables, before: Domain, after: Domain, rekey: seq<Op>, t': Tables)
  {
    && RekeysDomain(t, after.id, before.name, after.name, rekey)
    && t' == ApplyAll(t, RenameRows(before, after) + rekey + CatchAllOps(before, after))
  }

  /** What an update that passes its checks leaves behind, on any directory. */
  ghost predicate UpdatesDomain(t: Tables, d: Domain, t': Tables)
    requires d.id in t.domains
  {
    var before, after := t.domains[d.id], Normalized(d);
    if after.name == before.name then
      t' == t.(domains := t.domains[d.id := after],
               entries := Moved(t.entries, CatchAllKey(before), CatchAllRow(after)))
    else exists rekey :: RenamesTo(t, before, after, rekey, t')
  }

  /** In a coherent directory the account-by-account renaming is the renaming of all primaries at once. */
  lemma UpdatesAreUpdate(t: Tables, d: Domain, t': Tables)
    requires Inv(t) && DomainUpdate(t, d).Ok? && UpdatesDomain(t, d, t')
    ensures DomainUpdate(t, d) == Ok(t')
  {
    var before, after := t.domains[d.id], Normalized(d);
    if after.name != before.name {
      var rekey :| RenamesTo(t, before, after, rekey, t');
      var list :| Residents(t, d.id, list) && rekey == LoopOps(list, before.name, after.name);
      RenameRowsEffect(t, before, after);
      RekeyLoopIsRekeyed(t, ApplyAll(t, RenameRows(before, after)), d.id, list, after.name);
      RenameEffect(t, before, after, rekey, Rekeyed(t, d.id, before.name, after.name));
    }
  }

  predicate EntryOps(ops: seq<Op>)
  {
    forall op | op in ops :: op.PutEntry? || op.DropEntry?
  }

  lemma {:induction false} EntryOpsKeep(t: Tables, ops: seq<Op>)
    requires EntryOps(ops)
    ensures ApplyAll(t, ops).domains == t.domains
  {
    if ops != [] {
      assert ops[|ops| - 1] in ops;
      EntryOpsKeep(t, ops[..|ops| - 1]);
    }
  }

  lemma {:induction false} RekeyIsEntryOps(olds: seq<string>, news: seq<string>, ids: seq<u64>)
    requires |olds| == |news| == |ids|
    ensures EntryOps(RekeyOps(olds, news, ids))
  {
    if ids != [] {
      var n := |ids| - 1;
      RekeyIsEntryOps(olds[..n], news[..n], ids[..n]);
    }
  }

  /** Whatever the directory, an accepted update saves the domain as asked. */
  lemma UpdatesSave(t: Tables, d: Domain, t': Tables)
    requires d.id in t.domains && UpdatesDomain(t, d, t')
    ensures d.id in t'.domains && DomainSaved(d, t'.domains[d.id])
  {
    var before, after := t.domains[d.id], Normalized(d);
    NormalizedIsSaved(d);
    if after.name != before.name {
      var rekey :| RenamesTo(t, before, after, rekey, t');
      var list :| Residents(t, d.id, list) && rekey == LoopOps(list, before.name, after.name);
      RenameSaves(t, before, after, list);
    }
  }

  lemma RenameSaves(t: Tables, before: Domain, after: Domain, list: seq<Account>)
    ensures var ops := RenameRows(before, after) + LoopOps(list, before.name, after.name) + CatchAllOps(before, after);
            ApplyAll(t, ops).domains == t.domains[after.id := after]
  {
    var rows, rekey := RenameRows(before, after), LoopOps(list, before.name, after.name);
    var rest := CatchAllOps(before, after);
    ApplyAllConcat(t, rows, rekey);
    ApplyAllConcat(t, rows + rekey, rest);
    RenameRowsEffect(t, before, after);
    RekeyIsEntryOps(PrimariesOf(list, before.name), PrimariesOf(list, after.name), IdsOf(list));
    EntryOpsKeep(ApplyAll(t, rows), rekey);
    EntryOpsKeep(ApplyAll(t, rows + rekey), rest);
  }

  class DomainRegistry {
    const store: Store<Value>
    const ids: IdGenerator
    const addresses: AddressIndex
    const accounts: AccountRegistry

    constructor (store: Store<Value>, ids: IdGenerator, addresses: AddressIndex, accounts: AccountRegistry)
      ensures this.store == store && this.ids == ids && this.addresses == addresses && this.accounts == accounts
    {
      this.store, this.ids, this.addresses, this.accounts := store, ids, addresses, accounts;
    }

    ghost predicate Wired()
    {
      addresses.store == store && accounts.store == store && ids.node < NODES
    }

    method Get(id: u64) returns (r: Result<Domain>)
      requires Sound(store.data)
      ensures var t := View(store.data);
              r == if id in t.domains then Ok(t.domains[id]) else Err(NotFound)
    {
      ViewCell(store.data, DomainRow(id));
      var found := store.Get(DomainKey(id));
      r := if found.Some? && found.value.DomainValue? then Ok(found.value.domain) else Err(NotFound);
    }

    method LookupId(name: string) returns (r: Option<u64>)
      requires Sound(store.data)
      ensures var t := View(store.data);
              r == if name in t.names then Some(t.names[name]) else None
    {
      ViewCell(store.data, NameRow(name));
      var found := store.Get(NameKey(name));
      r := if found.Some? && found.value.IdValue? then Some(found.value.id) else None;
    }

    method List() returns (r: seq<Domain>)
      requires Sound(store.data) && IdsMatch(View(store.data))
      ensures DomainList(View(store.data), r)
    {
      var rows := store.Iterate([REGISTRY]);
      ghost var keys := SortedKeys(KeysUnder(store.data, [REGISTRY]));
      r := [];
      for i := 0 to |rows|
        invariant r == DomainsAt(View(store.data), IdsIn(TAG_DOMAIN_RECORD, keys[..i]))
      {
        var (k, value) := rows[i];
        ListStep(store.data, keys, i);
        if IsRecordKey(TAG_DOMAIN_RECORD, k) && value.DomainValue? {
          r := r + [value.domain];
        }
      }
      assert keys[..|keys|] == keys;
      ScanListsDomains(store.data, keys);
    }

    method GetByName(name: string) returns (r: Result<Option<Domain>>)
      requires Sound(store.data) && IdsMatch(View(store.data))
      ensures Found(View(store.data), NormalizeName(name), r)
    {
      var n := NormalizeName(name);
      var id := LookupId(n);
      if id.Some? {
        var d := Get(id.value);
        return if d.Ok? then Ok(Some(d.value)) else Err(d.error);
      }
      ghost var t := View(store.data);
      forall d: Domain ensures d.MatchesName(n) <==> Bears(d, n) { MatchesIffBears(d, n); }
      var list := List();
      for i := 0 to |list|
        invariant forall j | 0 <= j < i :: !list[j].MatchesName(n)
      {
        if list[i].MatchesName(n) {
          assert list[i] in list;
          forall id | id in t.domains && id < list[i].id ensures !t.domains[id].MatchesName(n) {
            var j :| 0 <= j < |list| && list[j] == t.domains[id];
            assert j < i;
          }
          return Ok(Some(list[i]));
        }
      }
      r := Ok(None);
    }

    method Create(name: string, aliases: seq<string>, now: u64) returns (r: Result<Domain>)
      requires Sound(store.data) && Wired()
      modifies store, ids
      ensures Sound(store.data)
      ensures var t, n := old(View(store.data)), NormalizeName(name);
              if n == "" || n in t.names
              then r == Err(InvalidInput) && store.data == old(store.data) && ids.last == old(ids.last)
              else
                && ids.last == Candidate(old(ids.last), now)
                && var id := IdOf(ids.last, ids.node);
                   var at := TimestampOf(id) * 1000;
                   && r == Ok(NewDomain(name, aliases, id, at))
                   && DomainCreate(t, name, aliases, id, at) == Ok(View(store.data))
      ensures r.Ok? ==> var id := IdOf(ids.last, ids.node);
                        DomainOpened(name, aliases, id, TimestampOf(id) * 1000, r.value)
      ensures r.Ok? ==>
                r.value.id in View(store.data).domains && View(store.data).domains[r.value.id] == r.value
    {
      ghost var m, t := store.data, View(store.data);
      var n := NormalizeName(name);
      if n == "" { return Err(InvalidInput); }
      var taken := LookupId(n);
      if taken.Some? { return Err(InvalidInput); }
      var id := ids.Generate(now);
      var d := NewDomain(name, aliases, id, TimestampOf(id) * 1000);
      NewDomainIsOpened(name, aliases, id, TimestampOf(id) * 1000);
      store.Batch(EncodeOps([PutDomain(d), PutName(n, id)]));
      ViewAfterBatch(m, [PutDomain(d), PutName(n, id)]);
      TwoOps(t, PutDomain(d), PutName(n, id));
      r := Ok(d);
    }

    method RekeyPrimaryOps(oldName: string, newName: string, domain: u64) returns (r: Result<seq<Op>>)
      requires Sound(store.data) && Wired() && IdsMatch(View(store.data))
      ensures r.Err? <==> PrimaryTaken(View(store.data), domain, newName)
      ensures r.Err? ==> r.error == InvalidInput
      ensures r.Ok? ==> RekeysDomain(View(store.data), domain, oldName, newName, r.value)
    {
      ghost var t := View(store.data);
      var keep := (a: Account) => a.domainId == domain;
      var list := accounts.Collect(keep);
      var ops: seq<Op> := [];
      for i := 0 to |list|
        invariant ops == LoopOps(list[..i], oldName, newName)
        invariant forall j | 0 <= j < i :: FreeFor(t, list[j], newName)
      {
        var a := list[i];
        var entry := addresses.EntryFor(a.localPart + "@" + newName);
        Listed(t, domain, list, i);
        if entry.Some? && entry.value.AccountId() != Some(a.id) {
          assert PrimaryTaken(t, domain, newName);
          return Err(InvalidInput);
        }
        LoopOpsSnoc(list, i, oldName, newName);
        ops := ops + [DropEntry(Primary(a.localPart, oldName))];
        ops := ops + [PutEntry(Primary(a.localPart, newName), a.id)];
      }
      assert list[..|list|] == list;
      NoneTaken(t, domain, newName, list);
      assert Residents(t, domain, list);
      r := Ok(ops);
    }

    /** On any store the checks are those of the tables' update and what is written is the renaming account
        by account; where the directory is coherent that is the tables' update. */
    method Update(domain: Domain) returns (r: Result<()>)
      requires Sound(store.data) && Wired() && IdsMatch(View(store.data))
      modifies store
      ensures Sound(store.data)
      ensures var update := DomainUpdate(old(View(store.data)), domain);
              if update.Err? then r == Err(update.error) && store.data == old(store.data)
              else r == Ok(()) && UpdatesDomain(old(View(store.data)), domain, View(store.data))
      ensures Inv(old(View(store.data))) && r.Ok? ==>
              DomainUpdate(old(View(store.data)), domain) == Ok(View(store.data))
      ensures r.Ok? ==> domain.id in View(store.data).domains
                        && DomainSaved(domain, View(store.data).domains[domain.id])
    {
      ghost var m, t := store.data, View(store.data);
      var existing := Get(domain.id);
      if existing.Err? { return Err(existing.error); }
      var before, after := existing.value, Normalized(domain);
      if after.name == "" { return Err(InvalidInput); }
      var ops := [PutDomain(after)];
      ghost var rekeying: seq<Op> := [];
      if after.name != before.name {
        var other := LookupId(after.name);
        if other.Some? && other.value != after.id { return Err(InvalidInput); }
        ops := ops + [DropName(before.name), PutName(after.name, after.id)];
        var rekeyed := RekeyPrimaryOps(before.name, after.name, after.id);
        if rekeyed.Err? { return Err(rekeyed.error); }
        ops := ops + rekeyed.value;
        rekeying := rekeyed.value;
      } else {
        SameNameEffect(t, before, after);
      }
      NameNotBlank(after.name);
      ops := ops + CatchAllOps(before, after);
      store.Batch(EncodeOps(ops));
      ViewAfterBatch(m, ops);
      assert UpdatesDomain(t, domain, View(store.data)) by {
        if after.name != before.name { assert RenamesTo(t, before, after, rekeying, View(store.data)); }
      }
      if Inv(t) { UpdatesAreUpdate(t, domain, View(store.data)); }
      UpdatesSave(t, domain, View(store.data));
      r := Ok(());
    }

    method Delete(id: u64) returns (r: Result<()>)
      requires Sound(store.data) && Wired() && IdsMatch(View(store.data))
      modifies store
      ensures Sound(store.data)
      ensures match DomainDelete(old(View(store.data)), id)
              case Ok(t') => r == Ok(()) && View(store.data) == t'
              case Err(e) => r == Err(e) && store.data == old(store.data)
    {
      ghost var m, t := store.data, View(store.data);
      var existing := Get(id);
      if existing.Err? { return Err(existing.error); }
      var d := existing.value;
      var keep := (a: Account) => a.domainId == id;
      var residents := accounts.Collect(keep);
      ResidentsExact(t, id, residents);
      if residents != [] { return Err(InvalidInput); }
      var ops := DeleteRows(d) + CatchAllOps(d, d.(catchAll := None));
      store.Batch(EncodeOps(ops));
      ViewAfterBatch(m, ops);
      DomainDeleteEffect(t, d);
      r := Ok(());
    }
  }

  predicate FreeFor(t: Tables, a: Account, name: string)
  {
    var p := Primary(a.localPart, name);
    p in t.entries ==> t.entries[p].AccountId() == Some(a.id)
  }

  lemma ResidentsExact(t: Tables, domain: u64, list: seq<Account>)
    requires AccountList(t, list, (a: Account) => a.domainId == domain)
    ensures list != [] <==> exists x | x in t.accounts :: InDomain(t, x, domain)
  {
    if list != [] {
      assert list[0] in list;
      assert InDomain(t, list[0].id, domain);
    } else if x :| x in t.accounts && InDomain(t, x, domain) {
      var keep := (a: Account) => a.domainId == domain;
      assert keep(t.accounts[x]);
    }
  }

  lemma NoneTaken(t: Tables, domain: u64, name: string, list: seq<Account>)
    requires AccountList(t, list, (a: Account) => a.domainId == domain) && IdsMatch(t)
    requires forall j | 0 <= j < |list| :: FreeFor(t, list[j], name)
    ensures !PrimaryTaken(t, domain, name)
  {
    forall x | x in t.accounts && InDomain(t, x, domain)
      ensures FreeFor(t, t.accounts[x], name)
    {
      var j :| 0 <= j < |list| && list[j] == t.accounts[x];
    }
  }

  lemma PrimariesSnoc(list: seq<Account>, a: Account, name: string)
    ensures PrimariesOf(list + [a], name) == PrimariesOf(list, name) + [Primary(a.localPart, name)]
  {
  }

  lemma LoopOpsSnoc(list: seq<Account>, i: int, oldName: string, newName: string)
    requires 0 <= i < |list|
    ensures LoopOps(list[..i + 1], oldName, newName) ==
            LoopOps(list[..i], oldName, newName)
            + [DropEntry(Primary(list[i].localPart, oldName))]
            + [PutEntry(Primary(list[i].localPart, newName), list[i].id)]
  {
    PrefixSnoc(list, i, oldName, newName);
    RekeyOpsSnoc(PrimariesOf(list[..i], oldName), PrimariesOf(list[..i], newName), IdsOf(list[..i]),
                 Primary(list[i].localPart, oldName), Primary(list[i].localPart, newName), list[i].id);
  }

  lemma PrefixSnoc(list: seq<Account>, i: int, oldName: string, newName: string)
    requires 0 <= i < |list|
    ensures PrimariesOf(list[..i + 1], oldName) ==
            PrimariesOf(list[..i], oldName) + [Primary(list[i].localPart, oldName)]
    ensures PrimariesOf(list[..i + 1], newName) ==
            PrimariesOf(list[..i], newName) + [Primary(list[i].localPart, newName)]
    ensures IdsOf(list[..i + 1]) == IdsOf(list[..i]) + [list[i].id]
  {
    assert list[..i + 1] == list[..i] + [list[i]];
    PrimariesSnoc(list[..i], list[i], oldName);
    PrimariesSnoc(list[..i], list[i], newName);
  }
}
